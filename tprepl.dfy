/** The remote shell's read-eval-print loop: each command is sent,
    and the reply is gathered from received chunks until the bytes
    gathered so far end with the 8-byte completion marker that the shell
    writes after every command. The marker is then cut off. */
module TpRepl {
  import opened Bits
  import opened Wire

  /** `END`: the marker the client waits for once a command has been sent. */
  const End: seq<Byte> := [0x7f, 0x8c, 0x25, 0xab, 0xb6, 0x16, 0x1e, 0x94]

  /** One `recv`: `None` after a timeout, otherwise the bytes of one
      transport message. */
  type Chunk = Option<seq<Byte>>

  /** What `if data: res += data` adds: nothing for `None` or empty bytes. */
  function Data(c: Chunk): (d: seq<Byte>)
    ensures c.None? ==> d == []
    ensures c.Some? ==> d == c.value
  {
    if c.Some? then c.value else []
  }

  /** `res.endswith(END)`. */
  predicate EndsWithEnd(res: seq<Byte>)
  {
    EndsWith(res, End)
  }

  predicate EndsWith(res: seq<Byte>, e: seq<Byte>)
  {
    |res| >= |e| && res[|res| - |e|..] == e
  }

  /** All the bytes of some chunks, in order. */
  function Concat(cs: seq<Chunk>): (r: seq<Byte>)
  {
    if cs == [] then [] else Data(cs[0]) + Concat(cs[1..])
  }

  /** Taking one more chunk off the front of a prefix. */
  lemma ConcatPrefix(res: seq<Byte>, cs: seq<Chunk>, m: nat)
    requires 1 <= m <= |cs|
    ensures res + Concat(cs[..m]) == (res + Data(cs[0])) + Concat(cs[1..][..m - 1])
  {
    assert cs[..m][1..] == cs[1..][..m - 1];
  }

  /** The gathered bytes and how many chunks the gathering took. */
  datatype Gathered = Gathered(res: seq<Byte>, used: nat)

  /** `while not res.endswith(END): data = s.recv(); if data: res += data`,
      on the chunks still to come; `None` when they run out first (the
      program itself would wait for more). */
  function Gather(res: seq<Byte>, cs: seq<Chunk>): (r: Option<Gathered>)
    ensures r.Some? ==> r.value.used <= |cs| && EndsWithEnd(r.value.res)
    decreases |cs|
  {
    if EndsWithEnd(res) then Some(Gathered(res, 0))
    else if cs == [] then None
    else
      match Gather(res + Data(cs[0]), cs[1..])
      case None => None
      case Some(g) => Some(Gathered(g.res, g.used + 1))
  }

  /** `res = res[:-8]`: what is printed for one command. */
  function Output(cs: seq<Chunk>): (o: Option<seq<Byte>>)
    ensures o.Some? <==> Gather([], cs).Some?
    ensures o.Some? ==> o.value + End == Concat(cs[..Gather([], cs).value.used])
  {
    match Gather([], cs)
    case None => None
    case Some(g) =>
      GatherFirst([], cs);
      assert [] + Concat(cs[..g.used]) == Concat(cs[..g.used]);
      assert g.res[..|g.res| - |End|] + End == g.res;
      Some(g.res[..|g.res| - |End|])
  }

  /** The reassembly loop as written, on the chunks `recv` returns in turn. */
  method Reassemble(cs: seq<Chunk>) returns (out: Option<seq<Byte>>, used: nat)
    ensures Output(cs) == out
    ensures out.Some? <==> Gather([], cs).Some?
    ensures out.Some? ==> used == Gather([], cs).value.used
  {
    var res: seq<Byte> := [];
    var i := 0;
    assert cs[0..] == cs;
    while !EndsWithEnd(res)
      invariant 0 <= i <= |cs|
      invariant Gather([], cs) == Shifted(Gather(res, cs[i..]), i)
      decreases |cs| - i
    {
      if i == |cs| {
        return None, i;
      }
      GatherStep(res, cs[i..]);
      assert cs[i..][1..] == cs[i + 1..];
      ShiftedShifted(Gather(res + Data(cs[i]), cs[i + 1..]), 1, i);
      var data := cs[i];
      assert cs[i..][0] == data;
      if data.Some? && data.value != [] {
        res := res + data.value;
      } else {
        assert res + Data(data) == res;
      }
      i := i + 1;
    }
    out := Some(res[..|res| - |End|]);
    used := i;
  }

  /** A gathering that took `n` more chunks before it started. */
  function Shifted(g: Option<Gathered>, n: nat): Option<Gathered>
  {
    match g
    case None => None
    case Some(x) => Some(Gathered(x.res, x.used + n))
  }

  lemma ShiftedShifted(g: Option<Gathered>, m: nat, n: nat)
    ensures Shifted(Shifted(g, m), n) == Shifted(g, m + n)
  {
  }

  lemma GatherStep(res: seq<Byte>, cs: seq<Chunk>)
    requires !EndsWithEnd(res) && cs != []
    ensures Gather(res, cs) == Shifted(Gather(res + Data(cs[0]), cs[1..]), 1)
  {
  }

  /** The gathering from `res` on: it stops at the first chunk boundary
      where the bytes so far end with the marker, and what it holds then is
      `res` followed by the data of the chunks it took, in order. */
  lemma {:induction false} GatherFirst(res: seq<Byte>, cs: seq<Chunk>)
    ensures var g := Gather(res, cs);
            && (g.Some? ==>
                  && g.value.res == res + Concat(cs[..g.value.used])
                  && forall m :: 0 <= m < g.value.used ==> !EndsWithEnd(res + Concat(cs[..m])))
            && (g.None? ==> forall m :: 0 <= m <= |cs| ==> !EndsWithEnd(res + Concat(cs[..m])))
    decreases |cs|
  {
    assert res + Concat(cs[..0]) == res by { assert cs[..0] == []; }
    if !EndsWithEnd(res) && cs != [] {
      var r1 := res + Data(cs[0]);
      GatherFirst(r1, cs[1..]);
      forall m | 1 <= m <= |cs|
        ensures res + Concat(cs[..m]) == r1 + Concat(cs[1..][..m - 1])
      {
        ConcatPrefix(res, cs, m);
      }
    }
  }

  /** Received chunks that are `None` or empty change nothing of what is
      printed: dropping them gives the same output. */
  lemma {:induction false} EmptyChunksIgnored(res: seq<Byte>, cs: seq<Chunk>)
    ensures Gather(res, cs).Some? <==> Gather(res, NonEmpty(cs)).Some?
    ensures Gather(res, cs).Some? ==> Gather(res, cs).value.res == Gather(res, NonEmpty(cs)).value.res
    decreases |cs|
  {
    if cs != [] && !EndsWithEnd(res) {
      EmptyChunksIgnored(res + Data(cs[0]), cs[1..]);
      if Data(cs[0]) == [] {
        assert res + Data(cs[0]) == res;
      }
    }
  }

  /** The received chunks without those that carry no data. */
  function NonEmpty(cs: seq<Chunk>): (r: seq<Chunk>)
    ensures |r| <= |cs|
    ensures forall i :: 0 <= i < |r| ==> Data(r[i]) != []
  {
    if cs == [] then []
    else if Data(cs[0]) == [] then NonEmpty(cs[1..])
    else [cs[0]] + NonEmpty(cs[1..])
  }

  /** The same for the printed output. */
  lemma OutputIgnoresEmpty(cs: seq<Chunk>)
    ensures Output(cs) == Output(NonEmpty(cs))
  {
    EmptyChunksIgnored([], cs);
  }

  /** `SEND_COMPLETE` of the shell program (shell.c): the bytes the shell
      writes after each command. It is kept apart from `End`, the client's
      own copy, so that `SendCompleteEnds` can show that the bytes written
      are the bytes awaited. */
  const SendComplete: seq<Byte> := [0x7f, 0x8c, 0x25, 0xab, 0xb6, 0x16, 0x1e, 0x94]

  /** When the shell's output `out` and then its completion marker arrive in
      chunks, and no earlier chunk boundary already ends with the marker,
      the loop prints exactly `out`, whatever comes after. */
  lemma ShellReplyPrinted(out: seq<Byte>, cs: seq<Chunk>, later: seq<Chunk>)
    requires Concat(cs) == out + SendComplete
    requires forall m :: 0 <= m < |cs| ==> !EndsWithEnd(Concat(cs[..m]))
    ensures Output(cs + later) == Some(out)
  {
    SendCompleteEnds(out);
    PrefixBoundaries(cs, later);
    StopsAtStart(cs + later, |cs|);
    OutputIs(cs + later, out);
  }

  lemma SendCompleteEnds(out: seq<Byte>)
    ensures EndsWithEnd(out + SendComplete)
  {
    assert SendComplete == End;
    AppendedSuffix(out, End);
  }

  /** Chunks that come later do not change the boundaries before them. */
  lemma PrefixBoundaries(cs: seq<Chunk>, later: seq<Chunk>)
    ensures forall m :: 0 <= m <= |cs| ==> Concat((cs + later)[..m]) == Concat(cs[..m])
    ensures Concat((cs + later)[..|cs|]) == Concat(cs)
  {
    forall m | 0 <= m <= |cs|
      ensures Concat((cs + later)[..m]) == Concat(cs[..m])
    {
      assert (cs + later)[..m] == cs[..m];
    }
    assert cs[..|cs|] == cs;
  }

  /** The same, gathering from nothing. */
  lemma StopsAtStart(cs: seq<Chunk>, n: nat)
    requires n <= |cs| && EndsWithEnd(Concat(cs[..n]))
    requires forall m :: 0 <= m < n ==> !EndsWithEnd(Concat(cs[..m]))
    ensures Gather([], cs) == Some(Gathered(Concat(cs[..n]), n))
  {
    assert forall m :: 0 <= m <= n ==> [] + Concat(cs[..m]) == Concat(cs[..m]);
    StopsAt([], cs, n);
  }

  lemma OutputIs(cs: seq<Chunk>, out: seq<Byte>)
    requires Gather([], cs).Some? && Gather([], cs).value.res == out + End
    ensures Output(cs) == Some(out)
  {
    AppendedSuffix(out, End);
  }

  /** A suffix appended is a suffix, and cutting it off gives back the rest. */
  lemma AppendedSuffix(out: seq<Byte>, e: seq<Byte>)
    ensures EndsWith(out + e, e)
    ensures (out + e)[..|out + e| - |e|] == out
  {
    assert (out + e)[|out|..] == e;
  }

  /** The gathering stops at the first boundary ending with the marker. */
  lemma {:induction false} StopsAt(res: seq<Byte>, cs: seq<Chunk>, n: nat)
    requires n <= |cs| && EndsWithEnd(res + Concat(cs[..n]))
    requires forall m :: 0 <= m < n ==> !EndsWithEnd(res + Concat(cs[..m]))
    ensures Gather(res, cs) == Some(Gathered(res + Concat(cs[..n]), n))
    decreases n
  {
    assert res + Concat(cs[..0]) == res by { assert cs[..0] == []; }
    if n > 0 {
      var r1 := res + Data(cs[0]);
      forall m | 0 <= m < n - 1
        ensures !EndsWithEnd(r1 + Concat(cs[1..][..m]))
      {
        ConcatPrefix(res, cs, m + 1);
      }
      ConcatPrefix(res, cs, n);
      StopsAt(r1, cs[1..], n - 1);
    }
  }

  // The session: one command at a time, each reply gathered from where the
  // previous one stopped.

  /** The commands sent and the outputs printed before the chunks run out. */
  datatype Session = Session(sent: seq<seq<Byte>>, printed: seq<seq<Byte>>)

  /** `s.send(cmd)` and the reassembly, for each command in turn. The
      commands are given as the bytes `input().encode()` returns. */
  function Repl(cmds: seq<seq<Byte>>, cs: seq<Chunk>): (r: Session)
    ensures |r.printed| <= |r.sent| <= |r.printed| + 1
    ensures |r.sent| <= |cmds|
    ensures cmds != [] ==> r.sent != []
    decreases |cmds|
  {
    if cmds == [] then Session([], [])
    else
      match Gather([], cs)
      case None => Session([cmds[0]], [])
      case Some(g) =>
        var rest := Repl(cmds[1..], cs[g.used..]);
        Session([cmds[0]] + rest.sent, [g.res[..|g.res| - |End|]] + rest.printed)
  }

  /** The outer `while True` loop over the commands typed so far. */
  method RunRepl(cmds: seq<seq<Byte>>, cs: seq<Chunk>) returns (r: Session)
    ensures r == Repl(cmds, cs)
  {
    var sent: seq<seq<Byte>> := [];
    var printed: seq<seq<Byte>> := [];
    var rest := cs;
    var i := 0;
    while i < |cmds|
      invariant 0 <= i <= |cmds|
      invariant Repl(cmds, cs) == Prefixed(sent, printed, Repl(cmds[i..], rest))
      decreases |cmds| - i
    {
      sent := sent + [cmds[i]];
      var out, used := Reassemble(rest);
      assert cmds[i..][1..] == cmds[i + 1..];
      if out.None? {
        PrefixedNone(sent[..|sent| - 1], printed, cmds[i], Repl(cmds[i..], rest));
        return Session(sent, printed);
      }
      GatherFirst([], rest);
      PrefixedSome(sent[..|sent| - 1], printed, cmds[i], out.value, Repl(cmds[i + 1..], rest[used..]));
      assert sent[..|sent| - 1] + [cmds[i]] == sent;
      printed := printed + [out.value];
      rest := rest[used..];
      i := i + 1;
    }
    assert cmds[i..] == [];
    r := Session(sent, printed);
  }

  /** A session preceded by what was sent and printed before it. */
  function Prefixed(sent: seq<seq<Byte>>, printed: seq<seq<Byte>>, s: Session): Session
  {
    Session(sent + s.sent, printed + s.printed)
  }

  lemma PrefixedNone(sent: seq<seq<Byte>>, printed: seq<seq<Byte>>, cmd: seq<Byte>, s: Session)
    requires s == Session([cmd], [])
    ensures Prefixed(sent, printed, s) == Session(sent + [cmd], printed)
  {
  }

  lemma PrefixedSome(sent: seq<seq<Byte>>, printed: seq<seq<Byte>>, cmd: seq<Byte>, out: seq<Byte>, s: Session)
    ensures Prefixed(sent, printed, Session([cmd] + s.sent, [out] + s.printed))
            == Prefixed(sent + [cmd], printed + [out], s)
  {
  }

  /** Every command is sent, one at a time, until the chunks run out; each
      printed output is the reply gathered for the command of the same
      index, so there is one output per sent command except possibly the
      last. */
  lemma {:induction false} ReplCounts(cmds: seq<seq<Byte>>, cs: seq<Chunk>)
    ensures var r := Repl(cmds, cs);
            && r.sent == cmds[..|r.sent|]
            && (|r.printed| == |r.sent| <==> |r.printed| == |cmds|)
            && (cmds != [] && r.printed != [] ==> Output(cs) == Some(r.printed[0]))
    decreases |cmds|
  {
    if cmds != [] {
      var g := Gather([], cs);
      if g.Some? {
        ReplCounts(cmds[1..], cs[g.value.used..]);
        var rest := Repl(cmds[1..], cs[g.value.used..]);
        var first := g.value.res[..|g.value.res| - |End|];
        assert Repl(cmds, cs) == Session([cmds[0]] + rest.sent, [first] + rest.printed);
        assert Output(cs) == Some(first);
        assert cmds[..1 + |rest.sent|] == [cmds[0]] + cmds[1..][..|rest.sent|];
      } else {
        assert cmds[..1] == [cmds[0]];
      }
    }
  }
}
