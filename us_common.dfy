/** The service codec and chunked memory reader of the user-space
    diagnostics client (ISO 14229-1 services ReadMemoryByAddress 0x23,
    SecurityAccess 0x27 and RoutineControl 0x31). */
module UserSpaceCommon {
  import opened Bits
  import opened Wire

  /** Header size of each positive response, keyed by its leading byte
      (request SID + 0x40); a negative response (0x7f) has no header. */
  const DataOffs: map<Byte, nat> :=
    map[0x62 := 3, 0x63 := 1, 0x67 := 2, 0x71 := 4, 0x74 := 2, 0x76 := 2, 0x7f := 0]

  const RtCtlStart: Byte := 1
  const RtCtlStop: Byte := 2
  const RtCtlStatus: Byte := 3

  const ReadMemoryMaxSize: nat := 0x800

  /** The negative responses to ReadMemoryByAddress that the reader tells
      apart: conditionsNotCorrect (0x22) and requestOutOfRange (0x31). */
  const ConditionsNotCorrect: Reply := [0x7f, 0x23, 0x22]
  const RequestOutOfRange: Reply := [0x7f, 0x23, 0x31]

  /** The table holds the positive responses of ReadDataByIdentifier,
      ReadMemoryByAddress, SecurityAccess, RoutineControl, RequestDownload and
      TransferData, and the negative response marker, whose reply
      `getdata` gives back whole. */
  lemma DataOffsKeys(reply: Reply)
    requires |reply| > 0 && reply[0] == 0x7f
    ensures DataOffs.Keys == {0x22 + 0x40, 0x23 + 0x40, 0x27 + 0x40, 0x31 + 0x40, 0x34 + 0x40, 0x36 + 0x40, 0x7f}
    ensures GetData(DataOffs, reply) == Ok(reply)
  {
  }

  // ReadMemoryByAddress with a 4-byte address and a 4-byte size (0x44).

  function ReadRequest(addr: U32, len: U32): (r: Request)
    ensures |r| == 10 && r[..2] == [0x23, 0x44]
  {
    [0x23, 0x44] + Pack32(addr) + Pack32(len)
  }

  /** The request carries the address and the length, each as four
      big-endian bytes. */
  lemma ReadRequestFields(addr: U32, len: U32)
    ensures AddressField(ReadRequest(addr, len)) == addr
    ensures LengthField(ReadRequest(addr, len)) == len
  {
    var r := ReadRequest(addr, len);
    assert r[2..6] == Pack32(addr) && r[6..] == Pack32(len);
    Pack32RoundTrip(addr, Pack32(addr));
    Pack32RoundTrip(len, Pack32(len));
  }

  /** A reply that `readmem` keeps: present and neither rejection it knows. */
  predicate Accepted(reply: Reply)
  {
    reply != [] && reply != ConditionsNotCorrect && reply != RequestOutOfRange
  }

  /** The state of the `readmem` loop at its head: the cursor and the bytes
      collected so far. */
  datatype Cursor = Cursor(addr: nat, size: nat, step: nat, dump: seq<Byte>)

  predicate Bounded(c: Cursor)
  {
    c.step <= ReadMemoryMaxSize
  }

  /** What one pass of the loop body does: fail before sending, or send
      `req`, and then either stop or go on from `next`. */
  datatype Pass = Fail(error: Error) | Sent(req: Request, stop: bool, next: Cursor)

  /** One pass of the `readmem` loop body from a head where `step > 0`. */
  function Body(ecu: Ecu, h: seq<Request>, c: Cursor): (p: Pass)
    requires Bounded(c) && c.step > 0
    ensures p.Sent? && !p.stop ==> Bounded(p.next) && p.next.size + p.next.step < c.size + c.step
    ensures p.Fail? <==> c.addr >= 0x1_0000_0000
    ensures p.Sent? ==> p.req == ReadRequest(c.addr, Min(c.step, c.size))
    ensures p.Sent? && !p.stop ==>
              p.next.step <= Min(c.step, c.size) && c.addr <= p.next.addr && p.next.addr + p.next.size == c.addr + c.size
  {
    var step := Min(c.step, c.size);
    if c.addr >= 0x1_0000_0000 then Fail(StructError)
    else
      var req := ReadRequest(c.addr, step);
      var reply := ecu(h + [req]);
      if reply == ConditionsNotCorrect then Sent(req, true, c)
      else if Accepted(reply) then Sent(req, false, Cursor(c.addr + step, c.size - step, step, c.dump + reply))
      else Sent(req, false, Cursor(c.addr, c.size, step / 2, c.dump))
  }

  /** The `readmem` loop from a loop head with cursor `c`, `h` sent before. */
  function ReadLoop(ecu: Ecu, h: seq<Request>, c: Cursor): (e: Exchange<seq<Byte>>)
    requires Bounded(c)
    ensures e.result.Ok? ==> c.dump <= e.result.value
    ensures e.result.Err? ==> e.result.error == StructError
    ensures c.step > 0 && c.addr < 0x1_0000_0000 ==> |e.sent| > 0
    decreases c.size + c.step
  {
    if c.step == 0 then Exchange(Ok(c.dump), [])
    else match Body(ecu, h, c)
      case Fail(e) => Exchange(Err(e), [])
      case Sent(req, stop, next) =>
        if stop then Exchange(Ok(next.dump), [req])
        else Then([req], ReadLoop(ecu, h + [req], next))
  }

  /** `readmem(s, addr, size)`: reads `size` bytes at `addr` in chunks of at
      most 0x800 bytes, halving the chunk on a missing reply or on
      requestOutOfRange and stopping on conditionsNotCorrect. */
  method ReadMem(ecu: Ecu, h: seq<Request>, addr: nat, size: nat) returns (e: Exchange<seq<Byte>>)
    ensures e == ReadLoop(ecu, h, Cursor(addr, size, ReadMemoryMaxSize, []))
  {
    ghost var whole := ReadLoop(ecu, h, Cursor(addr, size, ReadMemoryMaxSize, []));
    var dump: seq<Byte> := [];
    var step: nat := ReadMemoryMaxSize;
    var a: nat, n: nat := addr, size;
    var sent: seq<Request> := [];
    assert h + sent == h;
    while step > 0
      invariant step <= ReadMemoryMaxSize
      invariant whole == Then(sent, ReadLoop(ecu, h + sent, Cursor(a, n, step, dump)))
      decreases n + step
    {
      ghost var c, sent0 := Cursor(a, n, step, dump), sent;
      step := Min(step, n);
      if a >= 0x1_0000_0000 {
        assert ReadLoop(ecu, h + sent0, c) == Exchange(Err(StructError), []);
        return Exchange(Err(StructError), sent);
      }
      var req := ReadRequest(a, step);
      var reply := ecu(h + sent + [req]);
      sent := sent + [req];
      if reply == ConditionsNotCorrect {
        assert ReadLoop(ecu, h + sent0, c) == Exchange(Ok(dump), [req]);
        return Exchange(Ok(dump), sent);
      }
      if Accepted(reply) {
        dump := dump + reply;
        a, n := a + step, n - step;
      } else {
        step := step / 2;
      }
      assert Body(ecu, h + sent0, c) == Sent(req, false, Cursor(a, n, step, dump));
      assert h + sent0 + [req] == h + sent;
      ThenThen(sent0, [req], ReadLoop(ecu, h + sent, Cursor(a, n, step, dump)));
    }
    return Exchange(Ok(dump), sent);
  }

  function AddressField(r: Request): U32
    requires |r| == 10
  {
    Unpack32(r[2..6])
  }

  function LengthField(r: Request): U32
    requires |r| == 10
  {
    Unpack32(r[6..])
  }

  /** Each of `sent` is a ReadMemoryByAddress request for a window inside
      `[lo, hi)` of at most `maxLen` bytes. */
  predicate ReadsWithin(sent: seq<Request>, lo: nat, hi: nat, maxLen: nat)
  {
    forall i | 0 <= i < |sent| ::
      |sent[i]| == 10 && sent[i][..2] == [0x23, 0x44] && LengthField(sent[i]) <= maxLen
      && lo <= AddressField(sent[i]) && AddressField(sent[i]) + LengthField(sent[i]) <= hi
  }

  /** Every request the loop sends from `c` is a ReadMemoryByAddress request
      for a window inside `[c.addr, c.addr + c.size)`, never longer than
      the current step. */
  lemma {:induction false} ReadLoopRequests(ecu: Ecu, h: seq<Request>, c: Cursor)
    requires Bounded(c)
    ensures ReadsWithin(ReadLoop(ecu, h, c).sent, c.addr, c.addr + c.size, c.step)
    decreases c.size + c.step
  {
    if c.step > 0 && Body(ecu, h, c).Sent? && !Body(ecu, h, c).stop {
      var p := Body(ecu, h, c);
      ReadLoopUnfold(ecu, h, c, p.req, p.next);
      ReadLoopRequests(ecu, h + [p.req], p.next);
      RequestsStep(c, p.next, ReadLoop(ecu, h, c), ReadLoop(ecu, h + [p.req], p.next), p.req);
    }
  }

  lemma RequestsStep(c: Cursor, next: Cursor, e: Exchange<seq<Byte>>, e': Exchange<seq<Byte>>, req: Request)
    requires c.addr < 0x1_0000_0000 && c.step <= ReadMemoryMaxSize
    requires req == ReadRequest(c.addr, Min(c.step, c.size)) && e == Then([req], e')
    requires c.addr <= next.addr && next.addr + next.size == c.addr + c.size && next.step <= c.step
    requires ReadsWithin(e'.sent, next.addr, next.addr + next.size, next.step)
    ensures ReadsWithin(e.sent, c.addr, c.addr + c.size, c.step)
  {
    ReadRequestFields(c.addr, Min(c.step, c.size));
    assert ReadsWithin([req], c.addr, c.addr + c.size, c.step);
    ReadsWithinAppend([req], e'.sent, c.addr, c.addr + c.size, c.step);
  }

  lemma ReadsWithinAppend(a: seq<Request>, b: seq<Request>, lo: nat, hi: nat, maxLen: nat)
    requires ReadsWithin(a, lo, hi, maxLen) && ReadsWithin(b, lo, hi, maxLen)
    ensures ReadsWithin(a + b, lo, hi, maxLen)
  {
    assert forall i | |a| <= i < |a + b| :: (a + b)[i] == b[i - |a|];
  }

  /** The requested length never grows from one request to the next. */
  predicate LengthsShrink(sent: seq<Request>)
  {
    && (forall i | 0 <= i < |sent| :: |sent[i]| == 10)
    && (forall i | 0 < i < |sent| :: LengthField(sent[i]) <= LengthField(sent[i - 1]))
  }

  /** The step of `readmem` never grows: each request asks for at most as
      many bytes as the one before it. */
  lemma {:induction false} ReadLoopLengthsShrink(ecu: Ecu, h: seq<Request>, c: Cursor)
    requires Bounded(c)
    ensures LengthsShrink(ReadLoop(ecu, h, c).sent)
    decreases c.size + c.step
  {
    if c.step > 0 && Body(ecu, h, c).Sent? && !Body(ecu, h, c).stop {
      var p := Body(ecu, h, c);
      ReadLoopUnfold(ecu, h, c, p.req, p.next);
      ReadLoopLengthsShrink(ecu, h + [p.req], p.next);
      ReadLoopRequests(ecu, h + [p.req], p.next);
      ReadRequestFields(c.addr, Min(c.step, c.size));
      ShrinkCons(p.req, ReadLoop(ecu, h + [p.req], p.next).sent, p.next.addr, p.next.addr + p.next.size, p.next.step);
    }
  }

  lemma ShrinkCons(req: Request, rest: seq<Request>, lo: nat, hi: nat, maxLen: nat)
    requires |req| == 10 && maxLen <= LengthField(req)
    requires LengthsShrink(rest) && ReadsWithin(rest, lo, hi, maxLen)
    ensures LengthsShrink([req] + rest)
  {
    var sent := [req] + rest;
    forall i | 1 < i < |sent|
      ensures LengthField(sent[i]) <= LengthField(sent[i - 1])
    {
      assert sent[i] == rest[i - 1] && sent[i - 1] == rest[i - 2];
    }
  }

  /** One pass of the loop that neither fails nor stops, then the loop
      from where it leaves off. */
  lemma ReadLoopUnfold(ecu: Ecu, h: seq<Request>, c: Cursor, req: Request, next: Cursor)
    requires Bounded(c) && c.step > 0 && Body(ecu, h, c) == Sent(req, false, next)
    ensures Bounded(next)
    ensures ReadLoop(ecu, h, c) == Then([req], ReadLoop(ecu, h + [req], next))
  {
  }

  /** The replies the ECU gives to `sent`, sent one after the other after `h`. */
  function Replies(ecu: Ecu, h: seq<Request>, sent: seq<Request>): (rs: seq<Reply>)
    ensures |rs| == |sent|
    decreases |sent|
  {
    if sent == [] then [] else [ecu(h + [sent[0]])] + Replies(ecu, h + [sent[0]], sent[1..])
  }

  /** The accepted replies among `rs`, concatenated. */
  function KeptBytes(rs: seq<Reply>): seq<Byte>
  {
    if rs == [] then [] else (if Accepted(rs[0]) then rs[0] else []) + KeptBytes(rs[1..])
  }

  lemma RepliesCons(ecu: Ecu, h: seq<Request>, req: Request, rest: seq<Request>)
    ensures Replies(ecu, h, [req] + rest) == [ecu(h + [req])] + Replies(ecu, h + [req], rest)
  {
    assert ([req] + rest)[0] == req && ([req] + rest)[1..] == rest;
  }

  /** No reply to `e.sent` but the last is conditionsNotCorrect, and if `e`
      succeeded its bytes are `dump` followed by the accepted replies. */
  predicate RepliesFit(ecu: Ecu, h: seq<Request>, e: Exchange<seq<Byte>>, dump: seq<Byte>)
  {
    var rs := Replies(ecu, h, e.sent);
    && (forall i | 0 <= i < |rs| - 1 :: rs[i] != ConditionsNotCorrect)
    && (e.result.Ok? ==> e.result.value == dump + KeptBytes(rs))
  }

  /** The loop sends nothing after a conditionsNotCorrect reply, and what it
      returns is the bytes it started with followed by every accepted reply,
      headers included, in the order they came. */
  lemma {:induction false} ReadLoopReplies(ecu: Ecu, h: seq<Request>, c: Cursor)
    requires Bounded(c)
    ensures RepliesFit(ecu, h, ReadLoop(ecu, h, c), c.dump)
    decreases c.size + c.step
  {
    if c.step > 0 && Body(ecu, h, c).Sent? {
      var p := Body(ecu, h, c);
      BodyReplies(ecu, h, c);
      if p.stop {
        RepliesFitStop(ecu, h, p.req, c.dump);
      } else {
        ReadLoopUnfold(ecu, h, c, p.req, p.next);
        ReadLoopReplies(ecu, h + [p.req], p.next);
        RepliesFitCons(ecu, h, p.req, ReadLoop(ecu, h, c), ReadLoop(ecu, h + [p.req], p.next), c.dump, p.next.dump);
      }
    }
  }

  /** How one pass of the loop body reacts to the reply it gets, with `s`
      the step clamped to what is left: conditionsNotCorrect stops the loop;
      any other accepted reply is appended whole and the cursor moves on by
      `s`; a missing reply or requestOutOfRange halves `s` and leaves the
      address, the size and the dump alone. */
  lemma BodyReplies(ecu: Ecu, h: seq<Request>, c: Cursor)
    requires Bounded(c) && c.step > 0 && Body(ecu, h, c).Sent?
    ensures var p := Body(ecu, h, c);
            var r := ecu(h + [p.req]);
            var s := Min(c.step, c.size);
            && (p.stop <==> r == ConditionsNotCorrect)
            && (p.stop ==> p.next == c)
            && (!p.stop && Accepted(r) ==> p.next == Cursor(c.addr + s, c.size - s, s, c.dump + r))
            && (!p.stop && !Accepted(r) ==> p.next == Cursor(c.addr, c.size, s / 2, c.dump))
  {
  }

  /** An ECU that answers every request with nothing or with requestOutOfRange. */
  ghost predicate RefusesReads(ecu: Ecu)
  {
    forall hist: seq<Request>, req: Request :: ecu(hist + [req]) == [] || ecu(hist + [req]) == RequestOutOfRange
  }

  /** The number of halvings that take `n` to zero. */
  function BitLength(n: nat): (k: nat)
    ensures n > 0 ==> k > 0 && Pow2(k - 1) <= n
  {
    if n == 0 then 0 else 1 + BitLength(n / 2)
  }

  /** `k` read requests for address `a`, of lengths `s`, `s / 2`, `s / 4`, and so on. */
  function Halvings(a: U32, s: nat, k: nat): (rs: seq<Request>)
    requires s <= ReadMemoryMaxSize
    ensures |rs| == k && forall i | 0 <= i < k :: |rs[i]| == 10
    ensures forall i | 0 <= i < k :: AddressField(rs[i]) == a
    ensures k > 0 ==> LengthField(rs[0]) == s
    ensures forall i | 0 < i < k :: LengthField(rs[i]) == LengthField(rs[i - 1]) / 2
  {
    if k == 0 then []
    else
      ReadRequestFields(a, s);
      [ReadRequest(a, s)] + Halvings(a, s / 2, k - 1)
  }

  /** Against an ECU that refuses every read, the loop keeps asking for the
      same address with the length halved each time, from the first chunk
      `s` down to zero, and returns the bytes it started with. */
  lemma {:induction false} ReadLoopRefused(ecu: Ecu, h: seq<Request>, c: Cursor)
    requires RefusesReads(ecu) && Bounded(c) && c.addr < 0x1_0000_0000
    ensures ReadLoop(ecu, h, c).result == Ok(c.dump)
    ensures ReadLoop(ecu, h, c).sent ==
              if c.step == 0 then [] else Halvings(c.addr, Min(c.step, c.size), 1 + BitLength(Min(c.step, c.size) / 2))
    decreases c.step
  {
    if c.step > 0 {
      var s := Min(c.step, c.size);
      var req := ReadRequest(c.addr, s);
      var r := ecu(h + [req]);
      assert r == [] || r == RequestOutOfRange;
      var next := Cursor(c.addr, c.size, s / 2, c.dump);
      assert Body(ecu, h, c) == Sent(req, false, next);
      ReadLoopUnfold(ecu, h, c, req, next);
      ReadLoopRefused(ecu, h + [req], next);
      assert Min(next.step, next.size) == s / 2;
    }
  }

  lemma RepliesFitStop(ecu: Ecu, h: seq<Request>, req: Request, dump: seq<Byte>)
    requires ecu(h + [req]) == ConditionsNotCorrect
    ensures RepliesFit(ecu, h, Exchange(Ok(dump), [req]), dump)
  {
    RepliesCons(ecu, h, req, []);
    assert [req] + [] == [req];
    assert KeptBytes([ConditionsNotCorrect]) == [];
  }

  lemma RepliesFitCons(ecu: Ecu, h: seq<Request>, req: Request, e: Exchange<seq<Byte>>, e': Exchange<seq<Byte>>,
                       dump: seq<Byte>, dump': seq<Byte>)
    requires e == Then([req], e')
    requires ecu(h + [req]) != ConditionsNotCorrect
    requires dump' == dump + if Accepted(ecu(h + [req])) then ecu(h + [req]) else []
    requires RepliesFit(ecu, h + [req], e', dump')
    ensures RepliesFit(ecu, h, e, dump)
  {
    var r := ecu(h + [req]);
    var rs' := Replies(ecu, h + [req], e'.sent);
    RepliesCons(ecu, h, req, e'.sent);
    var rs := [r] + rs';
    assert Replies(ecu, h, e.sent) == rs;
    assert forall i | 0 < i < |rs| :: rs[i] == rs'[i - 1];
    assert rs[1..] == rs';
    assert KeptBytes(rs) == (if Accepted(r) then r else []) + KeptBytes(rs');
  }

  /** Once the size left is 0 the loop sends one request of length 0 and
      stops whatever the reply, keeping the reply if it is accepted. */
  lemma ReadLoopAtEnd(ecu: Ecu, h: seq<Request>, addr: U32, step: nat, dump: seq<Byte>)
    requires 0 < step <= ReadMemoryMaxSize
    ensures var r := ecu(h + [ReadRequest(addr, 0)]);
            ReadLoop(ecu, h, Cursor(addr, 0, step, dump))
            == Exchange(Ok(dump + if Accepted(r) then r else []), [ReadRequest(addr, 0)])
  {
    var req := ReadRequest(addr, 0);
    var r := ecu(h + [req]);
    if r != ConditionsNotCorrect {
      var next := Body(ecu, h, Cursor(addr, 0, step, dump)).next;
      assert next.step == 0;
      if Accepted(r) {
        assert next.dump == dump + r;
      } else {
        assert next.dump == dump + [];
      }
    }
  }

  /** `ecu` answers every ReadMemoryByAddress request for a window inside
      `mem` (taken to start at address 0) with 0x63 and the bytes of the
      window, whatever was sent before; other requests are unconstrained. */
  ghost predicate ServesMemory(ecu: Ecu, mem: seq<Byte>)
  {
    forall hist: seq<Request>, a: U32, n: U32 | a + n <= |mem| ::
      ecu(hist + [ReadRequest(a, n)]) == [0x63] + mem[a..a + n]
  }

  /** One such ECU: it answers a read past the end of `mem` with
      requestOutOfRange and anything else with serviceNotSupported. */
  function MemoryReply(mem: seq<Byte>, req: Request): Reply
  {
    if |req| == 10 && req[..2] == [0x23, 0x44] then
      var a, n := AddressField(req), LengthField(req);
      if a + n <= |mem| then [0x63] + mem[a..a + n] else RequestOutOfRange
    else if |req| > 0 then [0x7f, req[0], 0x11]
    else [0x7f, 0x00, 0x11]
  }

  function MemoryEcu(mem: seq<Byte>): (ecu: Ecu)
    ensures ServesMemory(ecu, mem)
  {
    var ecu := (hist: seq<Request>) => if |hist| == 0 then [] else MemoryReply(mem, hist[|hist| - 1]);
    assert forall hist: seq<Request>, a: U32, n: U32 | a + n <= |mem| ::
      ecu(hist + [ReadRequest(a, n)]) == [0x63] + mem[a..a + n] by {
      forall hist: seq<Request>, a: U32, n: U32 | a + n <= |mem|
        ensures ecu(hist + [ReadRequest(a, n)]) == [0x63] + mem[a..a + n]
      {
        var req := ReadRequest(a, n);
        assert (hist + [req])[|hist + [req]| - 1] == req;
        MemoryReplyRead(mem, a, n);
      }
    }
    ecu
  }

  /** The reply to a read inside `mem` is 0x63 and the window's bytes. */
  lemma MemoryReplyRead(mem: seq<Byte>, a: U32, n: U32)
    requires a + n <= |mem|
    ensures MemoryReply(mem, ReadRequest(a, n)) == [0x63] + mem[a..a + n]
  {
    ReadRequestFields(a, n);
  }

  lemma ServedReplyAccepted(mem: seq<Byte>, a: nat, n: nat)
    requires a + n <= |mem|
    ensures Accepted([0x63] + mem[a..a + n])
  {
    assert ([0x63] + mem[a..a + n])[0] == 0x63;
    assert ConditionsNotCorrect[0] == 0x7f && RequestOutOfRange[0] == 0x7f;
  }

  /** `d` cut into chunks of `n` bytes, the last possibly shorter, each
      preceded by the positive-response byte 0x63. */
  function Framed(d: seq<Byte>, n: nat): (r: seq<Byte>)
    requires n > 0
    ensures |d| == 0 ==> r == []
    decreases |d|
  {
    if |d| == 0 then []
    else [0x63] + d[..Min(n, |d|)] + Framed(d[Min(n, |d|)..], n)
  }

  lemma BodyOnMemory(ecu: Ecu, mem: seq<Byte>, h: seq<Request>, c: Cursor)
    requires ServesMemory(ecu, mem)
    requires Bounded(c) && c.step > 0
    requires c.addr + c.size <= |mem| && c.addr + c.size < 0x1_0000_0000
    ensures var s := Min(c.step, c.size);
            Body(ecu, h, c)
            == Sent(ReadRequest(c.addr, s), false,
                    Cursor(c.addr + s, c.size - s, s, c.dump + ([0x63] + mem[c.addr..c.addr + s])))
  {
    var s := Min(c.step, c.size);
    assert ecu(h + [ReadRequest(c.addr, s)]) == [0x63] + mem[c.addr..c.addr + s];
    ServedReplyAccepted(mem, c.addr, s);
  }

  /** The bytes of one chunk of `s` bytes after `dump`, then the rest of
      the window framed with `s`, are `dump` and the whole window framed
      with `step`. */
  lemma FramedStep(mem: seq<Byte>, dump: seq<Byte>, addr: nat, size: nat, step: nat,
                   dump': seq<Byte>, addr': nat, size': nat, s: nat)
    requires 0 < step && 0 < size && addr + size <= |mem| && s == Min(step, size)
    requires dump' == dump + ([0x63] + mem[addr..addr + s]) && addr' == addr + s && size' == size - s
    ensures dump' + Framed(mem[addr'..addr' + size'], s) + [0x63]
            == dump + Framed(mem[addr..addr + size], step) + [0x63]
  {
    var d := mem[addr..addr + size];
    assert d[..s] == mem[addr..addr + s];
    assert d[s..] == mem[addr'..addr' + size'];
    if s < step {
      assert |d[s..]| == 0;
    }
    var rest := Framed(d[s..], s);
    assert Framed(d, step) == [0x63] + d[..s] + rest;
    Regroup(dump, [0x63] + d[..s], rest, [0x63]);
  }

  lemma Regroup<T>(a: seq<T>, b: seq<T>, c: seq<T>, d: seq<T>)
    ensures a + b + c + d == a + (b + c) + d
  {
  }

  lemma ChunkCount(size: nat, step: nat)
    requires step > 0
    ensures size == 0 ==> CeilDiv(size, step) == 0
    ensures size > 0 ==> CeilDiv(size, step) == 1 + CeilDiv(size - Min(step, size), Min(step, size))
  {
    CeilDivStep(size, step);
    if 0 < size < step {
      CeilDivStep(0, size);
    }
  }

  lemma ReadLoopOnMemoryAtEnd(ecu: Ecu, mem: seq<Byte>, h: seq<Request>, c: Cursor)
    requires ServesMemory(ecu, mem)
    requires Bounded(c) && c.step > 0 && c.size == 0
    requires c.addr <= |mem| && c.addr < 0x1_0000_0000
    ensures var e := ReadLoop(ecu, h, c);
            && e.result == Ok(c.dump + Framed(mem[c.addr..c.addr + c.size], c.step) + [0x63])
            && |e.sent| == CeilDiv(c.size, c.step) + 1
  {
    ReadLoopAtEnd(ecu, h, c.addr, c.step, c.dump);
    assert c == Cursor(c.addr, 0, c.step, c.dump);
    assert ecu(h + [ReadRequest(c.addr, 0)]) == [0x63] + mem[c.addr..c.addr];
    ServedReplyAccepted(mem, c.addr, 0);
    assert [0x63] + mem[c.addr..c.addr] == [0x63];
    CeilDivStep(0, c.step);
    assert ReadLoop(ecu, h, c).result == Ok(c.dump + [0x63]);
    assert Framed(mem[c.addr..c.addr + c.size], c.step) == [];
    assert c.dump + [0x63] == c.dump + [] + [0x63];
  }

  /** The result and the count, one chunk further on, give the result and
      the count from `c`. */
  lemma OnMemoryStep(mem: seq<Byte>, c: Cursor, next: Cursor, e: Exchange<seq<Byte>>, e': Exchange<seq<Byte>>, req: Request)
    requires c.step > 0 && c.size > 0 && c.addr + c.size <= |mem|
    requires next == Cursor(c.addr + Min(c.step, c.size), c.size - Min(c.step, c.size), Min(c.step, c.size),
                            c.dump + ([0x63] + mem[c.addr..c.addr + Min(c.step, c.size)]))
    requires e == Then([req], e')
    requires e'.result == Ok(next.dump + Framed(mem[next.addr..next.addr + next.size], next.step) + [0x63])
    requires |e'.sent| == CeilDiv(next.size, next.step) + 1
    ensures e.result == Ok(c.dump + Framed(mem[c.addr..c.addr + c.size], c.step) + [0x63])
    ensures |e.sent| == CeilDiv(c.size, c.step) + 1
  {
    FramedStep(mem, c.dump, c.addr, c.size, c.step, next.dump, next.addr, next.size, next.step);
    ChunkCount(c.size, c.step);
  }

  /** Against an ECU that serves `mem` the reader returns the window, in
      chunks of the step, each with its response byte, then the 0x63 of the
      final zero-length read; it sends one request per chunk and that final
      one. */
  lemma {:induction false} ReadLoopOnMemory(ecu: Ecu, mem: seq<Byte>, h: seq<Request>, c: Cursor)
    requires ServesMemory(ecu, mem)
    requires Bounded(c) && c.step > 0
    requires c.addr + c.size <= |mem| && c.addr + c.size < 0x1_0000_0000
    ensures var e := ReadLoop(ecu, h, c);
            && e.result == Ok(c.dump + Framed(mem[c.addr..c.addr + c.size], c.step) + [0x63])
            && |e.sent| == CeilDiv(c.size, c.step) + 1
    decreases c.size
  {
    if c.size == 0 {
      ReadLoopOnMemoryAtEnd(ecu, mem, h, c);
    } else {
      var s := Min(c.step, c.size);
      var req := ReadRequest(c.addr, s);
      var next := Cursor(c.addr + s, c.size - s, s, c.dump + ([0x63] + mem[c.addr..c.addr + s]));
      BodyOnMemory(ecu, mem, h, c);
      ReadLoopUnfold(ecu, h, c, req, next);
      ReadLoopOnMemory(ecu, mem, h + [req], next);
      OnMemoryStep(mem, c, next, ReadLoop(ecu, h, c), ReadLoop(ecu, h + [req], next), req);
    }
  }

  // SecurityAccess and RoutineControl.

  /** `getseed(s, level)`: requests the seed of `level`; the reply must be
      positive, and the all-zero seed `00 00`, which the ECU sends when the
      level is already unlocked, gives `None`. */
  function GetSeed(ecu: Ecu, h: seq<Request>, level: nat): (e: Exchange<Option<seq<Byte>>>)
    ensures e.result == Err(ValueError) <==> level > 255
    ensures e.sent == if level > 255 then [] else [[0x27, level]]
    ensures e.result.Ok? ==> var reply := ecu(h + e.sent); reply != [] && reply[0] != 0x7f
    ensures e.result.Ok? && e.result.value.Some? ==> e.result.value.value != [0, 0]
  {
    if level > 255 then Exchange(Err(ValueError), [])
    else
      var req := [0x27, level];
      var reply := ecu(h + [req]);
      match AssertNotNrc(reply)
      case Err(e) => Exchange(Err(e), [req])
      case Ok(_) =>
        match GetData(DataOffs, reply)
        case Err(e) => Exchange(Err(e), [req])
        case Ok(data) => Exchange(Ok(if data != [0, 0] then Some(data) else None), [req])
  }

  /** What `getseed` makes of each kind of reply to its one request: a
      positive SecurityAccess response gives its payload, or `None` for the
      payload `00 00`; a negative response or a timeout fails the assertion;
      any other positive response byte outside the table is a `KeyError`. */
  lemma GetSeedReplies(ecu: Ecu, h: seq<Request>, level: Byte, payload: seq<Byte>)
    ensures GetSeed(ecu, h, level).sent == [[0x27, level]]
    ensures var reply := ecu(h + [[0x27, level]]);
            && (reply == [0x67, level] + payload ==>
                  GetSeed(ecu, h, level).result == Ok(if payload == [0, 0] then None else Some(payload)))
            && (reply == [] || reply[0] == 0x7f ==> GetSeed(ecu, h, level).result == Err(AssertionError))
            && (reply != [] && reply[0] != 0x7f && reply[0] !in DataOffs ==>
                  GetSeed(ecu, h, level).result == Err(KeyError))
  {
    var reply := ecu(h + [[0x27, level]]);
    if reply == [0x67, level] + payload {
      assert reply[0] == 0x67 && reply[2..] == payload;
    }
  }

  /** `getseed` sends its one request, and a seed it returns is the payload
      of the reply to it. */
  lemma GetSeedData(ecu: Ecu, h: seq<Request>, level: Byte)
    ensures GetSeed(ecu, h, level).sent == [[0x27, level]]
    ensures var r := GetSeed(ecu, h, level).result;
            r.Ok? && r.value.Some? ==> GetData(DataOffs, ecu(h + [[0x27, level]])) == Ok(r.value.value)
  {
  }

  /** `sendkey` sends its one request. */
  lemma SendKeySent(ecu: Ecu, h: seq<Request>, level: Byte, key: seq<Byte>)
    requires level < 255
    ensures SendKey(ecu, h, level, key).sent == [[0x27, level + 1] + key]
  {
  }

  /** A level that does not fit in a byte raises before anything is sent. */
  lemma GetSeedLevelRange(ecu: Ecu, h: seq<Request>, level: nat)
    requires level > 255
    ensures GetSeed(ecu, h, level) == Exchange(Err(ValueError), [])
  {
  }

  /** `sendkey(s, level, key)`: sends `key` for `level` with subfunction
      `level + 1`; gives the payload of the reply when it is non-empty and
      does not start with 0x7f, `None` otherwise. */
  function SendKey(ecu: Ecu, h: seq<Request>, level: nat, key: seq<Byte>): (e: Exchange<Option<seq<Byte>>>)
    ensures e.result == Err(ValueError) <==> level >= 255
    ensures |e.sent| == if level >= 255 then 0 else 1
    ensures e.sent != [] ==> e.sent[0] == [0x27, level + 1] + key
    ensures e.result.Ok? && e.result.value.Some? ==> e.result.value.value != [] && e.result.value.value[0] != 0x7f
  {
    if level + 1 > 255 then Exchange(Err(ValueError), [])
    else
      var req := [0x27, level + 1] + key;
      var reply := ecu(h + [req]);
      match GetData(DataOffs, reply)
      case Err(e) => Exchange(Err(e), [req])
      case Ok(data) => Exchange(Ok(if |data| > 0 && data[0] != 0x7f then Some(data) else None), [req])
  }

  /** What `sendkey` makes of each kind of reply: the payload after a
      positive response header, `None` for a negative response (returned
      whole, so it starts with 0x7f) or a header with nothing after it, a
      `TypeError` on a timeout and a `KeyError` for a leading byte outside
      the table. */
  lemma SendKeyReplies(ecu: Ecu, h: seq<Request>, level: Byte, key: seq<Byte>, payload: seq<Byte>)
    requires level < 255
    ensures SendKey(ecu, h, level, key).sent == [[0x27, level + 1] + key]
    ensures var reply := ecu(h + [[0x27, level + 1] + key]);
            var r := SendKey(ecu, h, level, key).result;
            && (|reply| >= 2 && reply[0] == 0x67 ==>
                  r == Ok(if |reply| > 2 && reply[2] != 0x7f then Some(reply[2..]) else None))
            && (|reply| > 0 && reply[0] == 0x7f ==> r == Ok(None))
            && (reply == [] ==> r == Err(TypeError))
            && (|reply| > 0 && reply[0] !in DataOffs ==> r == Err(KeyError))
  {
    var reply := ecu(h + [[0x27, level + 1] + key]);
    if |reply| >= 2 && reply[0] == 0x67 {
      assert GetData(DataOffs, reply) == Ok(reply[2..]);
    }
    if |reply| > 0 && reply[0] == 0x7f {
      DataOffsKeys(reply);
    }
  }

  /** `rtctl(s, rid, action, no_return)`: RoutineControl `action` on routine
      `rid`; with `noReturn` a timeout ends it quietly with `None`,
      otherwise the reply must be positive and its payload is the result. */
  function RtCtl(ecu: Ecu, h: seq<Request>, rid: nat, action: nat, noReturn: bool): (e: Exchange<Option<seq<Byte>>>)
    ensures e.result == Err(ValueError) <==> action > 255
    ensures e.result == Err(StructError) <==> action <= 255 && rid >= 0x1_0000
    ensures |e.sent| == if action > 255 || rid >= 0x1_0000 then 0 else 1
    ensures e.result == Ok(None) ==> noReturn && ecu(h + e.sent) == []
  {
    if action > 255 then Exchange(Err(ValueError), [])
    else if rid >= 0x1_0000 then Exchange(Err(StructError), [])
    else
      var req := [0x31, action] + Pack16(rid);
      var reply := ecu(h + [req]);
      if noReturn && reply == [] then Exchange(Ok(None), [req])
      else match AssertNotNrc(reply)
        case Err(e) => Exchange(Err(e), [req])
        case Ok(_) =>
          match GetData(DataOffs, reply)
          case Err(e) => Exchange(Err(e), [req])
          case Ok(data) => Exchange(Ok(Some(data)), [req])
  }

  /** `rtctl` sends the one request `31 action rid_hi rid_lo`; it succeeds
      exactly when the reply is a positive response in the table (or, with
      `noReturn`, when there is none), and then gives the payload after the
      4-byte RoutineControl header. */
  lemma RtCtlReplies(ecu: Ecu, h: seq<Request>, rid: U16, action: Byte, noReturn: bool)
    ensures var req := [0x31, action, rid / 0x100, rid % 0x100];
            var reply := ecu(h + [req]);
            var e := RtCtl(ecu, h, rid, action, noReturn);
            && e.sent == [req]
            && (e.result.Ok? <==> (noReturn && reply == []) || (reply != [] && reply[0] != 0x7f && reply[0] in DataOffs))
            && (noReturn && reply == [] ==> e.result == Ok(None))
            && (reply == [] && !noReturn ==> e.result == Err(AssertionError))
            && (|reply| >= 4 && reply[0] == 0x71 ==> e.result == Ok(Some(reply[4..])))
  {
    var req := [0x31, action, rid / 0x100, rid % 0x100];
    assert [0x31, action] + Pack16(rid) == req;
    var reply := ecu(h + [req]);
    if |reply| >= 4 && reply[0] == 0x71 {
      assert GetData(DataOffs, reply) == Ok(reply[4..]);
    }
  }
}
