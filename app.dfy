/** The VIN web service: a signed query string is parsed into a dictionary
    of byte strings, and the VIN it names is looked up. The signature is
    compared before anything is parsed. */
module HolyHell {
  import opened Bits
  import opened Wire

  const Amp: Byte := 0x26    // b'&'
  const Equals: Byte := 0x3d // b'='

  /** `b'vin'`. */
  const Vin: seq<Byte> := [0x76, 0x69, 0x6e]

  // bytes.split with a one-byte separator.

  /** `s.split(bytes([c]))`: the pieces between the separators, one more
      than there are separators, so the empty string gives one empty piece. */
  function Split(s: seq<Byte>, c: Byte): (r: seq<seq<Byte>>)
    ensures |r| >= 1
    decreases |s|
  {
    if s == [] then [[]]
    else
      var rest := Split(s[1..], c);
      if s[0] == c then [[]] + rest else [[s[0]] + rest[0]] + rest[1..]
  }

  /** `bytes([c]).join(parts)`. */
  function Join(parts: seq<seq<Byte>>, c: Byte): seq<Byte>
    requires |parts| >= 1
    decreases |parts|
  {
    if |parts| == 1 then parts[0] else parts[0] + [c] + Join(parts[1..], c)
  }

  /** Splitting gives one piece more than there are separators, no piece
      holds a separator, and joining the pieces gives back the string. */
  lemma {:induction false} SplitJoin(s: seq<Byte>, c: Byte)
    ensures |Split(s, c)| == Count(s, c) + 1
    ensures forall i :: 0 <= i < |Split(s, c)| ==> c !in Split(s, c)[i]
    ensures Join(Split(s, c), c) == s
    decreases |s|
  {
    if s != [] {
      SplitJoin(s[1..], c);
      var rest := Split(s[1..], c);
      if s[0] == c {
        assert ([[]] + rest)[1..] == rest;
        assert s == [c] + s[1..];
      } else {
        var r := Split(s, c);
        assert r[1..] == rest[1..];
        if |rest| == 1 {
          assert s == [s[0]] + rest[0];
        } else {
          JoinCons(s[0], rest, c);
          assert s == [s[0]] + s[1..];
        }
      }
    }
  }

  lemma JoinCons(b: Byte, rest: seq<seq<Byte>>, c: Byte)
    requires |rest| >= 2
    ensures Join([[b] + rest[0]] + rest[1..], c) == [b] + Join(rest, c)
  {
    var parts := [[b] + rest[0]] + rest[1..];
    assert parts[1..] == rest[1..];
  }

  /** A string without the separator is a single piece. */
  lemma {:induction false} SplitNone(s: seq<Byte>, c: Byte)
    requires c !in s
    ensures Split(s, c) == [s]
    decreases |s|
  {
    if s != [] {
      SplitNone(s[1..], c);
      assert s == [s[0]] + s[1..];
    }
  }

  /** A separator after a piece without one splits that piece off. */
  lemma {:induction false} SplitAt(x: seq<Byte>, y: seq<Byte>, c: Byte)
    requires c !in x
    ensures Split(x + [c] + y, c) == [x] + Split(y, c)
    decreases |x|
  {
    if x == [] {
      assert x + [c] + y == [c] + y;
      assert ([c] + y)[1..] == y;
    } else {
      var s := x + [c] + y;
      assert s[1..] == x[1..] + [c] + y;
      SplitAt(x[1..], y, c);
      assert [x[0]] + x[1..] == x;
    }
  }

  // to_dct.

  /** `k, v = line.split(b'=')` unpacks without a ValueError. */
  predicate WellFormed(line: seq<Byte>)
  {
    |Split(line, Equals)| == 2
  }

  /** The key and value of a well-formed segment. */
  function Key(line: seq<Byte>): seq<Byte>
  {
    Split(line, Equals)[0]
  }

  function Value(line: seq<Byte>): seq<Byte>
  {
    var parts := Split(line, Equals);
    if |parts| >= 2 then parts[1] else []
  }

  /** The loop over the segments from a dictionary `d` on: a segment that
      does not split into exactly two ends it (the ValueError is caught and
      the dictionary so far returned), and a well-formed one sets its key. */
  function Fill(d: map<seq<Byte>, seq<Byte>>, lines: seq<seq<Byte>>): (r: map<seq<Byte>, seq<Byte>>)
    ensures d.Keys <= r.Keys
    ensures |r| <= |d| + |lines|
    ensures lines == [] || !WellFormed(lines[0]) ==> r == d
    decreases |lines|
  {
    if lines == [] || !WellFormed(lines[0]) then d
    else Fill(d[Key(lines[0]) := Value(lines[0])], lines[1..])
  }

  /** `to_dct(data)`. */
  function ToDct(data: seq<Byte>): (r: map<seq<Byte>, seq<Byte>>)
    ensures |r| <= Count(data, Amp) + 1
    ensures Equals !in data ==> r == map[]
  {
    SplitJoin(data, Amp);
    NoEqualsNoPairs(data);
    Fill(map[], Split(data, Amp))
  }

  /** Without an `=` the first segment does not split into two. */
  lemma NoEqualsNoPairs(data: seq<Byte>)
    ensures Equals !in data ==> !WellFormed(Split(data, Amp)[0])
  {
    if Equals !in data {
      SplitJoin(data, Amp);
      JoinFirst(Split(data, Amp), Amp);
      SplitNone(Split(data, Amp)[0], Equals);
    }
  }

  /** The first piece is where the joined string starts. */
  lemma JoinFirst(parts: seq<seq<Byte>>, c: Byte)
    requires |parts| >= 1
    ensures parts[0] <= Join(parts, c)
  {
  }

  /** `to_dct` as written: the dictionary filled one segment at a time. */
  method ToDict(data: seq<Byte>) returns (d: map<seq<Byte>, seq<Byte>>)
    ensures d == ToDct(data)
  {
    var lines := Split(data, Amp);
    d := map[];
    var i := 0;
    assert lines[0..] == lines;
    while i < |lines|
      invariant 0 <= i <= |lines|
      invariant ToDct(data) == Fill(d, lines[i..])
      decreases |lines| - i
    {
      var parts := Split(lines[i], Equals);
      assert lines[i..][0] == lines[i];
      if |parts| != 2 {
        return;
      }
      assert lines[i..][1..] == lines[i + 1..];
      d := d[parts[0] := parts[1]];
      i := i + 1;
    }
    assert lines[i..] == [];
  }

  /** The number of leading well-formed segments: where parsing stops. */
  function Stop(lines: seq<seq<Byte>>): (n: nat)
    ensures n <= |lines|
    ensures forall j :: 0 <= j < n ==> WellFormed(lines[j])
    ensures n < |lines| ==> !WellFormed(lines[n])
    decreases |lines|
  {
    if lines == [] || !WellFormed(lines[0]) then 0 else 1 + Stop(lines[1..])
  }

  /** A segment is well-formed exactly when it holds one `=`. */
  lemma WellFormedOneEquals(line: seq<Byte>)
    ensures WellFormed(line) <==> Count(line, Equals) == 1
  {
    SplitJoin(line, Equals);
  }

  /** The keys of the result are those of the segments before the first
      malformed one, added to what the dictionary held. */
  lemma {:induction false} FillKeys(d: map<seq<Byte>, seq<Byte>>, lines: seq<seq<Byte>>, k: seq<Byte>)
    ensures k in Fill(d, lines) <==> k in d || exists j :: 0 <= j < Stop(lines) && Key(lines[j]) == k
    decreases |lines|
  {
    if lines != [] && WellFormed(lines[0]) {
      var rest := lines[1..];
      FillKeys(d[Key(lines[0]) := Value(lines[0])], rest, k);
      if exists j :: 0 <= j < Stop(rest) && Key(rest[j]) == k {
        var j :| 0 <= j < Stop(rest) && Key(rest[j]) == k;
        assert Key(lines[j + 1]) == k;
      }
      if exists j :: 0 <= j < Stop(lines) && Key(lines[j]) == k {
        var j :| 0 <= j < Stop(lines) && Key(lines[j]) == k;
        if j > 0 {
          assert Key(rest[j - 1]) == k;
        }
      }
    }
  }

  /** A key no accepted segment sets keeps its value. */
  lemma {:induction false} FillKeeps(d: map<seq<Byte>, seq<Byte>>, lines: seq<seq<Byte>>, k: seq<Byte>)
    requires k in d
    requires forall j :: 0 <= j < Stop(lines) ==> Key(lines[j]) != k
    ensures k in Fill(d, lines) && Fill(d, lines)[k] == d[k]
    decreases |lines|
  {
    if lines != [] && WellFormed(lines[0]) {
      var rest := lines[1..];
      forall j | 0 <= j < Stop(rest)
        ensures Key(rest[j]) != k
      {
        assert rest[j] == lines[j + 1];
      }
      FillKeeps(d[Key(lines[0]) := Value(lines[0])], rest, k);
    }
  }

  /** The last accepted segment with a key decides its value: a later
      duplicate overwrites an earlier one. */
  lemma {:induction false} FillLastWins(d: map<seq<Byte>, seq<Byte>>, lines: seq<seq<Byte>>, j: nat)
    requires j < Stop(lines)
    requires forall i :: j < i < Stop(lines) ==> Key(lines[i]) != Key(lines[j])
    ensures Key(lines[j]) in Fill(d, lines)
    ensures Fill(d, lines)[Key(lines[j])] == Value(lines[j])
    decreases |lines|
  {
    var rest := lines[1..];
    var d1 := d[Key(lines[0]) := Value(lines[0])];
    if j == 0 {
      forall i | 0 <= i < Stop(rest)
        ensures Key(rest[i]) != Key(lines[0])
      {
        assert rest[i] == lines[i + 1];
      }
      FillKeeps(d1, rest, Key(lines[0]));
    } else {
      assert rest[j - 1] == lines[j];
      forall i | j - 1 < i < Stop(rest)
        ensures Key(rest[i]) != Key(rest[j - 1])
      {
        assert rest[i] == lines[i + 1];
      }
      FillLastWins(d1, rest, j - 1);
    }
  }

  /** `to_dct` in these terms: its keys and, for each, the last value. */
  lemma ToDctMeaning(data: seq<Byte>, j: nat, k: seq<Byte>)
    ensures var lines := Split(data, Amp);
            k in ToDct(data) <==> exists i :: 0 <= i < Stop(lines) && Key(lines[i]) == k
    ensures var lines := Split(data, Amp);
            j < Stop(lines) && (forall i :: j < i < Stop(lines) ==> Key(lines[i]) != Key(lines[j])) ==>
              Key(lines[j]) in ToDct(data) && ToDct(data)[Key(lines[j])] == Value(lines[j])
  {
    var lines := Split(data, Amp);
    FillKeys(map[], lines, k);
    if j < Stop(lines) && (forall i :: j < i < Stop(lines) ==> Key(lines[i]) != Key(lines[j])) {
      FillLastWins(map[], lines, j);
    }
  }

  /** `to_dct(b'') == {}` and `to_dct(b'=') == {b'': b''}`. */
  lemma ToDctExamples()
    ensures ToDct([]) == map[]
    ensures ToDct([Equals]) == map[[] := []]
  {
    assert Split([], Amp) == [[]];
    assert !WellFormed([]);
    SplitNone([Equals], Amp);
    assert Split([Equals], Equals) == [[], []] by {
      SplitAt([], [], Equals);
      assert [] + [Equals] + [] == [Equals];
    }
    assert Key([Equals]) == [] && Value([Equals]) == [];
    var lines: seq<seq<Byte>> := [[Equals]];
    assert lines[1..] == [];
    assert Fill(map[], lines) == Fill(map[[] := []], lines[1..]);
  }

  /** A query `vin=BEFORE PAD&vin=AFTER`, with no `&` or `=` in BEFORE,
      PAD or AFTER, parses to the one key `vin` with the later value AFTER. */
  lemma DuplicateVinWins(before: seq<Byte>, pad: seq<Byte>, after: seq<Byte>)
    requires Amp !in before + pad && Equals !in before + pad
    requires Amp !in after && Equals !in after
    ensures ToDct(Vin + [Equals] + before + pad + [Amp] + Vin + [Equals] + after) == map[Vin := after]
  {
    var first := Vin + [Equals] + (before + pad);
    var second := Vin + [Equals] + after;
    assert Vin + [Equals] + before + pad + [Amp] + Vin + [Equals] + after == first + [Amp] + second;
    assert Amp !in first;
    SplitAt(first, second, Amp);
    assert Amp !in second;
    SplitNone(second, Amp);
    var lines := [first, second];
    assert Split(first + [Amp] + second, Amp) == lines;
    VinSegment(before + pad);
    VinSegment(after);
    var last: seq<seq<Byte>> := [second];
    assert lines[1..] == last;
    assert Fill(map[], lines) == Fill(map[Vin := before + pad], last);
    assert last[1..] == [];
    assert Fill(map[Vin := before + pad], last) == map[Vin := before + pad][Vin := after];
    assert map[Vin := before + pad][Vin := after] == map[Vin := after];
  }

  /** `vin=x` with no `=` in x is the pair `vin`, x. */
  lemma VinSegment(x: seq<Byte>)
    requires Equals !in x
    ensures WellFormed(Vin + [Equals] + x) && Key(Vin + [Equals] + x) == Vin && Value(Vin + [Equals] + x) == x
  {
    SplitAt(Vin, x, Equals);
    SplitNone(x, Equals);
  }

  // The route.

  /** `lookup_vin(vin)`: the record rendered as `str` for a registered VIN,
      KeyError otherwise. */
  function LookupVin(vins: map<seq<Byte>, string>, vin: seq<Byte>): (r: Result<string>)
    ensures r.Ok? <==> vin in vins
    ensures r.Ok? ==> r.value == vins[vin]
    ensures r.Err? ==> r.error == KeyError
  {
    if vin in vins then Ok(vins[vin]) else Err(KeyError)
  }

  datatype Response =
    | InvalidSignature   // "Invalid signature..."
    | Info(record: string)

  /** `get_vin_info`: the cookie (absent is `None`) must equal the signature
      of the unquoted query; then `to_dct(query)[b'vin']` is looked up. The
      signature function stands for `calc_sig`. */
  function GetVinInfo(query: seq<Byte>, cookie: Option<string>, sig: seq<Byte> -> string,
                      vins: map<seq<Byte>, string>): (r: Result<Response>)
    ensures r == Ok(InvalidSignature) <==> cookie != Some(sig(query))
    ensures r.Err? ==> r.error == KeyError && cookie == Some(sig(query))
  {
    if cookie != Some(sig(query)) then Ok(InvalidSignature)
    else
      var d := ToDct(query);
      if Vin !in d then Err(KeyError) else
        match LookupVin(vins, d[Vin])
        case Err(e) => Err(e)
        case Ok(record) => Ok(Info(record))
  }

  /** A query is answered only when the cookie carries its signature; then
      the answer is the record of the `vin` value, and KeyError when there
      is no `vin` key or no such VIN. */
  lemma GetVinInfoGuard(query: seq<Byte>, cookie: Option<string>, sig: seq<Byte> -> string,
                        vins: map<seq<Byte>, string>)
    ensures var r := GetVinInfo(query, cookie, sig, vins);
            && (r == Ok(InvalidSignature) <==> cookie != Some(sig(query)))
            && (r.Err? ==> r.error == KeyError)
            && (forall t :: r == Ok(Info(t)) <==>
                  cookie == Some(sig(query)) && Vin in ToDct(query)
                  && ToDct(query)[Vin] in vins && vins[ToDct(query)[Vin]] == t)
  {
  }
}
