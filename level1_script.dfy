/** The level-1 brute-force script of the user-space diagnostics client:
    for each byte `x` in turn it asks for a seed and sends the seed
    exclusive-ored with `x` replicated into all four bytes, stopping at the
    first key the ECU accepts. */
module Level1Script {
  import opened Bits
  import opened Wire
  import opened UserSpaceCommon
  import opened UserSpaceUnlock

  // broadcast(x, n)

  /** The loop of `broadcast` from the state `(x, n, k)`: while `n > 1`,
      `x |= x << k`, `n >>= 1`, `k <<= 1`. */
  function BroadcastLoop(x: nat, n: nat, k: nat): nat
    decreases n
  {
    if n > 1 then BroadcastLoop(Or(x, x * Pow2(k)), n / 2, 2 * k) else x
  }

  /** `broadcast(x, n)` as written. */
  method Broadcast(x0: nat, n0: nat) returns (x: nat)
    ensures x == BroadcastLoop(x0, n0, 8)
  {
    x := x0;
    var n := n0;
    var k: nat := 8;
    while n > 1
      invariant BroadcastLoop(x, n, k) == BroadcastLoop(x0, n0, 8)
      decreases n
    {
      x := Or(x, x * Pow2(k));
      n := n / 2;
      k := 2 * k;
    }
  }

  /** `m` copies of the byte 1: `0x01`, `0x0101`, `0x010101`, ... */
  function Ones(m: nat): nat
  {
    if m == 0 then 0 else Ones(m - 1) + Pow2(8 * (m - 1))
  }

  /** `m` bytes of ones fill exactly `8 * m` bits. */
  lemma {:induction false} OnesFill(m: nat)
    ensures 255 * Ones(m) == Pow2(8 * m) - 1
  {
    if m > 0 {
      OnesFill(m - 1);
      Pow2Add(8 * (m - 1), 8);
      Pow2Values();
    }
  }

  /** Twice as many bytes of ones are the ones shifted up past themselves. */
  lemma {:induction false} OnesDouble(m: nat)
    ensures Ones(2 * m) == Ones(m) + Ones(m) * Pow2(8 * m)
  {
    if m > 0 {
      OnesShift(m, m);
    }
  }

  lemma {:induction false} OnesShift(m: nat, j: nat)
    ensures Ones(m + j) == Ones(m) + Ones(j) * Pow2(8 * m)
    decreases j
  {
    if j > 0 {
      var p, q := Pow2(8 * m), Pow2(8 * (j - 1));
      OnesShift(m, j - 1);
      assert Ones(m + j - 1) == Ones(m) + Ones(j - 1) * p;
      assert 8 * (m + j - 1) == 8 * m + 8 * (j - 1);
      Pow2Add(8 * m, 8 * (j - 1));
      assert Pow2(8 * (m + j - 1)) == p * q;
      assert Ones(m + j) == Ones(m) + Ones(j - 1) * p + p * q;
      assert Ones(j) == Ones(j - 1) + q;
      Distribute(Ones(j - 1), q, p);
    }
  }

  lemma Distribute(a: nat, b: nat, c: nat)
    ensures (a + b) * c == a * c + c * b
  {
  }

  /** One pass of the loop doubles the number of copies of `x`. */
  lemma BroadcastPass(x: Byte, m: nat)
    ensures Or(x * Ones(m), x * Ones(m) * Pow2(8 * m)) == x * Ones(2 * m)
  {
    var a, p := Ones(m), Pow2(8 * m);
    var y := x * a;
    OnesFill(m);
    MulMono(x, 255, a);
    assert y < p;
    OrDisjoint(y, y, 8 * m);
    BroadcastSum(x, m);
  }

  /** `m * 2` copies of `x` are `m` copies plus `m` copies shifted up. */
  lemma BroadcastSum(x: nat, m: nat)
    ensures x * Ones(2 * m) == x * Ones(m) + x * Ones(m) * Pow2(8 * m)
  {
    var a: int, p: int, b: int := Ones(m), Pow2(8 * m), Ones(2 * m);
    OnesDouble(m);
    assert b == a + a * p;
    MulAssoc(x, a, p);
    assert x * b == x * (a + a * p);
  }

  lemma MulMono(x: nat, y: nat, a: nat)
    requires x <= y
    ensures x * a <= y * a
  {
  }

  lemma MulShuffle(m: nat, n: nat)
    ensures 2 * m * n == m * (2 * n)
  {
  }

  lemma MulAssoc(x: nat, a: nat, p: nat)
    ensures x * (a + a * p) == x * a + x * a * p
  {
  }

  /** From `m` copies of the byte `x` with `k = 8 * m`, a count `n` that is a
      power of two ends with `m * n` copies. */
  lemma {:induction false} BroadcastCopies(x: Byte, m: nat, j: nat)
    ensures BroadcastLoop(x * Ones(m), Pow2(j), 8 * m) == x * Ones(m * Pow2(j))
    decreases j
  {
    if j > 0 {
      var y := x * Ones(m);
      BroadcastUnfold(y, j, 8 * m, 8 * (2 * m));
      BroadcastPass(x, m);
      BroadcastCopies(x, 2 * m, j - 1);
      MulShuffle(m, Pow2(j - 1));
    } else {
      assert m * Pow2(j) == m;
    }
  }

  /** One pass of the loop when the count is `2^j` with `j > 0`. */
  lemma BroadcastUnfold(y: nat, j: nat, k: nat, k2: nat)
    requires j > 0 && k2 == 2 * k
    ensures BroadcastLoop(y, Pow2(j), k) == BroadcastLoop(Or(y, y * Pow2(k)), Pow2(j - 1), k2)
  {
    assert Pow2(j) / 2 == Pow2(j - 1);
  }

  /** `broadcast(x, n)` for `n` a power of two puts `x` in each of `n` bytes. */
  lemma BroadcastPowerOfTwo(x: Byte, j: nat)
    ensures BroadcastLoop(x, Pow2(j), 8) == x * Ones(Pow2(j))
  {
    assert Ones(1) == 1 by { assert Pow2(0) == 1; }
    assert x * Ones(1) == x;
    BroadcastCopies(x, 1, j);
    assert 1 * Pow2(j) == Pow2(j);
  }

  /** `broadcast(x, 1) == x`, `broadcast(x, 2) == x * 0x0101` and
      `broadcast(x, 4) == x * 0x01010101`. */
  lemma BroadcastSmall(x: Byte)
    ensures BroadcastLoop(x, 1, 8) == x
    ensures BroadcastLoop(x, 2, 8) == x * 0x0101
    ensures BroadcastLoop(x, 4, 8) == x * 0x0101_0101
  {
    assert Pow2(1) == 2 && Pow2(2) == 4;
    BroadcastPowerOfTwo(x, 1);
    BroadcastPowerOfTwo(x, 2);
    OnesValues();
  }

  lemma OnesValues()
    ensures Ones(1) == 1 && Ones(2) == 0x0101 && Ones(4) == 0x0101_0101
  {
    Pow2Values();
    Pow2Add(8, 8);
    Pow2Add(16, 8);
    assert Pow2(0) == 1;
  }

  /** Without a power of two the doubling overshoots or falls short: three
      bytes get two copies. */
  lemma BroadcastThree(x: Byte)
    ensures BroadcastLoop(x, 3, 8) == x * 0x0101
  {
    BroadcastSmall(x);
  }

  /** `broadcast(x, 4)`: the byte `x` in all four bytes of a 32-bit word. */
  function Broadcast4(x: Byte): (r: U32)
    ensures r == BroadcastLoop(x, 4, 8) && Pack32(r) == [x, x, x, x]
  {
    BroadcastSmall(x);
    var w := Unpack32([x, x, x, x]);
    assert w == x * 0x0101_0101 by {
      assert w == ((x * 0x100 + x) * 0x100 + x) * 0x100 + x;
    }
    Pack32RoundTrip(w, [x, x, x, x]);
    w
  }

  // The brute force.

  /** The key tried for candidate `x`: `p32(u32(seed) ^ broadcast(x, 4))`. */
  function CandidateKey(seed: seq<Byte>, x: Byte): (key: seq<Byte>)
    requires |seed| == 4
    ensures |key| == 4
  {
    Pack32(XorWord(Unpack32(seed), Broadcast4(x)))
  }

  /** Each key byte is the seed byte exclusive-ored with the candidate, so
      the candidate can be read back from any byte of seed and key. */
  lemma CandidateKeyBytes(seed: seq<Byte>, x: Byte)
    requires |seed| == 4
    ensures Xor(Unpack32(CandidateKey(seed, x)), Unpack32(seed)) == x * 0x0101_0101
  {
    var w := XorWord(Unpack32(seed), Broadcast4(x));
    Pack32RoundTrip(w, seed);
    assert Xor(w, Broadcast4(x)) == Unpack32(seed);
    XorSelfInverse(Unpack32(seed), Broadcast4(x));
    XorCommutes(Unpack32(seed), Broadcast4(x));
    XorSelfInverse(Broadcast4(x), Unpack32(seed));
  }

  lemma {:induction false} XorCommutes(a: nat, b: nat)
    ensures Xor(a, b) == Xor(b, a)
    decreases a + b
  {
    XorUnfold(a, b);
    XorUnfold(b, a);
    if a > 0 && b > 0 {
      XorCommutes(a / 2, b / 2);
    }
  }

  /** One candidate: a fresh seed, exit when none is offered, otherwise the
      candidate key; `Some(outcome)` ends the search, `None` goes on. */
  function Attempt(ecu: Ecu, h: seq<Request>, x: Byte): (a: Exchange<Option<Outcome>>)
    ensures 1 <= |a.sent| <= 2 && a.sent[0] == [0x27, 1]
    ensures |a.sent| == 2 ==> |a.sent[1]| == 6 && a.sent[1][..2] == [0x27, 2]
    ensures a.result == Ok(None) ==> |a.sent| == 2
    ensures a.result.Ok? && a.result.value.Some? && a.result.value.value.Printed? ==> |a.sent| == 2
    ensures a.result != Ok(Some(Exhausted))
  {
    var g := GetSeed(ecu, h, 1);
    match g.result
    case Err(e) => Exchange(Err(e), g.sent)
    case Ok(seed) =>
      if NoSeed(seed) then Exchange(Ok(Some(AlreadyAuthenticated)), g.sent)
      else if |seed.value| != 4 then Exchange(Err(StructError), g.sent)
      else
        var k := SendKey(ecu, h + g.sent, 1, CandidateKey(seed.value, x));
        match k.result
        case Err(e) => Exchange(Err(e), g.sent + k.sent)
        case Ok(data) =>
          Exchange(Ok(if data.Some? then Some(Printed(data.value)) else None), g.sent + k.sent)
  }

  /** What one candidate comes to, from the replies: no seed means the ECU is
      already unlocked, after `27 01` alone; for a 4-byte seed the search
      goes on exactly when `sendkey` returned None, and prints exactly the
      data `sendkey` returned. */
  lemma AttemptOutcome(ecu: Ecu, h: seq<Request>, x: Byte)
    ensures var g := GetSeed(ecu, h, 1);
            var a := Attempt(ecu, h, x);
            && (g.result.Ok? && NoSeed(g.result.value) ==>
                  a == Exchange(Ok(Some(AlreadyAuthenticated)), [[0x27, 1]]))
            && (g.result.Ok? && g.result.value.Some? && |g.result.value.value| == 4 ==>
                  var k := SendKey(ecu, h + g.sent, 1, CandidateKey(g.result.value.value, x));
                  && (a.result == Ok(None) <==> k.result == Ok(None))
                  && (forall d :: a.result == Ok(Some(Printed(d))) <==> k.result == Ok(Some(d))))
  {
    GetSeedReplies(ecu, h, 1, []);
  }

  /** The candidates from `x` on, in increasing order. */
  function Search(ecu: Ecu, h: seq<Request>, x: nat): (e: Exchange<Outcome>)
    ensures |e.sent| <= 2 * (256 - Min(x, 256))
    ensures e.result == Ok(Exhausted) ==> |e.sent| == 2 * (256 - Min(x, 256))
    decreases 256 - x
  {
    if x >= 256 then Exchange(Ok(Exhausted), [])
    else
      var a := Attempt(ecu, h, x);
      if a.result.Err? then Exchange(Err(a.result.error), a.sent)
      else if a.result.value.Some? then Exchange(Ok(a.result.value.value), a.sent)
      else Then(a.sent, Search(ecu, h + a.sent, x + 1))
  }

  /** One pass of the `for` body: `getseed`, `broadcast`, `sendkey`. */
  method RunAttempt(ecu: Ecu, h: seq<Request>, x: Byte) returns (a: Exchange<Option<Outcome>>)
    ensures a == Attempt(ecu, h, x)
  {
    var g := GetSeed(ecu, h, 1);
    if g.result.Err? {
      return Exchange(Err(g.result.error), g.sent);
    }
    var seed := g.result.value;
    if seed.None? || seed.value == [] {
      return Exchange(Ok(Some(AlreadyAuthenticated)), g.sent);
    }
    if |seed.value| != 4 {
      return Exchange(Err(StructError), g.sent);
    }
    var b := Broadcast(x, 4);
    assert b == Broadcast4(x);
    var key := Pack32(XorWord(Unpack32(seed.value), b));
    var k := SendKey(ecu, h + g.sent, 1, key);
    if k.result.Err? {
      return Exchange(Err(k.result.error), g.sent + k.sent);
    }
    if k.result.value.Some? {
      return Exchange(Ok(Some(Printed(k.result.value.value))), g.sent + k.sent);
    }
    a := Exchange(Ok(None), g.sent + k.sent);
  }

  /** The script: `for x in range(256)`, with its `sys.exit` and `break`. */
  method RunScript(ecu: Ecu, h: seq<Request>) returns (e: Exchange<Outcome>)
    ensures e == Search(ecu, h, 0)
  {
    ghost var whole := Search(ecu, h, 0);
    var sent: seq<Request> := [];
    var x := 0;
    assert h + sent == h;
    assert Then(sent, whole) == whole;
    while x < 256
      invariant 0 <= x <= 256
      invariant whole == Then(sent, Search(ecu, h + sent, x))
    {
      var a := RunAttempt(ecu, h + sent, x);
      if a.result.Err? {
        return Exchange(Err(a.result.error), sent + a.sent);
      }
      if a.result.value.Some? {
        return Exchange(Ok(a.result.value.value), sent + a.sent);
      }
      SearchStep(ecu, h, sent, a.sent, x);
      sent := sent + a.sent;
      x := x + 1;
    }
    e := Exchange(Ok(Exhausted), sent);
  }

  /** A candidate that neither fails nor ends the search hands on to the next. */
  lemma SearchStep(ecu: Ecu, h: seq<Request>, sent: seq<Request>, step: seq<Request>, x: nat)
    requires x < 256 && Attempt(ecu, h + sent, x) == Exchange(Ok(None), step)
    ensures Then(sent, Search(ecu, h + sent, x)) == Then(sent + step, Search(ecu, h + (sent + step), x + 1))
  {
    SearchUnfold(ecu, h + sent, step, x);
    assert h + sent + step == h + (sent + step);
    ThenThen(sent, step, Search(ecu, h + (sent + step), x + 1));
  }

  lemma SearchUnfold(ecu: Ecu, hist: seq<Request>, step: seq<Request>, x: nat)
    requires x < 256 && Attempt(ecu, hist, x) == Exchange(Ok(None), step)
    ensures Search(ecu, hist, x) == Then(step, Search(ecu, hist + step, x + 1))
  {
  }

  /** `req` is the key request for candidate `x` after the requests `hist`:
      the candidate key of the seed in the reply to the last of them. */
  ghost predicate KeyFor(ecu: Ecu, hist: seq<Request>, req: Request, x: nat)
  {
    var seed := GetData(DataOffs, ecu(hist));
    && seed.Ok? && |seed.value| == 4 && x < 256
    && req == [0x27, 2] + CandidateKey(seed.value, x)
  }

  /** The index of the `i`-th seed request of a search. */
  function SeedAt(i: nat): nat
  {
    2 * i
  }

  /** The index of the `i`-th key request of a search. */
  function KeyAt(i: nat): nat
  {
    2 * i + 1
  }

  /** What the requests `sent` of a search from candidate `x` look like:
      seed requests `27 01` and key requests alternate, and the key after
      the `i`-th seed request is the one for candidate `x + i`. */
  ghost predicate Tried(ecu: Ecu, h: seq<Request>, sent: seq<Request>, x: nat)
  {
    && |sent| <= 2 * (256 - x)
    && (forall i: nat {:trigger sent[SeedAt(i)]} | SeedAt(i) < |sent| :: sent[SeedAt(i)] == [0x27, 1])
    && (forall i: nat {:trigger sent[KeyAt(i)]} | KeyAt(i) < |sent| ::
          KeyFor(ecu, h + sent[..KeyAt(i)], sent[KeyAt(i)], x + i))
  }

  lemma AttemptTried(ecu: Ecu, h: seq<Request>, x: Byte)
    ensures var a := Attempt(ecu, h, x);
            && Tried(ecu, h, a.sent, x) && 1 <= |a.sent| <= 2
            && (a.result == Ok(None) ==> |a.sent| == 2)
  {
    GetSeedData(ecu, h, 1);
    var g := GetSeed(ecu, h, 1);
    var a := Attempt(ecu, h, x);
    if g.result.Ok? && !NoSeed(g.result.value) && |g.result.value.value| == 4 {
      var seed := g.result.value.value;
      var req := [0x27, 2] + CandidateKey(seed, x);
      SendKeySent(ecu, h + g.sent, 1, CandidateKey(seed, x));
      assert a.sent == [[0x27, 1], req];
      TriedTwo(ecu, h, x, req);
    } else {
      assert a.sent == [[0x27, 1]];
      assert a.result != Ok(None);
      TriedOne(ecu, h, x);
    }
  }

  lemma TriedOne(ecu: Ecu, h: seq<Request>, x: Byte)
    ensures Tried(ecu, h, [[0x27, 1]], x)
  {
  }

  lemma TriedTwo(ecu: Ecu, h: seq<Request>, x: Byte, req: Request)
    requires KeyFor(ecu, h + [[0x27, 1]], req, x)
    ensures Tried(ecu, h, [[0x27, 1], req], x)
  {
    var s := [[0x27, 1], req];
    assert s[..KeyAt(0)] == [[0x27, 1]];
    forall i: nat | KeyAt(i) < |s|
      ensures KeyFor(ecu, h + s[..KeyAt(i)], s[KeyAt(i)], x + i)
    {
      assert i == 0;
    }
  }

  lemma TriedAppend(ecu: Ecu, h: seq<Request>, a: seq<Request>, rest: seq<Request>, x: nat)
    requires |a| == 2 && x < 256
    requires Tried(ecu, h, a, x) && Tried(ecu, h + a, rest, x + 1)
    ensures Tried(ecu, h, a + rest, x)
  {
    var s := a + rest;
    forall i: nat | KeyAt(i) < |s|
      ensures KeyFor(ecu, h + s[..KeyAt(i)], s[KeyAt(i)], x + i)
    {
      if i >= 1 {
        KeyForShift(ecu, h, a, rest, x, i);
      } else {
        assert s[..KeyAt(i)] == a[..KeyAt(i)];
      }
    }
    forall i: nat | SeedAt(i) < |s|
      ensures s[SeedAt(i)] == [0x27, 1]
    {
      if i >= 1 {
        assert s[SeedAt(i)] == rest[SeedAt(i - 1)];
      }
    }
  }

  /** A key request of the later part keeps its candidate once the first
      two requests are put in front of it. */
  lemma KeyForShift(ecu: Ecu, h: seq<Request>, a: seq<Request>, rest: seq<Request>, x: nat, i: nat)
    requires |a| == 2 && 1 <= i && KeyAt(i) < |a| + |rest|
    requires KeyFor(ecu, h + a + rest[..KeyAt(i - 1)], rest[KeyAt(i - 1)], x + 1 + (i - 1))
    ensures KeyFor(ecu, h + (a + rest)[..KeyAt(i)], (a + rest)[KeyAt(i)], x + i)
  {
    var j := KeyAt(i);
    assert (a + rest)[..j] == a + rest[..j - 2];
    assert h + (a + rest)[..j] == h + a + rest[..j - 2];
  }

  lemma SearchContinues(ecu: Ecu, h: seq<Request>, x: nat)
    requires x < 256 && Attempt(ecu, h, x).result == Ok(None)
    ensures Search(ecu, h, x) == Then(Attempt(ecu, h, x).sent, Search(ecu, h + Attempt(ecu, h, x).sent, x + 1))
  {
  }

  lemma SearchStops(ecu: Ecu, h: seq<Request>, x: nat)
    requires x < 256 && Attempt(ecu, h, x).result != Ok(None)
    ensures Search(ecu, h, x).sent == Attempt(ecu, h, x).sent
    ensures Search(ecu, h, x).result != Ok(Exhausted)
  {
    var a := Attempt(ecu, h, x);
    assert a.result.Ok? ==> a.result.value.value != Exhausted;
  }

  /** The whole search: candidates in increasing order, each one a fresh
      seed request and at most one key, at most 256 keys in all; it ends
      with `Exhausted` only after all 256 keys were refused. */
  lemma SearchTried(ecu: Ecu, h: seq<Request>, x: nat)
    requires x <= 256
    ensures var e := Search(ecu, h, x);
            && Tried(ecu, h, e.sent, x)
            && (e.result == Ok(Exhausted) ==> |e.sent| == 2 * (256 - x))
  {
    SearchShapedFrom(ecu, h, x);
  }

  /** The induction behind `SearchTried`, one candidate at a time. */
  lemma {:induction false} SearchShapedFrom(ecu: Ecu, h: seq<Request>, x: nat)
    requires x <= 256
    ensures SearchShaped(ecu, h, x)
    decreases 256 - x
  {
    if x < 256 {
      var a := Attempt(ecu, h, x);
      if a.result == Ok(None) {
        SearchShapedFrom(ecu, h + a.sent, x + 1);
        SearchTriedStep(ecu, h, x);
      } else {
        SearchTriedStop(ecu, h, x);
      }
    } else {
      SearchTriedEnd(ecu, h);
    }
  }

  /** Past the last candidate nothing more is sent. */
  lemma SearchTriedEnd(ecu: Ecu, h: seq<Request>)
    ensures SearchShaped(ecu, h, 256)
  {
  }

  /** The search from candidate `x` sent what `Tried` describes, and all
      256 - x pairs when it ran out of candidates. */
  ghost predicate SearchShaped(ecu: Ecu, h: seq<Request>, x: nat)
  {
    var e := Search(ecu, h, x);
    && Tried(ecu, h, e.sent, x)
    && (e.result == Ok(Exhausted) ==> |e.sent| == 2 * (256 - x))
  }

  /** An accepted or failed candidate ends the search with its own
      requests. */
  lemma SearchTriedStop(ecu: Ecu, h: seq<Request>, x: nat)
    requires x < 256 && Attempt(ecu, h, x).result != Ok(None)
    ensures SearchShaped(ecu, h, x)
  {
    AttemptTried(ecu, h, x);
    SearchStops(ecu, h, x);
  }

  /** A refused candidate puts its two requests in front of the search
      from the next candidate. */
  lemma SearchTriedStep(ecu: Ecu, h: seq<Request>, x: nat)
    requires x < 256 && Attempt(ecu, h, x).result == Ok(None)
    requires SearchShaped(ecu, h + Attempt(ecu, h, x).sent, x + 1)
    ensures SearchShaped(ecu, h, x)
  {
    var a := Attempt(ecu, h, x);
    var rest := Search(ecu, h + a.sent, x + 1);
    AttemptTried(ecu, h, x);
    SearchContinues(ecu, h, x);
    TriedAppend(ecu, h, a.sent, rest.sent, x);
  }
}
