/** SecurityAccess unlocking of the user-space diagnostics ECU: the level-1
    fixed-mask key, the level-3 bit-mixing key, the level-5 sequence of
    seed requests around an external PRNG-state predictor, and `unlock`. */
module UserSpaceUnlock {
  import opened Bits
  import opened Wire
  import opened UserSpaceCommon

  /** How one of the stand-alone unlock scripts ends when it raises nothing. */
  datatype Outcome =
    | AlreadyAuthenticated   // no seed: prints a notice and exits with status 0
    | Printed(data: seq<Byte>)  // prints the reply payload to the key
    | Exhausted              // every candidate tried, none accepted

  // Level 1.

  const Level1Mask: U32 := 0x2020_2020

  /** `p32(u32(seed) ^ 0x20202020)`; `u32` demands exactly four bytes. */
  function Level1Key(seed: seq<Byte>): (r: Result<seq<Byte>>)
    ensures r.Ok? <==> |seed| == 4
    ensures r.Err? ==> r.error == StructError
    ensures r.Ok? ==> |r.value| == 4
  {
    if |seed| != 4 then Err(StructError) else Ok(Pack32(XorWord(Unpack32(seed), Level1Mask)))
  }

  /** The level-1 key map is its own inverse. */
  lemma Level1KeyInvolution(seed: seq<Byte>)
    requires |seed| == 4
    ensures Level1Key(Level1Key(seed).value) == Ok(seed)
  {
    var w := Unpack32(seed);
    var k := XorWord(w, Level1Mask);
    Pack32RoundTrip(k, seed);
    Pack32RoundTrip(w, seed);
    assert Xor(k, Level1Mask) == w;
  }

  // Level 3.

  /** One key byte: `((x + (y ^ z)) ^ k) - (w << 4)`, reduced with `& 0xff`.
      Python's `+` binds tighter than `^`, and its unbounded integers make
      `& 0xff` the remainder modulo 256. */
  function Mix(x: Byte, y: Byte, z: Byte, w: Byte, k: Byte): Byte
  {
    (Xor(x + Xor(y, z), k) - w * 16) % 256
  }

  /** The same byte computed as an 8-bit processor would, every intermediate
      result wrapped to 8 bits. */
  function Mix8(x: Byte, y: Byte, z: Byte, w: Byte, k: Byte): Byte
  {
    var sum := (x + XorByte(y, z)) % 256;
    var mixed := XorByte(sum, k);
    (mixed - (w * 16) % 256) % 256
  }

  /** The unbounded and the wrapping 8-bit computations agree. */
  lemma MixWraps(x: Byte, y: Byte, z: Byte, w: Byte, k: Byte)
    ensures Mix(x, y, z, w, k) == Mix8(x, y, z, w, k)
  {
    WrapXorSub(x + Xor(y, z), k, w * 16);
  }

  /** `(big ^ k) - t` and its every operand reduced to 8 bits agree modulo 256. */
  lemma WrapXorSub(big: nat, k: Byte, t: int)
    ensures (Xor(big, k) - t) % 256 == (Xor(big % 256, k) - t % 256) % 256
  {
    var e := Xor(big, k);
    var low := Xor(big % 256, k);
    XorLowByte(big, k);
    ModSub(e, t, 256);
  }

  lemma ModSub(a: int, b: int, m: int)
    requires m > 0
    ensures (a - b) % m == (a % m - b % m) % m
  {
    DivModSpec(a, m);
    DivModSpec(b, m);
    var q := (a - b) / m;
    DivModSpec(a - b, m);
    DivModSpec(a % m - b % m, m);
    var k := a / m - b / m - q + (a % m - b % m) / m;
    assert (a - b) % m - (a % m - b % m) % m == k * m;
    MulBounds(k, m);
  }

  /** The level-3 key of `seed`; only its first four bytes count. */
  function MixKey(seed: seq<Byte>): (key: seq<Byte>)
    requires |seed| >= 4
    ensures |key| == 4
  {
    [ Mix(seed[0], seed[3], seed[0], seed[3], 0xfe),
      Mix(seed[1], seed[2], seed[1], seed[2], 0xed),
      Mix(seed[2], seed[1], seed[3], seed[1], 0xfa),
      Mix(seed[3], seed[0], seed[2], seed[0], 0xce) ]
  }

  /** Two worked examples: `AA BB CC DD` and the all-zero seed. */
  lemma MixKeyExamples(s: seq<Byte>, z: seq<Byte>)
    requires s == [0xaa, 0xbb, 0xcc, 0xdd] && z == [0, 0, 0, 0]
    ensures MixKey(s) == [0x0f, 0x1f, 0x18, 0xed]
    ensures MixKey(z) == [0xfe, 0xed, 0xfa, 0xce]
  {
    MixExample0();
    MixExample1();
    MixExample2();
    MixExample3();
    MixZero(0xfe);
    MixZero(0xed);
    MixZero(0xfa);
    MixZero(0xce);
  }

  /** A zero seed byte mixed with zeros gives the constant unchanged. */
  lemma MixZero(k: Byte)
    ensures Mix(0, 0, 0, 0, k) == k
  {
    assert Xor(0, 0) == 0;
    assert Xor(0, k) == k;
  }

  // The byte-by-byte evaluation of the first example, each exclusive-or
  // unfolded from its highest bits down.

  lemma MixExample0()
    ensures Mix(0xaa, 0xdd, 0xaa, 0xdd, 0xfe) == 0x0f
  {
    assert Xor(0x1, 0x1) == 0x0;
    assert Xor(0x3, 0x2) == 0x1;
    assert Xor(0x6, 0x5) == 0x3;
    assert Xor(0xd, 0xa) == 0x7;
    assert Xor(0x1b, 0x15) == 0xe;
    assert Xor(0x37, 0x2a) == 0x1d;
    assert Xor(0x6e, 0x55) == 0x3b;
    assert Xor(0xdd, 0xaa) == 0x77;
    assert Xor(0x2, 0x1) == 0x3;
    assert Xor(0x4, 0x3) == 0x7;
    assert Xor(0x9, 0x7) == 0xe;
    assert Xor(0x12, 0xf) == 0x1d;
    assert Xor(0x24, 0x1f) == 0x3b;
    assert Xor(0x48, 0x3f) == 0x77;
    assert Xor(0x90, 0x7f) == 0xef;
    assert Xor(0x121, 0xfe) == 0x1df;
  }

  lemma MixExample1()
    ensures Mix(0xbb, 0xcc, 0xbb, 0xcc, 0xed) == 0x1f
  {
    assert Xor(0x1, 0x1) == 0x0;
    assert Xor(0x3, 0x2) == 0x1;
    assert Xor(0x6, 0x5) == 0x3;
    assert Xor(0xc, 0xb) == 0x7;
    assert Xor(0x19, 0x17) == 0xe;
    assert Xor(0x33, 0x2e) == 0x1d;
    assert Xor(0x66, 0x5d) == 0x3b;
    assert Xor(0xcc, 0xbb) == 0x77;
    assert Xor(0x2, 0x1) == 0x3;
    assert Xor(0x4, 0x3) == 0x7;
    assert Xor(0x9, 0x7) == 0xe;
    assert Xor(0x13, 0xe) == 0x1d;
    assert Xor(0x26, 0x1d) == 0x3b;
    assert Xor(0x4c, 0x3b) == 0x77;
    assert Xor(0x99, 0x76) == 0xef;
    assert Xor(0x132, 0xed) == 0x1df;
  }

  lemma MixExample2()
    ensures Mix(0xcc, 0xbb, 0xdd, 0xbb, 0xfa) == 0x18
  {
    assert Xor(0x1, 0x1) == 0x0;
    assert Xor(0x2, 0x3) == 0x1;
    assert Xor(0x5, 0x6) == 0x3;
    assert Xor(0xb, 0xd) == 0x6;
    assert Xor(0x17, 0x1b) == 0xc;
    assert Xor(0x2e, 0x37) == 0x19;
    assert Xor(0x5d, 0x6e) == 0x33;
    assert Xor(0xbb, 0xdd) == 0x66;
    assert Xor(0x2, 0x1) == 0x3;
    assert Xor(0x4, 0x3) == 0x7;
    assert Xor(0x9, 0x7) == 0xe;
    assert Xor(0x13, 0xf) == 0x1c;
    assert Xor(0x26, 0x1f) == 0x39;
    assert Xor(0x4c, 0x3e) == 0x72;
    assert Xor(0x99, 0x7d) == 0xe4;
    assert Xor(0x132, 0xfa) == 0x1c8;
  }

  lemma MixExample3()
    ensures Mix(0xdd, 0xaa, 0xcc, 0xaa, 0xce) == 0xed
  {
    assert Xor(0x1, 0x1) == 0x0;
    assert Xor(0x2, 0x3) == 0x1;
    assert Xor(0x5, 0x6) == 0x3;
    assert Xor(0xa, 0xc) == 0x6;
    assert Xor(0x15, 0x19) == 0xc;
    assert Xor(0x2a, 0x33) == 0x19;
    assert Xor(0x55, 0x66) == 0x33;
    assert Xor(0xaa, 0xcc) == 0x66;
    assert Xor(0x2, 0x1) == 0x3;
    assert Xor(0x5, 0x3) == 0x6;
    assert Xor(0xa, 0x6) == 0xc;
    assert Xor(0x14, 0xc) == 0x18;
    assert Xor(0x28, 0x19) == 0x31;
    assert Xor(0x50, 0x33) == 0x63;
    assert Xor(0xa1, 0x67) == 0xc6;
    assert Xor(0x143, 0xce) == 0x18d;
  }
  /** Key byte 0 reads seed bytes 0 and 3; byte 1 reads 1 and 2; byte 2
      reads 1, 2 and 3; byte 3 reads 0, 2 and 3. */
  lemma MixKeyDependencies(s: seq<Byte>, t: seq<Byte>)
    requires |s| >= 4 && |t| >= 4
    ensures s[0] == t[0] && s[3] == t[3] ==> MixKey(s)[0] == MixKey(t)[0]
    ensures s[1] == t[1] && s[2] == t[2] ==> MixKey(s)[1] == MixKey(t)[1]
    ensures s[1] == t[1] && s[2] == t[2] && s[3] == t[3] ==> MixKey(s)[2] == MixKey(t)[2]
    ensures s[0] == t[0] && s[2] == t[2] && s[3] == t[3] ==> MixKey(s)[3] == MixKey(t)[3]
    ensures s[..4] == t[..4] ==> MixKey(s) == MixKey(t)
  {
    if s[..4] == t[..4] {
      assert forall i | 0 <= i < 4 :: s[i] == s[..4][i] == t[..4][i] == t[i];
    }
  }

  /** `key = [0] * 4` filled in place in the order of the source, key[1]
      first; a seed shorter than four bytes raises IndexError. */
  method ComputeMixKey(seed: seq<Byte>) returns (r: Result<seq<Byte>>)
    ensures |seed| >= 4 ==> r == Ok(MixKey(seed))
    ensures |seed| < 4 ==> r == Err(IndexError)
  {
    if |seed| < 4 {
      return Err(IndexError);
    }
    var key := new Byte[4](_ => 0);
    key[1] := Mix(seed[1], seed[2], seed[1], seed[2], 0xed);
    key[0] := Mix(seed[0], seed[3], seed[0], seed[3], 0xfe);
    key[2] := Mix(seed[2], seed[1], seed[3], seed[1], 0xfa);
    key[3] := Mix(seed[3], seed[0], seed[2], seed[0], 0xce);
    assert key[..] == [key[0], key[1], key[2], key[3]];
    return Ok(key[..]);
  }

  // The levels. Each returns what `sendkey` returned, or `None` when the
  // level needs no key.

  /** `not seed`: no seed (already unlocked) or an empty one. */
  predicate NoSeed(seed: Option<seq<Byte>>)
  {
    seed.None? || seed.value == []
  }

  /** `level1(s)`. */
  function Level1(ecu: Ecu, h: seq<Request>): (e: Exchange<Option<seq<Byte>>>)
    ensures 1 <= |e.sent| <= 2 && e.sent[0] == [0x27, 1]
    ensures |e.sent| == 2 ==> |e.sent[1]| >= 2 && e.sent[1][..2] == [0x27, 2]
    ensures e.result.Ok? && e.result.value.Some? ==> |e.sent| == 2
  {
    var g := GetSeed(ecu, h, 1);
    match g.result
    case Err(e) => Exchange(Err(e), g.sent)
    case Ok(seed) =>
      if NoSeed(seed) then Exchange(Ok(None), g.sent)
      else match Level1Key(seed.value)
        case Err(e) => Exchange(Err(e), g.sent)
        case Ok(key) => Then(g.sent, SendKey(ecu, h + g.sent, 1, key))
  }

  /** The shape of `level1`: one seed request; no key when there is no
      seed; otherwise the key derived from a 4-byte seed sent as `27 02`. */
  lemma Level1Requests(ecu: Ecu, h: seq<Request>)
    ensures var g := GetSeed(ecu, h, 1);
            var e := Level1(ecu, h);
            && |e.sent| >= 1 && e.sent[0] == [0x27, 1]
            && (g.result.Ok? && NoSeed(g.result.value) ==> e == Exchange(Ok(None), [[0x27, 1]]))
            && (g.result.Ok? && !NoSeed(g.result.value) && |g.result.value.value| == 4 ==>
                  e.sent == [[0x27, 1], [0x27, 2] + Level1Key(g.result.value.value).value])
            && (g.result.Err? ==> e == Exchange(Err(g.result.error), [[0x27, 1]]))
  {
    GetSeedReplies(ecu, h, 1, []);
    var g := GetSeed(ecu, h, 1);
    if g.result.Ok? && !NoSeed(g.result.value) && |g.result.value.value| == 4 {
      SendKeyReplies(ecu, h + g.sent, 1, Level1Key(g.result.value.value).value, []);
    }
  }

  /** `level3(s)`, with the key computed as `ComputeMixKey` does. */
  function Level3(ecu: Ecu, h: seq<Request>): (e: Exchange<Option<seq<Byte>>>)
    ensures 1 <= |e.sent| <= 2 && e.sent[0] == [0x27, 3]
    ensures |e.sent| == 2 ==> |e.sent[1]| == 6 && e.sent[1][..2] == [0x27, 4]
    ensures e.result.Ok? && e.result.value.Some? ==> |e.sent| == 2
  {
    var g := GetSeed(ecu, h, 3);
    match g.result
    case Err(e) => Exchange(Err(e), g.sent)
    case Ok(seed) =>
      if NoSeed(seed) then Exchange(Ok(None), g.sent)
      else if |seed.value| < 4 then Exchange(Err(IndexError), g.sent)
      else Then(g.sent, SendKey(ecu, h + g.sent, 3, MixKey(seed.value)))
  }

  /** `level3(s)` as the source runs it, the key filled into a list. */
  method RunLevel3(ecu: Ecu, h: seq<Request>) returns (e: Exchange<Option<seq<Byte>>>)
    ensures e == Level3(ecu, h)
  {
    var g := GetSeed(ecu, h, 3);
    if g.result.Err? {
      return Exchange(Err(g.result.error), g.sent);
    }
    var seed := g.result.value;
    if seed.None? || seed.value == [] {
      return Exchange(Ok(None), g.sent);
    }
    var key := ComputeMixKey(seed.value);
    if key.Err? {
      return Exchange(Err(key.error), g.sent);
    }
    e := Then(g.sent, SendKey(ecu, h + g.sent, 3, key.value));
  }

  /** The shape of `level3`: one seed request; no key when there is no
      seed; otherwise the mixed key sent as `27 04`. */
  lemma Level3Requests(ecu: Ecu, h: seq<Request>)
    ensures var g := GetSeed(ecu, h, 3);
            var e := Level3(ecu, h);
            && |e.sent| >= 1 && e.sent[0] == [0x27, 3]
            && (g.result.Ok? && NoSeed(g.result.value) ==> e == Exchange(Ok(None), [[0x27, 3]]))
            && (g.result.Ok? && !NoSeed(g.result.value) && |g.result.value.value| >= 4 ==>
                  e.sent == [[0x27, 3], [0x27, 4] + MixKey(g.result.value.value)])
            && (g.result.Ok? && !NoSeed(g.result.value) && |g.result.value.value| < 4 ==>
                  e == Exchange(Err(IndexError), [[0x27, 3]]))
  {
    GetSeedReplies(ecu, h, 3, []);
    var g := GetSeed(ecu, h, 3);
    if g.result.Ok? && !NoSeed(g.result.value) && |g.result.value.value| >= 4 {
      SendKeyReplies(ecu, h + g.sent, 3, MixKey(g.result.value.value), []);
    }
  }

  // Level 5.

  /** The number of PRNG outputs the predictor is given. */
  const HarvestSize: nat := 624

  /** A predictor: the next 32-bit output of the ECU's generator given the
      outputs seen so far (MT19937 state recovery, outside this model). */
  type Predictor = seq<U32> -> U32

  /** One round of `u32(getseed(s, 5))`: `None` is a TypeError and a seed
      of another length than four bytes a struct error. */
  function Round(ecu: Ecu, h: seq<Request>): Result<U32>
  {
    var g := GetSeed(ecu, h, 5);
    match g.result
    case Err(e) => Err(e)
    case Ok(seed) =>
      if seed.None? then Err(TypeError)
      else if |seed.value| != 4 then Err(StructError)
      else Ok(Unpack32(seed.value))
  }

  /** A round as a function of the requests sent before it. */
  type RoundFn = seq<Request> -> Result<U32>

  /** The rounds of `level5(s)` against `ecu`. */
  function RoundOf(ecu: Ecu): RoundFn
  {
    hist => Round(ecu, hist)
  }

  lemma RoundSends(ecu: Ecu, h: seq<Request>)
    ensures GetSeed(ecu, h, 5).sent == [[0x27, 5]]
  {
    GetSeedReplies(ecu, h, 5, []);
  }

  /** `n` more rounds, the outputs so far in `outs`; each round sends one
      `27 05` request and yields `round` of the requests before it. */
  function Harvest(round: RoundFn, h: seq<Request>, n: nat, outs: seq<U32>): (e: Exchange<seq<U32>>)
    ensures |e.sent| <= n
    ensures e.result.Ok? ==> |e.sent| == n && |e.result.value| == |outs| + n
    decreases n
  {
    if n == 0 then Exchange(Ok(outs), [])
    else
      var req: Request := [0x27, 5];
      match round(h)
      case Err(e) => Exchange(Err(e), [req])
      case Ok(w) => Then([req], Harvest(round, h + [req], n - 1, outs + [w]))
  }

  /** `n` copies of the request `r`. */
  function Repeat(r: Request, n: nat): (rs: seq<Request>)
    ensures |rs| == n && forall i | 0 <= i < n :: rs[i] == r
  {
    seq(n, _ => r)
  }

  /** A harvest sends nothing but level-5 seed requests, one per round, and
      when it succeeds it has run every round and gathered one output each. */
  lemma {:induction false} HarvestRequests(round: RoundFn, h: seq<Request>, n: nat, outs: seq<U32>)
    ensures var e := Harvest(round, h, n, outs);
            && e.sent == Repeat([0x27, 5], |e.sent|)
            && 1 <= |e.sent| + (if n == 0 then 1 else 0) && |e.sent| <= n
            && (e.result.Ok? ==> |e.sent| == n && |e.result.value| == |outs| + n
                                 && e.result.value[..|outs|] == outs)
    decreases n
  {
    if n > 0 {
      var req: Request := [0x27, 5];
      var r := round(h);
      if r.Ok? {
        var outs' := outs + [r.value];
        HarvestRequests(round, h + [req], n - 1, outs');
        var rest := Harvest(round, h + [req], n - 1, outs');
        assert Harvest(round, h, n, outs).sent == [req] + rest.sent;
        if rest.result.Ok? {
          assert rest.result.value[..|outs|] == rest.result.value[..|outs'|][..|outs|];
        }
      }
    }
  }

  /** `level5(s)`: a level-5 seed request, a level-3 seed request whose
      result is dropped, then the harvest and the key. */
  function Level5(ecu: Ecu, h: seq<Request>, predict: Predictor): (e: Exchange<Option<seq<Byte>>>)
    ensures 1 <= |e.sent| <= 3 + HarvestSize && e.sent[0] == [0x27, 5]
    ensures |e.sent| >= 2 ==> e.sent[1] == [0x27, 3]
    ensures e.result.Ok? && e.result.value.Some? ==> |e.sent| == 3 + HarvestSize
  {
    var g := GetSeed(ecu, h, 5);
    match g.result
    case Err(e) => Exchange(Err(e), g.sent)
    case Ok(seed) =>
      if NoSeed(seed) then Exchange(Ok(None), g.sent)
      else
        var junk := GetSeed(ecu, h + g.sent, 3);
        var pre := g.sent + junk.sent;
        match junk.result
        case Err(e) => Exchange(Err(e), pre)
        case Ok(_) => Level5Key(ecu, h + pre, pre, predict)
  }

  /** The end of `level5(s)`, after the requests `pre`: 624 rounds whose
      outputs feed the predictor, and the predicted key sent for level 5. */
  function Level5Key(ecu: Ecu, h: seq<Request>, pre: seq<Request>, predict: Predictor): (e: Exchange<Option<seq<Byte>>>)
    ensures |pre| <= |e.sent| <= |pre| + HarvestSize + 1 && e.sent[..|pre|] == pre
    ensures e.result.Ok? && e.result.value.Some? ==> |e.sent| == |pre| + HarvestSize + 1
  {
    var outs := Harvest(RoundOf(ecu), h, HarvestSize, []);
    match outs.result
    case Err(e) => Exchange(Err(e), pre + outs.sent)
    case Ok(o) => Then(pre + outs.sent, SendKey(ecu, h + outs.sent, 5, Pack32(predict(o))))
  }

  /** `level5(s)` as the source runs it, with its counted loop. */
  method RunLevel5(ecu: Ecu, h: seq<Request>, predict: Predictor) returns (e: Exchange<Option<seq<Byte>>>)
    ensures e == Level5(ecu, h, predict)
  {
    var g := GetSeed(ecu, h, 5);
    if g.result.Err? {
      return Exchange(Err(g.result.error), g.sent);
    }
    if NoSeed(g.result.value) {
      return Exchange(Ok(None), g.sent);
    }
    var junk := GetSeed(ecu, h + g.sent, 3);
    var pre := g.sent + junk.sent;
    if junk.result.Err? {
      return Exchange(Err(junk.result.error), pre);
    }
    var hp := h + pre;
    assert h + g.sent + junk.sent == hp;
    var outs := RunHarvest(RoundOf(ecu), hp);
    if outs.result.Err? {
      return Exchange(Err(outs.result.error), pre + outs.sent);
    }
    e := Then(pre + outs.sent, SendKey(ecu, hp + outs.sent, 5, Pack32(predict(outs.result.value))));
  }

  /** The counted loop of `level5(s)`: 624 rounds, stopping at the first
      exception. */
  method RunHarvest(round: RoundFn, h: seq<Request>) returns (r: Exchange<seq<U32>>)
    ensures r == Harvest(round, h, HarvestSize, [])
  {
    r := RunRounds(round, h, HarvestSize);
  }

  /** `for _ in range(count)`: one round per iteration, the outputs so far
      in `outs`, the requests so far in `sent`. */
  method RunRounds(round: RoundFn, h: seq<Request>, count: nat) returns (r: Exchange<seq<U32>>)
    ensures r == Harvest(round, h, count, [])
  {
    ghost var whole := Harvest(round, h, count, []);
    var outs: seq<U32> := [];
    var sent: seq<Request> := [];
    var i := 0;
    assert h + sent == h;
    assert Then(sent, whole) == whole;
    while i < count
      invariant 0 <= i <= count
      invariant whole == Then(sent, Harvest(round, h + sent, count - i, outs))
    {
      var req: Request := [0x27, 5];
      var w := round(h + sent);
      if w.Err? {
        return Exchange(Err(w.error), sent + [req]);
      }
      HarvestStep(round, h, sent, req, count - i, outs, w.value, whole);
      sent := sent + [req];
      outs := outs + [w.value];
      i := i + 1;
    }
    assert sent + [] == sent;
    r := Exchange(Ok(outs), sent);
  }

  /** One round of the harvest, taken after the requests `sent`, keeps the
      whole harvest equal to the requests so far followed by the rest. */
  lemma HarvestStep(round: RoundFn, h: seq<Request>, sent: seq<Request>, req: Request, n: nat, outs: seq<U32>,
                    w: U32, whole: Exchange<seq<U32>>)
    requires req == [0x27, 5] && n > 0 && round(h + sent) == Ok(w)
    requires whole == Then(sent, Harvest(round, h + sent, n, outs))
    ensures whole == Then(sent + [req], Harvest(round, h + (sent + [req]), n - 1, outs + [w]))
  {
    assert h + sent + [req] == h + (sent + [req]);
    var rest := Harvest(round, h + (sent + [req]), n - 1, outs + [w]);
    assert Harvest(round, h + sent, n, outs) == Then([req], rest);
    ThenThen(sent, [req], rest);
  }

  /** The requests of a level-5 unlock: it stops after its first request,
      or sends in order `27 05`, `27 03` and the rounds' `27 05`, and after
      the 624th round `27 06` with the predicted key, 627 requests in all;
      it succeeds only by stopping at once or by sending them all. */
  predicate Level5Shape(sent: seq<Request>, ok: bool)
  {
    && |sent| >= 1 && sent[0] == [0x27, 5]
    && (|sent| > 1 ==> sent[1] == [0x27, 3] && sent[2..Min(|sent|, 2 + HarvestSize)]
                         == Repeat([0x27, 5], Min(|sent|, 2 + HarvestSize) - 2))
    && |sent| <= 3 + HarvestSize
    && (ok ==> |sent| == 1 || |sent| == 3 + HarvestSize)
    && (|sent| == 3 + HarvestSize ==> |sent[2 + HarvestSize]| >= 2 && sent[2 + HarvestSize][..2] == [0x27, 6])
  }

  lemma Level5Requests(ecu: Ecu, h: seq<Request>, predict: Predictor)
    ensures var e := Level5(ecu, h, predict);
            Level5Shape(e.sent, e.result.Ok?)
    ensures var g := GetSeed(ecu, h, 5);
            var e := Level5(ecu, h, predict);
            && (g.result.Err? ==> e == Exchange(Err(g.result.error), [[0x27, 5]]))
            && (g.result.Ok? && NoSeed(g.result.value) ==> e == Exchange(Ok(None), [[0x27, 5]]))
            && (g.result.Ok? && !NoSeed(g.result.value) ==> |e.sent| >= 2 && e.sent[1] == [0x27, 3])
  {
    var g := GetSeed(ecu, h, 5);
    GetSeedReplies(ecu, h, 5, []);
    RoundSends(ecu, h);
    if g.result.Ok? && !NoSeed(g.result.value) {
      var junk := GetSeed(ecu, h + g.sent, 3);
      GetSeedReplies(ecu, h + g.sent, 3, []);
      var pre := g.sent + junk.sent;
      if junk.result.Ok? {
        Level5KeyRequests(ecu, h + pre, pre, predict);
      } else {
        assert pre[2..Min(|pre|, 2 + HarvestSize)] == [];
      }
    }
  }

  lemma Level5KeyRequests(ecu: Ecu, h: seq<Request>, pre: seq<Request>, predict: Predictor)
    requires pre == [[0x27, 5], [0x27, 3]]
    ensures var e := Level5Key(ecu, h, pre, predict);
            Level5Shape(e.sent, e.result.Ok?)
  {
    var outs := Harvest(RoundOf(ecu), h, HarvestSize, []);
    HarvestRequests(RoundOf(ecu), h, HarvestSize, []);
    var e := Level5Key(ecu, h, pre, predict);
    if outs.result.Ok? {
      Level5Sent(ecu, h, pre, outs.sent, predict(outs.result.value), e);
    } else {
      assert e.sent[2..] == outs.sent;
    }
  }

  lemma Level5Sent(ecu: Ecu, h: seq<Request>, pre: seq<Request>, outs: seq<Request>, key: U32,
                   e: Exchange<Option<seq<Byte>>>)
    requires pre == [[0x27, 5], [0x27, 3]]
    requires outs == Repeat([0x27, 5], HarvestSize)
    requires e == Then(pre + outs, SendKey(ecu, h + outs, 5, Pack32(key)))
    ensures Level5Shape(e.sent, e.result.Ok?)
  {
    var k := [0x27, 6] + Pack32(key);
    assert SendKey(ecu, h + outs, 5, Pack32(key)).sent == [k] by {
      SendKeyReplies(ecu, h + outs, 5, Pack32(key), []);
    }
    assert e.sent == pre + outs + [k];
    assert |e.sent| == 3 + HarvestSize;
    assert e.sent[2..2 + HarvestSize] == outs;
    assert e.sent[2 + HarvestSize] == k;
    assert k[..2] == [0x27, 6];
  }

  /** `unlock(s)`: level 1, then level 3, then level 5, each after the
      requests of the one before; an exception in one ends the unlock. */
  function Unlock(ecu: Ecu, h: seq<Request>, predict: Predictor): (e: Exchange<()>)
    ensures |e.sent| >= 1 && e.sent[0] == [0x27, 1]
  {
    var l1 := Level1(ecu, h);
    if l1.result.Err? then Exchange(Err(l1.result.error), l1.sent)
    else
      var l3 := Level3(ecu, h + l1.sent);
      if l3.result.Err? then Exchange(Err(l3.result.error), l1.sent + l3.sent)
      else
        var l5 := Level5(ecu, h + l1.sent + l3.sent, predict);
        if l5.result.Err? then Exchange(Err(l5.result.error), l1.sent + l3.sent + l5.sent)
        else Exchange(Ok(()), l1.sent + l3.sent + l5.sent)
  }

  method RunUnlock(ecu: Ecu, h: seq<Request>, predict: Predictor) returns (e: Exchange<()>)
    ensures e == Unlock(ecu, h, predict)
  {
    var l1 := Level1(ecu, h);
    if l1.result.Err? {
      return Exchange(Err(l1.result.error), l1.sent);
    }
    var l3 := RunLevel3(ecu, h + l1.sent);
    if l3.result.Err? {
      return Exchange(Err(l3.result.error), l1.sent + l3.sent);
    }
    var l5 := RunLevel5(ecu, h + l1.sent + l3.sent, predict);
    if l5.result.Err? {
      return Exchange(Err(l5.result.error), l1.sent + l3.sent + l5.sent);
    }
    return Exchange(Ok(()), l1.sent + l3.sent + l5.sent);
  }

  /** The first request of `unlock` is the level-1 seed request, and the
      level-3 seed request comes right after the level-1 requests. */
  lemma UnlockOrder(ecu: Ecu, h: seq<Request>, predict: Predictor)
    ensures var e := Unlock(ecu, h, predict);
            var l1 := Level1(ecu, h);
            var l3 := Level3(ecu, h + l1.sent);
            && |e.sent| >= 1 && e.sent[0] == [0x27, 1]
            && (l1.result.Ok? ==> |e.sent| > |l1.sent| && e.sent[|l1.sent|] == [0x27, 3])
            && (l1.result.Ok? && l3.result.Ok? ==>
                  |e.sent| > |l1.sent| + |l3.sent| && e.sent[|l1.sent| + |l3.sent|] == [0x27, 5])
  {
    var l1 := Level1(ecu, h);
    var e := Unlock(ecu, h, predict);
    if l1.result.Ok? {
      var l3 := Level3(ecu, h + l1.sent);
      if l3.result.Ok? {
        var l5 := Level5(ecu, h + l1.sent + l3.sent, predict);
        assert e.sent == l1.sent + l3.sent + l5.sent;
        assert e.sent[|l1.sent| + |l3.sent|] == l5.sent[0];
        assert e.sent[|l1.sent|] == l3.sent[0];
      } else {
        assert e.sent == l1.sent + l3.sent;
        assert e.sent[|l1.sent|] == l3.sent[0];
      }
      assert e.sent[0] == l1.sent[0];
    } else {
      assert e.sent == l1.sent;
    }
  }
}
