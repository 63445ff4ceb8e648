/** SecurityAccess unlocking of the harbor-bay ECU: each level opens a
    diagnostic session, asks for a seed and sends the key derived from it,
    every reply checked against a negative response. */
module HarborBayUnlock {
  import opened Bits
  import opened Wire
  import opened HarborBayCommon

  // The keys.

  /** `~x & 0xffff`: Python's `~x` is `-x - 1`, and `&` with a mask of ones
      keeps the remainder modulo 2^16 also for a negative left operand. */
  function Complement16(x: U16): U16
  {
    (-(x as int) - 1) % 0x1_0000
  }

  /** The complement is `0xffff - x`, so it and `x` exclusive-or to all ones. */
  lemma ComplementXor(x: U16)
    ensures Complement16(x) == 0xffff - x
    ensures Xor(Complement16(x), x) == 0xffff
  {
    DivModUnique(-(x as int) - 1, 0x1_0000, -1, 0xffff - x);
    Pow2Values();
    XorComplement(x, 16);
  }

  /** Complementing twice gives back the value. */
  lemma ComplementTwice(x: U16)
    ensures Complement16(Complement16(x)) == x
  {
    ComplementXor(x);
    ComplementXor(Complement16(x));
  }

  /** `p16(~u16(val) & 0xffff)`; `u16` demands exactly two bytes. */
  function Level3Key(val: seq<Byte>): (r: Result<seq<Byte>>)
    ensures r.Ok? <==> |val| == 2
    ensures r.Err? ==> r.error == StructError
    ensures r.Ok? ==> |r.value| == 2
  {
    if |val| != 2 then Err(StructError) else Ok(Pack16(Complement16(Unpack16(val))))
  }

  /** The level-3 key is the seed with each byte complemented. */
  lemma Level3KeyBytes(val: seq<Byte>)
    requires |val| == 2
    ensures Level3Key(val).value == [0xff - val[0], 0xff - val[1]]
  {
    var x := Unpack16(val);
    ComplementXor(x);
    DivModUnique(0xffff - x, 0x100, 0xff - val[0], 0xff - val[1]);
  }

  /** A byte and its complement exclusive-or to `FF`. */
  lemma XorByteComplement(b: Byte)
    ensures XorByte(0xff - b, b) == 0xff
  {
    Pow2Eight();
    XorComplement(b, 8);
  }

  /** Byte by byte the level-3 key complements the seed: the two exclusive-or
      to `FF FF`, and the key of the key is the seed. */
  lemma Level3KeyComplements(val: seq<Byte>)
    requires |val| == 2
    ensures var key := Level3Key(val).value;
            && key == [0xff - val[0], 0xff - val[1]]
            && XorBytes(key, val) == [0xff, 0xff]
            && Level3Key(key) == Ok(val)
  {
    Level3KeyBytes(val);
    var key := Level3Key(val).value;
    XorByteComplement(val[0]);
    XorByteComplement(val[1]);
    assert XorBytes(key, val) == [XorByte(key[0], val[0]), XorByte(key[1], val[1])];
    Level3KeyBytes(key);
    assert [0xff - key[0], 0xff - key[1]] == val;
  }

  const Level1Mask: U32 := 0x5539_aa17

  /** `xorbytes(val, p32(0x5539aa17))`: `map` stops at the shorter operand,
      so a seed longer than four bytes gives a four-byte key. */
  function Level1Key(val: seq<Byte>): (key: seq<Byte>)
    ensures |key| == Min(|val|, 4)
  {
    XorBytes(val, Pack32(Level1Mask))
  }

  /** The level-1 mask as the four bytes `p32` gives. */
  lemma Level1MaskBytes()
    ensures Pack32(Level1Mask) == [0x55, 0x39, 0xaa, 0x17]
  {
  }

  /** The level-1 mask written out, and the key map undoing itself on seeds
      of at most four bytes. */
  lemma Level1KeyInvolution(val: seq<Byte>)
    requires |val| <= 4
    ensures Pack32(Level1Mask) == [0x55, 0x39, 0xaa, 0x17]
    ensures Level1Key(Level1Key(val)) == val
  {
    Level1MaskBytes();
    var mask := Pack32(Level1Mask);
    XorBytesTwice(val, mask);
    assert Level1Key(Level1Key(val)) == XorBytes(XorBytes(val, mask), mask);
  }

  // The request sequences.

  /** `reply = sendrecv(s, req); assert_not_nrc(reply)`. */
  function Checked(ecu: Ecu, h: seq<Request>, req: Request): (e: Exchange<Reply>)
    ensures e.sent == [req]
    ensures var reply := ecu(h + [req]);
            && (e.result.Ok? <==> reply != [] && reply[0] != 0x7f)
            && (e.result.Ok? ==> e.result.value == reply)
            && (e.result.Err? ==> e.result.error == AssertionError)
  {
    var reply := ecu(h + [req]);
    match AssertNotNrc(reply)
    case Err(e) => Exchange(Err(e), [req])
    case Ok(_) => Exchange(Ok(reply), [req])
  }

  /** One level: the session request `10 session`, the seed request
      `27 level`, and the key request `27 level+1` with `derive` applied to
      the seed payload; every reply must pass `assert_not_nrc`. */
  function Level(ecu: Ecu, h: seq<Request>, session: Byte, level: Byte,
                 derive: seq<Byte> -> Result<seq<Byte>>): (e: Exchange<()>)
    requires level < 255
    ensures 1 <= |e.sent| <= 3 && e.sent[0] == [0x10, session]
    ensures |e.sent| >= 2 ==> e.sent[1] == [0x27, level]
    ensures |e.sent| == 3 ==> |e.sent[2]| >= 2 && e.sent[2][..2] == [0x27, level + 1]
    ensures e.result.Ok? ==> |e.sent| == 3
  {
    var s := Checked(ecu, h, [0x10, session]);
    if s.result.Err? then Exchange(Err(s.result.error), s.sent)
    else
      var h1 := h + s.sent;
      var g := Checked(ecu, h1, [0x27, level]);
      if g.result.Err? then Exchange(Err(g.result.error), s.sent + g.sent)
      else
        match GetData(DataOffs, g.result.value)
        case Err(e) => Exchange(Err(e), s.sent + g.sent)
        case Ok(val) =>
          match derive(val)
          case Err(e) => Exchange(Err(e), s.sent + g.sent)
          case Ok(key) =>
            var k := Checked(ecu, h1 + g.sent, [0x27, level + 1] + key);
            if k.result.Err? then Exchange(Err(k.result.error), s.sent + g.sent + k.sent)
            else Exchange(Ok(()), s.sent + g.sent + k.sent)
  }

  /** `level3(s)`: extended session, seed and complement key. */
  function Level3(ecu: Ecu, h: seq<Request>): (e: Exchange<()>)
    ensures 1 <= |e.sent| <= 3 && e.sent[0] == [0x10, 3]
    ensures |e.sent| >= 2 ==> e.sent[1] == [0x27, 3]
    ensures e.result.Ok? ==> |e.sent| == 3 && |e.sent[2]| == 4 && e.sent[2][..2] == [0x27, 4]
  {
    Level(ecu, h, 0x03, 0x03, Level3Key)
  }

  /** `level1(s)`: programming session, seed and exclusive-or key. */
  function Level1(ecu: Ecu, h: seq<Request>): (e: Exchange<()>)
    ensures 1 <= |e.sent| <= 3 && e.sent[0] == [0x10, 2]
    ensures |e.sent| >= 2 ==> e.sent[1] == [0x27, 1]
    ensures e.result.Ok? ==> |e.sent| == 3 && 2 <= |e.sent[2]| <= 6 && e.sent[2][..2] == [0x27, 2]
  {
    Level(ecu, h, 0x02, 0x01, val => Ok(Level1Key(val)))
  }

  /** The replies a level got, each one to the request of the same index. */
  function RepliesTo(ecu: Ecu, h: seq<Request>, sent: seq<Request>): (rs: seq<Reply>)
    ensures |rs| == |sent|
  {
    seq(|sent|, i requires 0 <= i < |sent| => ecu(h + sent[..i + 1]))
  }

  /** A level's requests start with the session request, and a seed
      request follows only a session reply that passed `assert_not_nrc`. */
  lemma LevelStarts(ecu: Ecu, h: seq<Request>, session: Byte, level: Byte,
                    derive: seq<Byte> -> Result<seq<Byte>>)
    requires level < 255
    ensures var e := Level(ecu, h, session, level, derive);
            var rs := RepliesTo(ecu, h, e.sent);
            && 1 <= |e.sent| <= 3 && e.sent[0] == [0x10, session]
            && (|e.sent| >= 2 ==> e.sent[1] == [0x27, level] && AssertNotNrc(rs[0]).Ok?)
  {
    var e := Level(ecu, h, session, level, derive);
    var s := Checked(ecu, h, [0x10, session]);
    assert e.sent[..1] == s.sent;
  }

  /** A key request follows only a seed reply that passed `assert_not_nrc` and
      whose payload `derive` accepted, and it carries the derived key. */
  lemma LevelKey(ecu: Ecu, h: seq<Request>, session: Byte, level: Byte,
                 derive: seq<Byte> -> Result<seq<Byte>>)
    requires level < 255
    ensures var e := Level(ecu, h, session, level, derive);
            var rs := RepliesTo(ecu, h, e.sent);
            |e.sent| == 3 ==>
              && AssertNotNrc(rs[1]).Ok?
              && GetData(DataOffs, rs[1]).Ok?
              && derive(GetData(DataOffs, rs[1]).value).Ok?
              && e.sent[2] == [0x27, level + 1] + derive(GetData(DataOffs, rs[1]).value).value
  {
    var e := Level(ecu, h, session, level, derive);
    var s := Checked(ecu, h, [0x10, session]);
    if |e.sent| == 3 {
      var h1 := h + s.sent;
      var g := Checked(ecu, h1, [0x27, level]);
      assert e.sent[..2] == s.sent + g.sent;
      assert h1 + g.sent == h + e.sent[..2];
    }
  }

  /** A level succeeds exactly when its key request was sent and the reply
      to it passed `assert_not_nrc`. */
  lemma LevelSucceeds(ecu: Ecu, h: seq<Request>, session: Byte, level: Byte,
                      derive: seq<Byte> -> Result<seq<Byte>>)
    requires level < 255
    ensures var e := Level(ecu, h, session, level, derive);
            var rs := RepliesTo(ecu, h, e.sent);
            e.result.Ok? <==> |e.sent| == 3 && AssertNotNrc(rs[2]).Ok?
  {
    var e := Level(ecu, h, session, level, derive);
    var rs := RepliesTo(ecu, h, e.sent);
    var s := Checked(ecu, h, [0x10, session]);
    if s.result.Ok? {
      var h1 := h + s.sent;
      var g := Checked(ecu, h1, [0x27, level]);
      if g.result.Ok? && |e.sent| == 3 {
        assert e.sent[..2] == s.sent + g.sent;
        assert rs[2] == ecu(h + e.sent[..3]);
        assert e.sent[..3] == e.sent[..2] + [e.sent[2]];
        assert h + e.sent[..3] == h1 + g.sent + [e.sent[2]];
      }
      if |e.sent| < 3 {
        assert e.result.Err?;
      }
    }
  }

  /** A level sends a prefix of its three requests; it succeeds exactly when
      all three were sent and every reply passed the negative-response check,
      and then the key is `derive` of the seed reply's payload. */
  lemma LevelRequests(ecu: Ecu, h: seq<Request>, session: Byte, level: Byte,
                      derive: seq<Byte> -> Result<seq<Byte>>)
    requires level < 255
    ensures var e := Level(ecu, h, session, level, derive);
            var rs := RepliesTo(ecu, h, e.sent);
            && 1 <= |e.sent| <= 3 && e.sent[0] == [0x10, session]
            && (|e.sent| >= 2 ==> e.sent[1] == [0x27, level] && AssertNotNrc(rs[0]).Ok?)
            && (|e.sent| == 3 ==>
                  && AssertNotNrc(rs[1]).Ok?
                  && GetData(DataOffs, rs[1]).Ok?
                  && derive(GetData(DataOffs, rs[1]).value).Ok?
                  && e.sent[2] == [0x27, level + 1] + derive(GetData(DataOffs, rs[1]).value).value)
            && (e.result.Ok? <==> |e.sent| == 3 && AssertNotNrc(rs[2]).Ok?)
  {
    LevelStarts(ecu, h, session, level, derive);
    LevelKey(ecu, h, session, level, derive);
    LevelSucceeds(ecu, h, session, level, derive);
  }

  /** No zero-seed short-cut: the all-zero seed `00 00` still gets its key
      `FF FF` sent at level 3. */
  lemma Level3ZeroSeed(ecu: Ecu, h: seq<Request>)
    requires AssertNotNrc(ecu(h + [[0x10, 3]])).Ok?
    requires ecu(h + [[0x10, 3], [0x27, 3]]) == [0x67, 3, 0, 0]
    ensures Level3(ecu, h).sent == [[0x10, 3], [0x27, 3], [0x27, 4, 0xff, 0xff]]
  {
    var reply := ecu(h + [[0x10, 3], [0x27, 3]]);
    var h1 := h + [[0x10, 3]];
    assert Checked(ecu, h, [0x10, 3]).sent == [[0x10, 3]];
    assert h1 + [[0x27, 3]] == h + [[0x10, 3], [0x27, 3]];
    assert Checked(ecu, h1, [0x27, 3]) == Exchange(Ok(reply), [[0x27, 3]]);
    assert GetData(DataOffs, reply) == Ok([0, 0]) by {
      assert reply[2..] == [0, 0];
    }
    Level3KeyComplements([0, 0]);
    assert Level3Key([0, 0]) == Ok([0xff, 0xff]);
    assert [0x27, 4] + [0xff, 0xff] == [0x27, 4, 0xff, 0xff];
  }

  /** `unlock(s)`: level 3, then level 1 after the level-3 requests; an
      exception at level 3 ends the unlock. */
  function Unlock(ecu: Ecu, h: seq<Request>): (e: Exchange<()>)
    ensures 1 <= |e.sent| <= 6 && e.sent[0] == [0x10, 3]
    ensures e.result.Ok? ==> |e.sent| == 6 && e.sent[3] == [0x10, 2]
  {
    var l3 := Level3(ecu, h);
    if l3.result.Err? then l3
    else Then(l3.sent, Level1(ecu, h + l3.sent))
  }

  /** A completed unlock sent six requests: `10 03`, `27 03`, the level-3
      key, `10 02`, `27 01`, the level-1 key. */
  lemma UnlockOrder(ecu: Ecu, h: seq<Request>)
    ensures var e := Unlock(ecu, h);
            && e.sent[0] == [0x10, 3]
            && (e.result.Ok? ==>
                  && |e.sent| == 6 && e.sent[1] == [0x27, 3] && e.sent[2][..2] == [0x27, 4]
                  && e.sent[3] == [0x10, 2] && e.sent[4] == [0x27, 1] && e.sent[5][..2] == [0x27, 2])
  {
    LevelRequests(ecu, h, 0x03, 0x03, Level3Key);
    var l3 := Level3(ecu, h);
    if l3.result.Ok? {
      LevelRequests(ecu, h + l3.sent, 0x02, 0x01, val => Ok(Level1Key(val)));
    }
  }
}
