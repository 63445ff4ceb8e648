/** Recovering the data hidden in the least significant bits of a WAV
    file's sample bytes: each block of frames becomes a string of binary
    digits, read as one number and written out big-endian. */
module SadCarNoises {
  import opened Bits
  import opened Wire

  // The bit string.

  /** `str(int(b & 1))`; for a byte, `b & 1` is `b % 2`. */
  function LsbChar(b: Byte): char
  {
    if b % 2 == 0 then '0' else '1'
  }

  /** `''.join(str(int(b & 1)) for b in data)`. */
  function LsbString(data: seq<Byte>): (s: string)
    ensures |s| == |data|
  {
    seq(|data|, i requires 0 <= i < |data| => LsbChar(data[i]))
  }

  lemma LsbStringAppend(a: seq<Byte>, b: seq<Byte>)
    ensures LsbString(a + b) == LsbString(a) + LsbString(b)
  {
  }

  predicate IsBinary(s: string)
  {
    forall i :: 0 <= i < |s| ==> s[i] == '0' || s[i] == '1'
  }

  /** The number a string of binary digits denotes, most significant digit
      first. */
  function Base2Value(s: string): (v: nat)
    ensures v < Pow2(|s|)
  {
    if s == [] then 0
    else 2 * Base2Value(s[..|s| - 1]) + (if s[|s| - 1] == '1' then 1 else 0)
  }

  /** `int(s, 2)` on strings of binary digits; the empty string, and any
      other character, raise ValueError. */
  function ParseBase2(s: string): (r: Result<nat>)
    ensures s == [] ==> r == Err(ValueError)
    ensures r.Ok? ==> r.value < Pow2(|s|)
    ensures r.Err? ==> r.error == ValueError
  {
    if s != [] && IsBinary(s) then Ok(Base2Value(s)) else Err(ValueError)
  }

  /** Appending digits shifts the digits before them left. */
  lemma {:induction false} Base2Append(s: string, t: string)
    ensures Base2Value(s + t) == Base2Value(s) * Pow2(|t|) + Base2Value(t)
    decreases |t|
  {
    if t == [] {
      assert s + t == s;
    } else {
      var t' := t[..|t| - 1];
      assert (s + t)[..|s + t| - 1] == s + t';
      Base2Append(s, t');
      var d := if t[|t| - 1] == '1' then 1 else 0;
      calc {
        Base2Value(s + t);
        2 * Base2Value(s + t') + d;
        2 * (Base2Value(s) * Pow2(|t'|) + Base2Value(t')) + d;
        { MulDouble(Base2Value(s), Pow2(|t'|)); }
        Base2Value(s) * Pow2(|t|) + Base2Value(t);
      }
    }
  }

  /** The same bits as a sum: the lowest bit of `data[i]` has the weight
      `2^(|data| - 1 - i)`, so the first byte gives the most significant bit. */
  function LsbValue(data: seq<Byte>): nat
  {
    if data == [] then 0 else (data[0] % 2) * Pow2(|data| - 1) + LsbValue(data[1..])
  }

  /** Reading the digit string gives the weighted sum of the lowest bits. */
  lemma {:induction false} LsbStringValue(data: seq<Byte>)
    ensures Base2Value(LsbString(data)) == LsbValue(data)
    decreases |data|
  {
    if data != [] {
      var head := data[..1];
      var tail := data[1..];
      assert data == head + tail;
      LsbStringAppend(head, tail);
      Base2Append(LsbString(head), LsbString(tail));
      LsbStringValue(tail);
      assert LsbString(head)[..0] == [];
      assert Base2Value(LsbString(head)) == data[0] % 2;
    }
  }

  // Big-endian bytes.

  /** `v.to_bytes(n, byteorder='big')` for a value that fits. */
  function BigEndian(v: nat, n: nat): (r: seq<Byte>)
    ensures |r| == n
  {
    if n == 0 then [] else BigEndian(v / 256, n - 1) + [v % 256]
  }

  /** `v.to_bytes(n, byteorder='big')`: OverflowError when `v` does not fit
      in `n` bytes. */
  function ToBytes(v: nat, n: nat): (r: Result<seq<Byte>>)
    ensures r.Err? <==> v >= Pow2(8 * n)
    ensures r.Err? ==> r.error == OverflowError
    ensures r.Ok? ==> |r.value| == n && FromBytes(r.value) == v
  {
    if v < Pow2(8 * n) then
      BigEndianRoundTrip(v, n);
      Ok(BigEndian(v, n))
    else Err(OverflowError)
  }

  /** `int.from_bytes(bs, byteorder='big')`. */
  function FromBytes(bs: seq<Byte>): nat
  {
    if bs == [] then 0 else 256 * FromBytes(bs[..|bs| - 1]) + bs[|bs| - 1]
  }

  lemma Pow2Byte(n: nat)
    requires n > 0
    ensures Pow2(8 * n) == 256 * Pow2(8 * (n - 1))
  {
    Pow2Eight();
    Pow2Add(8, 8 * (n - 1));
    assert 8 * n == 8 + 8 * (n - 1);
  }

  /** Reading the bytes back gives the value. */
  lemma {:induction false} BigEndianRoundTrip(v: nat, n: nat)
    requires v < Pow2(8 * n)
    ensures FromBytes(BigEndian(v, n)) == v
    decreases n
  {
    if n > 0 {
      Pow2Byte(n);
      DivModSpec(v, 256);
      assert v / 256 < Pow2(8 * (n - 1));
      BigEndianRoundTrip(v / 256, n - 1);
      var r := BigEndian(v, n);
      assert r[..n - 1] == BigEndian(v / 256, n - 1);
    }
  }

  /** The bytes of `x` shifted left by `m` bytes with `y` below it are the
      bytes of `x` followed by the `m` bytes of `y`. */
  lemma {:induction false} BigEndianAppend(x: nat, y: nat, k: nat, m: nat)
    requires y < Pow2(8 * m)
    ensures BigEndian(x * Pow2(8 * m) + y, k + m) == BigEndian(x, k) + BigEndian(y, m)
    decreases m
  {
    if m == 0 {
      assert x * Pow2(0) == x;
    } else {
      Pow2Byte(m);
      var p := Pow2(8 * (m - 1));
      DivModSpec(y, 256);
      var v := x * Pow2(8 * m) + y;
      assert v == (x * p + y / 256) * 256 + y % 256 by {
        assert x * Pow2(8 * m) == (x * p) * 256;
      }
      DivModUnique(v, 256, x * p + y / 256, y % 256);
      assert y / 256 < p;
      BigEndianAppend(x, y / 256, k, m - 1);
    }
  }

  // The decoder.

  /** `decode(data)`: the digit string of the lowest bits, `int(s, 2)`, and
      `to_bytes((len(s) + 7) // 8, byteorder='big')`. */
  function Decode(data: seq<Byte>): (r: Result<seq<Byte>>)
    ensures data == [] ==> r == Err(ValueError)
    ensures r.Ok? ==> |r.value| == CeilDiv(|data|, 8) <= |data|
  {
    var s := LsbString(data);
    match ParseBase2(s)
    case Err(e) => Err(e)
    case Ok(v) => ToBytes(v, (|s| + 7) / 8)
  }

  lemma Pow2Mono(a: nat, b: nat)
    requires a <= b
    ensures Pow2(a) <= Pow2(b)
  {
    Pow2Add(a, b - a);
    MulBounds(Pow2(b - a), Pow2(a));
  }

  /** Decoding fails exactly on the empty input, with ValueError, and never
      with OverflowError; otherwise it yields `ceil(|data| / 8)` bytes whose
      big-endian value is the weighted sum of the lowest bits, so it is
      zero-padded at the front. */
  lemma DecodeResult(data: seq<Byte>)
    ensures Decode(data).Ok? <==> data != []
    ensures Decode(data).Err? ==> Decode(data).error == ValueError
    ensures Decode(data).Ok? ==>
              && |Decode(data).value| == CeilDiv(|data|, 8)
              && FromBytes(Decode(data).value) == LsbValue(data)
              && LsbValue(data) < Pow2(|data|)
  {
    var s := LsbString(data);
    assert IsBinary(s);
    if data != [] {
      var n := (|s| + 7) / 8;
      Pow2Mono(|s|, 8 * n);
      BigEndianRoundTrip(Base2Value(s), n);
      LsbStringValue(data);
    }
  }

  /** Only the lowest bit of each input byte matters. */
  lemma DecodeLsbOnly(a: seq<Byte>, b: seq<Byte>)
    requires |a| == |b|
    requires forall i :: 0 <= i < |a| ==> a[i] % 2 == b[i] % 2
    ensures Decode(a) == Decode(b)
  {
    assert LsbString(a) == LsbString(b);
  }

  /** With a multiple of eight input bytes each output byte packs the lowest
      bits of eight consecutive input bytes, the first of them as its most
      significant bit. */
  lemma DecodePacks(data: seq<Byte>, i: nat)
    requires |data| % 8 == 0 && i < |data| / 8
    ensures Decode(data).Ok?
    ensures var d := data[8 * i..8 * i + 8];
            Decode(data).value[i] ==
              128 * (d[0] % 2) + 64 * (d[1] % 2) + 32 * (d[2] % 2) + 16 * (d[3] % 2)
              + 8 * (d[4] % 2) + 4 * (d[5] % 2) + 2 * (d[6] % 2) + d[7] % 2
  {
    DecodeResult(data);
    var k := |data| / 8;
    assert (|data| + 7) / 8 == k;
    BigEndianGroup(data, k, i);
    var d := data[8 * i..8 * i + 8];
    LsbStringValue(d);
    LsbValueEight(d);
  }

  lemma LsbValueEight(d: seq<Byte>)
    requires |d| == 8
    ensures LsbValue(d) ==
              128 * (d[0] % 2) + 64 * (d[1] % 2) + 32 * (d[2] % 2) + 16 * (d[3] % 2)
              + 8 * (d[4] % 2) + 4 * (d[5] % 2) + 2 * (d[6] % 2) + d[7] % 2
  {
    assert d[8..] == [];
    assert Pow2(1) == 2 && Pow2(2) == 4 && Pow2(3) == 8 && Pow2(4) == 16;
    assert Pow2(5) == 32 && Pow2(6) == 64 && Pow2(7) == 128;
    var v7 := LsbValueFrom(d, 7, 1, 0);
    var v6 := LsbValueFrom(d, 6, 2, v7);
    var v5 := LsbValueFrom(d, 5, 4, v6);
    var v4 := LsbValueFrom(d, 4, 8, v5);
    var v3 := LsbValueFrom(d, 3, 16, v4);
    var v2 := LsbValueFrom(d, 2, 32, v3);
    var v1 := LsbValueFrom(d, 1, 64, v2);
    var v0 := LsbValueFrom(d, 0, 128, v1);
    assert d[0..] == d;
  }

  /** One step of the sum, from the `i`-th byte on, whose weight is `w`. */
  lemma LsbValueFrom(d: seq<Byte>, i: nat, w: nat, rest: nat) returns (v: nat)
    requires i < |d| && w == Pow2(|d| - 1 - i)
    requires LsbValue(d[i + 1..]) == rest
    ensures v == LsbValue(d[i..])
    ensures v == (d[i] % 2) * w + rest
  {
    assert d[i..][1..] == d[i + 1..];
    v := LsbValue(d[i..]);
  }

  /** Output byte `i` of `8k` bits is the value of the `i`-th group of eight. */
  lemma {:induction false} BigEndianGroup(data: seq<Byte>, k: nat, i: nat)
    requires |data| == 8 * k && i < k
    ensures BigEndian(Base2Value(LsbString(data)), k)[i] == Base2Value(LsbString(data[8 * i..8 * i + 8]))
    decreases k
  {
    var n, lo := 8 * (k - 1), 8 * i;
    var front := data[..n];
    var last := data[n..];
    assert data == front + last;
    ConcatValues(front, last, k - 1, 1);
    var w := Base2Value(LsbString(last));
    OneByte(w);
    if i < k - 1 {
      BigEndianGroup(front, k - 1, i);
      assert front[lo..lo + 8] == data[lo..lo + 8];
    } else {
      assert last == data[lo..lo + 8];
    }
  }

  lemma OneByte(w: nat)
    requires w < Pow2(8)
    ensures BigEndian(w, 1) == [w]
  {
    Pow2Eight();
    DivModUnique(w, 256, 0, w);
  }

  /** Blocks whose lengths are multiples of eight decode to the decoding of
      their concatenation: decoding frame block by frame block loses
      nothing. */
  lemma DecodeConcat(a: seq<Byte>, b: seq<Byte>)
    requires a != [] && b != [] && |a| % 8 == 0 && |b| % 8 == 0
    ensures Decode(a).Ok? && Decode(b).Ok?
    ensures Decode(a + b) == Ok(Decode(a).value + Decode(b).value)
  {
    var na, m := |a| / 8, |b| / 8;
    WholeBytes(|a|, |b|);
    DecodeOk(a, na);
    DecodeOk(b, m);
    DecodeOk(a + b, na + m);
    ConcatValues(a, b, na, m);
  }

  lemma ConcatValues(a: seq<Byte>, b: seq<Byte>, na: nat, m: nat)
    requires |a| == 8 * na && |b| == 8 * m
    ensures BigEndian(Base2Value(LsbString(a + b)), na + m)
            == BigEndian(Base2Value(LsbString(a)), na) + BigEndian(Base2Value(LsbString(b)), m)
  {
    LsbStringAppend(a, b);
    Base2Append(LsbString(a), LsbString(b));
    assert |LsbString(b)| == 8 * m;
    BigEndianAppend(Base2Value(LsbString(a)), Base2Value(LsbString(b)), na, m);
  }

  /** A non-empty input decodes to the big-endian bytes of its digit string. */
  lemma DecodeOk(data: seq<Byte>, n: nat)
    requires data != [] && n == (|data| + 7) / 8
    ensures Decode(data) == Ok(BigEndian(Base2Value(LsbString(data)), n))
  {
    DecodeResult(data);
  }

  lemma WholeBytes(a: nat, b: nat)
    requires a % 8 == 0 && b % 8 == 0
    ensures b == 8 * (b / 8)
    ensures (a + 7) / 8 == a / 8 && (b + 7) / 8 == b / 8
    ensures a == 8 * (a / 8)
    ensures (a + b + 7) / 8 == a / 8 + b / 8
  {
  }

  // The file loop.

  /** What the `readframes(SIZE)` calls return in turn; once the given
      blocks are used up the file is at its end and gives empty bytes. */
  function ReadAt(blocks: seq<seq<Byte>>, i: nat): seq<Byte>
  {
    if i < |blocks| then blocks[i] else []
  }

  /** What is written to the output file: the decoded blocks up to the first
      block that decoding rejects. */
  function Written(blocks: seq<seq<Byte>>): (w: seq<Byte>)
    ensures |w| <= |Flatten(blocks)|
    ensures blocks != [] && Decode(blocks[0]).Ok? ==> Decode(blocks[0]).value <= w
    decreases |blocks|
  {
    if blocks == [] then []
    else
      match Decode(blocks[0])
      case Err(_) => []
      case Ok(out) => out + Written(blocks[1..])
  }

  /** The loop: read, decode and write until decoding raises ValueError. */
  method DecodeFile(blocks: seq<seq<Byte>>) returns (written: seq<Byte>)
    ensures written == Written(blocks)
  {
    written := [];
    var i := 0;
    assert blocks[0..] == blocks;
    while true
      invariant 0 <= i <= |blocks|
      invariant Written(blocks) == written + Written(blocks[i..])
      decreases |blocks| - i
    {
      var data := ReadAt(blocks, i);
      WrittenStep(blocks, i, written);
      var d := Decode(data);
      if d.Err? {
        break;
      }
      written := written + d.value;
      i := i + 1;
    }
  }

  /** One pass of the loop, after `done` has been written: a block that
      decodes is written before the rest, and a block that does not ends the
      output. */
  lemma WrittenStep(blocks: seq<seq<Byte>>, i: nat, done: seq<Byte>)
    requires i <= |blocks|
    ensures Decode(ReadAt(blocks, i)).Err? ==> Written(blocks[i..]) == []
    ensures Decode(ReadAt(blocks, i)).Ok? ==>
              && i < |blocks|
              && Written(blocks[i..]) == Decode(blocks[i]).value + Written(blocks[i + 1..])
              && done + Written(blocks[i..]) == (done + Decode(blocks[i]).value) + Written(blocks[i + 1..])
  {
    if i == |blocks| {
      DecodeResult([]);
    } else {
      assert blocks[i..][0] == blocks[i];
      assert blocks[i..][1..] == blocks[i + 1..];
    }
  }

  /** The first empty read ends the output: nothing after it is written. */
  lemma {:induction false} WrittenStops(before: seq<seq<Byte>>, after: seq<seq<Byte>>)
    ensures Written(before + [[]] + after) == Written(before)
    decreases |before|
  {
    DecodeResult([]);
    if before != [] {
      assert (before + [[]] + after)[1..] == before[1..] + [[]] + after;
      WrittenStops(before[1..], after);
    }
  }

  /** All the blocks, one after the other. */
  function Flatten(blocks: seq<seq<Byte>>): seq<Byte>
  {
    if blocks == [] then [] else blocks[0] + Flatten(blocks[1..])
  }

  /** When every block read holds a positive multiple of eight bytes, the
      file written is the decoding of the whole stream. */
  lemma {:induction false} WrittenWhole(blocks: seq<seq<Byte>>)
    requires blocks != []
    requires forall i :: 0 <= i < |blocks| ==> blocks[i] != [] && |blocks[i]| % 8 == 0
    ensures Decode(Flatten(blocks)).Ok?
    ensures Written(blocks) == Decode(Flatten(blocks)).value
    decreases |blocks|
  {
    DecodeResult(blocks[0]);
    if |blocks| == 1 {
      assert Flatten(blocks) == blocks[0] by { assert blocks[0] + [] == blocks[0]; }
      assert Written(blocks) == Decode(blocks[0]).value + [];
    } else {
      var rest := blocks[1..];
      WrittenWhole(rest);
      FlattenLength(rest);
      DecodeConcat(blocks[0], Flatten(rest));
    }
  }

  lemma {:induction false} FlattenLength(blocks: seq<seq<Byte>>)
    requires blocks != []
    requires forall i :: 0 <= i < |blocks| ==> blocks[i] != [] && |blocks[i]| % 8 == 0
    ensures Flatten(blocks) != [] && |Flatten(blocks)| % 8 == 0
    decreases |blocks|
  {
    if |blocks| > 1 {
      FlattenLength(blocks[1..]);
    }
  }
}
