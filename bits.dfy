/** Python's integer bit operators on non-negative integers, and bytes.
    Python integers are unbounded, so `^` and `|` are defined bit by bit on
    `nat` rather than on a fixed-width bit-vector. */
module Bits {

  /** One byte of a Python `bytes` object. */
  type Byte = b: int | 0 <= b < 256

  /** A 16-bit and a 32-bit unsigned value (what `struct` packs with '>H', '>I'). */
  type U16 = x: nat | x < 0x1_0000
  type U32 = x: nat | x < 0x1_0000_0000

  function Pow2(n: nat): (r: nat)
    ensures r >= 1
  {
    if n == 0 then 1 else 2 * Pow2(n - 1)
  }

  lemma Pow2Values()
    ensures Pow2(8) == 0x100 && Pow2(16) == 0x1_0000 && Pow2(32) == 0x1_0000_0000
  {
    Pow2Eight();
    assert Pow2(16) == 0x1_0000 by { Pow2Add(8, 8); }
    assert Pow2(32) == 0x1_0000_0000 by { Pow2Add(16, 16); }
  }

  lemma Pow2Eight()
    ensures Pow2(8) == 256
  {
    assert Pow2(4) == 16;
  }

  lemma {:induction false} Pow2Add(m: nat, n: nat)
    ensures Pow2(m + n) == Pow2(m) * Pow2(n)
  {
    if m > 0 {
      Pow2Add(m - 1, n);
    }
  }

  /** Python's `a ^ b` for non-negative `a` and `b`. */
  function Xor(a: nat, b: nat): nat
    decreases a + b
  {
    if a == 0 then b
    else if b == 0 then a
    else 2 * Xor(a / 2, b / 2) + XorBit(a, b)
  }

  /** The exclusive-or of the lowest bits of `a` and `b`. */
  function XorBit(a: nat, b: nat): nat
  {
    if a % 2 == b % 2 then 0 else 1
  }

  /** Python's `a | b` for non-negative `a` and `b`. */
  function Or(a: nat, b: nat): nat
    decreases a + b
  {
    if a == 0 then b
    else if b == 0 then a
    else 2 * Or(a / 2, b / 2) + (if a % 2 == 1 || b % 2 == 1 then 1 else 0)
  }

  /** The defining equation of `Xor` holds for every pair, zeros included. */
  lemma XorUnfold(a: nat, b: nat)
    ensures Xor(a, b) == 2 * Xor(a / 2, b / 2) + XorBit(a, b)
  {
    if a == 0 {
      assert Xor(a / 2, b / 2) == b / 2;
    } else if b == 0 {
      assert Xor(a / 2, b / 2) == a / 2;
    }
  }

  lemma OrUnfold(a: nat, b: nat)
    ensures Or(a, b) == 2 * Or(a / 2, b / 2) + (if a % 2 == 1 || b % 2 == 1 then 1 else 0)
  {
    if a == 0 {
      assert Or(a / 2, b / 2) == b / 2;
    } else if b == 0 {
      assert Or(a / 2, b / 2) == a / 2;
    }
  }

  /** Exclusive-or with the same value twice gives back the original. */
  lemma {:induction false} XorSelfInverse(a: nat, b: nat)
    ensures Xor(Xor(a, b), b) == a
    decreases a + b
  {
    if a + b > 0 {
      var c := Xor(a, b);
      XorUnfold(a, b);
      XorUnfold(c, b);
      assert c / 2 == Xor(a / 2, b / 2);
      assert c % 2 == XorBit(a, b);
      XorSelfInverse(a / 2, b / 2);
    }
  }

  lemma {:induction false} XorBound(a: nat, b: nat, n: nat)
    requires a < Pow2(n) && b < Pow2(n)
    ensures Xor(a, b) < Pow2(n)
  {
    XorUnfold(a, b);
    if n > 0 {
      XorBound(a / 2, b / 2, n - 1);
    }
  }

  /** Bytes are closed under exclusive-or. */
  function XorByte(a: Byte, b: Byte): (r: Byte)
    ensures Xor(r, b) == a
  {
    Pow2Values();
    XorBound(a, b, 8);
    XorSelfInverse(a, b);
    Xor(a, b)
  }

  /** 32-bit words are closed under exclusive-or. */
  function XorWord(a: U32, b: U32): (r: U32)
    ensures Xor(r, b) == a
  {
    Pow2Values();
    XorBound(a, b, 32);
    XorSelfInverse(a, b);
    Xor(a, b)
  }

  /** The low `n` bits of `a ^ b` depend only on the low `n` bits of `a` and `b`. */
  lemma {:induction false} XorLowBits(a: nat, b: nat, n: nat)
    ensures Xor(a, b) % Pow2(n) == Xor(a % Pow2(n), b % Pow2(n))
  {
    if n > 0 {
      var p, P := Pow2(n - 1), Pow2(n);
      var a', b' := a % P, b % P;
      var y := Xor(a / 2, b / 2);
      HalfMod(a, n);
      HalfMod(b, n);
      calc {
        Xor(a', b');
        { XorUnfold(a', b'); }
        2 * Xor(a' / 2, b' / 2) + XorBit(a', b');
        2 * Xor((a / 2) % p, (b / 2) % p) + XorBit(a, b);
        { XorLowBits(a / 2, b / 2, n - 1); }
        2 * (y % p) + XorBit(a, b);
        { DoubleMod(y, XorBit(a, b), p); }
        (2 * y + XorBit(a, b)) % P;
        { XorUnfold(a, b); }
        Xor(a, b) % P;
      }
    }
  }

  /** The low byte of `a ^ k`, for a byte `k`. */
  lemma XorLowByte(a: nat, k: Byte)
    ensures Xor(a, k) % 256 == Xor(a % 256, k)
  {
    XorLowBits(a, k, 8);
    Pow2Eight();
    DivModUnique(k, 256, 0, k);
  }

  lemma DoubleMod(y: nat, c: nat, p: nat)
    requires c < 2 && p > 0
    ensures (2 * y + c) % (2 * p) == 2 * (y % p) + c
  {
    DivModSpec(y, p);
    DivModUnique(2 * y + c, 2 * p, y / p, 2 * (y % p) + c);
  }

  /** Halving commutes with taking the low `n` bits, one bit fewer. */
  lemma HalfMod(x: nat, n: nat)
    requires n > 0
    ensures (x % Pow2(n)) / 2 == (x / 2) % Pow2(n - 1)
    ensures (x % Pow2(n)) % 2 == x % 2
  {
    var p := Pow2(n - 1);
    assert Pow2(n) == 2 * p;
    var q, r := x / (2 * p), x % (2 * p);
    DivModSpec(x, 2 * p);
    MulDouble(q, p);
    DivModSpec(r, 2);
    DivModUnique(x, 2, q * p + r / 2, r % 2);
    DivModUnique(x / 2, p, q, r / 2);
  }

  lemma DivModSpec(x: int, d: int)
    requires d > 0
    ensures x == (x / d) * d + x % d && 0 <= x % d < d
  {
  }

  /** Quotient and remainder are determined by `x == q * d + r` with `0 <= r < d`. */
  lemma DivModUnique(x: int, d: int, q: int, r: int)
    requires d > 0 && 0 <= r < d && x == q * d + r
    ensures x / d == q && x % d == r
  {
    DivModSpec(x, d);
    var k := x / d - q;
    assert k * d == r - x % d;
    MulBounds(k, d);
  }

  lemma MulBounds(k: int, d: int)
    requires d > 0
    ensures k >= 1 ==> k * d >= d
    ensures k <= -1 ==> k * d <= -d
  {
  }

  /** An `n`-bit value exclusive-ored with its complement in `n` bits gives all ones. */
  lemma {:induction false} XorComplement(x: nat, n: nat)
    requires x < Pow2(n)
    ensures Xor(Pow2(n) - 1 - x, x) == Pow2(n) - 1
  {
    if n > 0 {
      var y := Pow2(n) - 1 - x;
      XorUnfold(y, x);
      assert y / 2 == Pow2(n - 1) - 1 - x / 2;
      XorComplement(x / 2, n - 1);
    }
  }

  /** `a | (b << k)` is `a + (b << k)` when `a` fits in `k` bits: the bits do not overlap. */
  lemma {:induction false} OrDisjoint(a: nat, b: nat, k: nat)
    requires a < Pow2(k)
    ensures Or(a, b * Pow2(k)) == a + b * Pow2(k)
  {
    if k > 0 {
      var c := b * Pow2(k - 1);
      MulDouble(b, Pow2(k - 1));
      assert b * Pow2(k) == 2 * c;
      DivModUnique(2 * c, 2, c, 0);
      OrUnfold(a, 2 * c);
      DivModSpec(a, 2);
      OrDisjoint(a / 2, b, k - 1);
    } else {
      assert a == 0;
    }
  }

  lemma MulDouble(x: int, y: int)
    ensures x * (2 * y) == 2 * (x * y)
  {
  }
}
