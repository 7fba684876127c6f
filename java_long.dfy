/**
 * Java's 64-bit signed `long`: its range, its two's-complement bit pattern,
 * the `^` operator, wrap-around, and Math.abs.
 *
 * Bit patterns are written as unsigned integers below 2^64 and `^` is defined
 * bit by bit on them, so that all reasoning stays in integer arithmetic.
 */
module JavaLong {

  const MinLong: int := -0x8000_0000_0000_0000
  const MaxLong: int := 0x7FFF_FFFF_FFFF_FFFF
  const TwoTo64: int := 0x1_0000_0000_0000_0000

  /** The values a Java `long` can hold. */
  type Long = x: int | MinLong <= x <= MaxLong

  function Pow2(k: nat): (p: nat)
    ensures p > 0
  {
    if k == 0 then 1 else 2 * Pow2(k - 1)
  }

  lemma {:induction false} Pow2Add(a: nat, b: nat)
    ensures Pow2(a + b) == Pow2(a) * Pow2(b)
  {
    if a > 0 {
      Pow2Add(a - 1, b);
      assert Pow2(a + b) == 2 * Pow2(a - 1 + b);
    }
  }

  /** A bit pattern has 64 bits. */
  lemma Pow2Of64()
    ensures Pow2(64) == TwoTo64
  {
    assert Pow2(2) == 4;
    Pow2Add(2, 2);
    assert Pow2(4) == 0x10;
    Pow2Add(4, 4);
    assert Pow2(8) == 0x100;
    Pow2Add(8, 8);
    assert Pow2(16) == 0x1_0000;
    Pow2Add(16, 16);
    assert Pow2(32) == 0x1_0000_0000;
    Pow2Add(32, 32);
  }

  /** The bit pattern of `a`, read as an unsigned number. */
  function ToUnsigned(a: Long): (u: nat)
    ensures u < TwoTo64
    ensures (u - a) % TwoTo64 == 0
    ensures a < 0 <==> u > MaxLong
  {
    if a < 0 then a + TwoTo64 else a
  }

  /** The `long` whose bit pattern, read unsigned, is `u`. */
  function FromUnsigned(u: int): (r: Long)
    requires 0 <= u < TwoTo64
    ensures ToUnsigned(r) == u
    ensures (r - u) % TwoTo64 == 0
  {
    if u <= MaxLong then u else u - TwoTo64
  }

  /** The bitwise exclusive or of the lowest `k` bits of `x` and `y`. */
  function XorBits(x: nat, y: nat, k: nat): (z: nat)
    ensures z < Pow2(k)
  {
    if k == 0 then 0
    else 2 * XorBits(x / 2, y / 2, k - 1) + (if x % 2 == y % 2 then 0 else 1)
  }

  /**
   * Java's `a ^ b` on longs: exclusive or of the two bit patterns. The sign
   * bit of the result is the exclusive or of the two sign bits.
   */
  function Xor(a: Long, b: Long): (r: Long)
    ensures r < 0 <==> (a < 0) != (b < 0)
  {
    Pow2Of64();
    XorBitsTop(ToUnsigned(a), ToUnsigned(b), 64);
    FromUnsigned(XorBits(ToUnsigned(a), ToUnsigned(b), 64))
  }

  /** The top bit of a `k`-bit exclusive or is set exactly when the top bits of the operands differ. */
  lemma {:induction false} XorBitsTop(x: nat, y: nat, k: nat)
    requires k >= 1 && x < Pow2(k) && y < Pow2(k)
    ensures XorBits(x, y, k) >= Pow2(k - 1) <==> (x >= Pow2(k - 1)) != (y >= Pow2(k - 1))
  {
    if k >= 2 {
      var p := Pow2(k - 2);
      assert Pow2(k - 1) == 2 * p && Pow2(k) == 2 * Pow2(k - 1);
      XorBitsTop(x / 2, y / 2, k - 1);
      assert x / 2 >= p <==> x >= 2 * p;
      assert y / 2 >= p <==> y >= 2 * p;
    }
  }

  /**
   * Flipping only the top bit: `x` and `x` with its top bit set differ in
   * that bit alone.
   */
  lemma {:induction false} XorBitsTopOnly(x: nat, k: nat)
    requires k >= 1 && x < Pow2(k - 1)
    ensures XorBits(x, Pow2(k - 1) + x, k) == Pow2(k - 1)
  {
    if k >= 2 {
      var p := Pow2(k - 2);
      assert Pow2(k - 1) == 2 * p;
      assert (2 * p + x) / 2 == p + x / 2 && (2 * p + x) % 2 == x % 2;
      XorBitsTopOnly(x / 2, k - 1);
    }
  }

  /** A non-negative `a` and `a` with the sign bit set XOR to the most negative long. */
  lemma XorSignBitOnly(a: Long)
    requires 0 <= a
    ensures Xor(a, MinLong + a) == MinLong
  {
    Pow2Of64();
    assert Pow2(63) * 2 == Pow2(64);
    assert ToUnsigned(MinLong + a) == Pow2(63) + a;
    XorBitsTopOnly(a, 64);
  }

  lemma {:induction false} XorBitsSelf(x: nat, k: nat)
    ensures XorBits(x, x, k) == 0
  {
    if k > 0 {
      XorBitsSelf(x / 2, k - 1);
    }
  }

  lemma {:induction false} XorBitsZero(x: nat, k: nat)
    requires x < Pow2(k)
    ensures XorBits(x, 0, k) == x
  {
    if k > 0 {
      XorBitsZero(x / 2, k - 1);
    }
  }

  lemma {:induction false} XorBitsSymmetric(x: nat, y: nat, k: nat)
    ensures XorBits(x, y, k) == XorBits(y, x, k)
  {
    if k > 0 {
      XorBitsSymmetric(x / 2, y / 2, k - 1);
    }
  }

  /** `a ^ a == 0`. */
  lemma XorSelf(a: Long)
    ensures Xor(a, a) == 0
  {
    XorBitsSelf(ToUnsigned(a), 64);
  }

  /** `a ^ 0 == a`. */
  lemma XorZero(a: Long)
    ensures Xor(a, 0) == a
  {
    Pow2Of64();
    XorBitsZero(ToUnsigned(a), 64);
  }

  /** `a ^ b == b ^ a`. */
  lemma XorSymmetric(a: Long, b: Long)
    ensures Xor(a, b) == Xor(b, a)
  {
    XorBitsSymmetric(ToUnsigned(a), ToUnsigned(b), 64);
  }

  /** The `long` that an arithmetic result `v` wraps around to. */
  function Wrap(v: int): (r: Long)
    ensures (r - v) % TwoTo64 == 0
    ensures MinLong <= v <= MaxLong ==> r == v
  {
    (v - MinLong) % TwoTo64 + MinLong
  }

  /**
   * Math.abs(long): `a < 0 ? -a : a`, where the negation wraps, so the
   * absolute value of the most negative long is that long itself.
   */
  function Abs(a: Long): (r: Long)
    ensures a != MinLong ==> r >= 0 && (r == a || r == -a)
    ensures a == MinLong ==> r == MinLong
  {
    if a < 0 then Wrap(-(a as int)) else a
  }
}
