/**
 Machine integers of the DSP header: value ranges, two's-complement casts, arithmetic
 right shifts and the saturating helpers every other module uses.

 A C cast to a narrower signed type is `Wrap8`/`Wrap16`/`Wrap32`/`Wrap64`, a cast to
 `uint32_t` is `U32Of`, and `x >> n` on a signed value is floor division by 2^n, which
 Dafny's `/` computes for a positive divisor.
 */
module FixedPoint {

  type Q7 = x: int | -0x80 <= x < 0x80
  type Q15 = x: int | -0x8000 <= x < 0x8000
  type Q31 = x: int | -0x8000_0000 <= x < 0x8000_0000
  type Q63 = x: int | -0x8000_0000_0000_0000 <= x < 0x8000_0000_0000_0000
  type U32 = x: int | 0 <= x < 0x1_0000_0000

  function Wrap8(x: int): Q7 { (x + 0x80) % 0x100 - 0x80 }

  function Wrap16(x: int): Q15 { (x + 0x8000) % 0x1_0000 - 0x8000 }

  function Wrap32(x: int): Q31 { (x + 0x8000_0000) % 0x1_0000_0000 - 0x8000_0000 }

  function Wrap64(x: int): Q63 {
    (x + 0x8000_0000_0000_0000) % 0x1_0000_0000_0000_0000 - 0x8000_0000_0000_0000
  }

  function U32Of(x: int): U32 { x % 0x1_0000_0000 }

  function Abs(x: int): nat { if x < 0 then -x else x }

  function Min(a: int, b: int): int { if a <= b then a else b }

  function Max(a: int, b: int): int { if a <= b then b else a }

  function Pow2(n: nat): (r: int)
    ensures 0 < r
  {
    if n == 0 then 1 else 2 * Pow2(n - 1)
  }

  /** The nearest value to `x` in the interval [lo, hi]: what saturation is meant to be. */
  function Clamp(x: int, lo: int, hi: int): int
    requires lo <= hi
  {
    if x < lo then lo else if hi < x then hi else x
  }

  function Clamp31(x: int): Q31 { Clamp(x, -0x8000_0000, 0x7FFF_FFFF) }

  function Clamp15(x: int): Q15 { Clamp(x, -0x8000, 0x7FFF) }

  /** `mask ^ sign` for a mask of the form 2^k - 1 and a sign word that is 0 or -1. */
  function FlipBySign(mask: int, sign: int): int
    requires sign == 0 || sign == -1
  {
    if sign == 0 then mask else -mask - 1
  }

  /** The test compares the upper word with the sign extension of the lower one. */
  function ClipQ63ToQ31(x: Q63): (r: Q31)
    ensures r == Clamp31(x)
  {
    if Wrap32(x / 0x1_0000_0000) != Wrap32(x) / 0x8000_0000
    then FlipBySign(0x7FFF_FFFF, x / 0x8000_0000_0000_0000)
    else Wrap32(x)
  }

  function ClipQ31ToQ15(x: Q31): (r: Q15)
    ensures r == Clamp15(x)
  {
    if x / 0x1_0000 != x / 0x8000 then FlipBySign(0x7FFF, x / 0x8000_0000) else Wrap16(x)
  }

  function ClipQ63ToQ15(x: Q63): Q15 {
    if Wrap32(x / 0x1_0000_0000) != Wrap32(x) / 0x8000_0000
    then FlipBySign(0x7FFF, x / 0x8000_0000_0000_0000)
    else Wrap16(x / 0x8000)
  }

  /**
   `clip_q63_to_q15` keeps the upper 16 bits of the lower word, but tests only whether the
   whole lower word is in range. It saturates correctly exactly outside two bands, in which
   the narrowing wraps to the opposite sign.
   */
  lemma ClipQ63ToQ15Exactness(x: Q63)
    ensures ClipQ63ToQ15(x) == Clamp15(x / 0x8000)
            <==> !(0x4000_0000 <= x < 0x8000_0000) && !(-0x8000_0000 <= x < -0x4000_0000)
    ensures 0x4000_0000 <= x < 0x8000_0000 ==> ClipQ63ToQ15(x) == x / 0x8000 - 0x1_0000
    ensures -0x8000_0000 <= x < -0x4000_0000 ==> ClipQ63ToQ15(x) == x / 0x8000 + 0x1_0000
    ensures ClipQ63ToQ15(0x4000_0000) == -0x8000
  {
    if -0x8000_0000 <= x < 0x8000_0000 {
      FitsInLowerWord(x);
      NarrowingWraps(x / 0x8000);
    } else {
      UsesUpperWord(x);
    }
  }

  lemma FitsInLowerWord(x: Q63)
    requires -0x8000_0000 <= x < 0x8000_0000
    ensures Wrap32(x / 0x1_0000_0000) == Wrap32(x) / 0x8000_0000
  {}

  lemma UsesUpperWord(x: Q63)
    requires !(-0x8000_0000 <= x < 0x8000_0000)
    ensures Wrap32(x / 0x1_0000_0000) != Wrap32(x) / 0x8000_0000
  {}

  lemma NarrowingWraps(v: int)
    requires -0x1_0000 <= v < 0x1_0000
    ensures Wrap16(v) == if v < -0x8000 then v + 0x1_0000 else if 0x8000 <= v then v - 0x1_0000 else v
  {}

  function ClipQ31ToQ7(x: Q31): Q7 {
    if x / 0x100_0000 != x / 0x80_0000 then FlipBySign(0x7F, x / 0x8000_0000) else Wrap8(x)
  }

  /**
   `clip_q31_to_q7` tests the upper eight bits where it should test the upper 24: between the
   two ranges it keeps the low byte, which is the limit for one value in 256 only.
   */
  lemma ClipQ31ToQ7Exactness(x: Q31)
    ensures ClipQ31ToQ7(x) == Clamp(x, -0x80, 0x7F)
            <==> || -0x80 <= x < 0x80
                 || !(-0x80_0000 <= x < 0x80_0000)
                 || x % 0x100 == (if x < 0 then 0x80 else 0x7F)
    ensures -0x80_0000 <= x < 0x80_0000 ==>
              ClipQ31ToQ7(x) == if x % 0x100 < 0x80 then x % 0x100 else x % 0x100 - 0x100
    ensures ClipQ31ToQ7(0x80) == -0x80
  {
    LowByte(x);
    assert -0x80_0000 <= x < 0x80_0000 <==> x / 0x100_0000 == x / 0x80_0000;
  }

  lemma LowByte(x: int)
    ensures Wrap8(x) == if x % 0x100 < 0x80 then x % 0x100 else x % 0x100 - 0x100
  {}

  /** `__SSAT(val, sat)` for a width in 1..32; other widths return the value unchanged. */
  function Ssat(val: Q31, sat: nat): (r: Q31)
    ensures 1 <= sat <= 32 ==> r == Clamp(val, -Pow2(sat - 1), Pow2(sat - 1) - 1)
    ensures !(1 <= sat <= 32) ==> r == val
  {
    if 1 <= sat <= 32 then
      Pow2Bound(sat - 1);
      var max := Pow2(sat - 1) - 1;
      var min := -1 - max;
      if val > max then max else if val < min then min else val
    else val
  }

  function Qadd(x: Q31, y: Q31): (r: Q31)
    ensures r == Clamp31(x + y)
  {
    ClipQ63ToQ31(x + y)
  }

  function Qsub(x: Q31, y: Q31): (r: Q31)
    ensures r == Clamp31(x - y)
  {
    ClipQ63ToQ31(x - y)
  }

  /** The two partial products never leave 64 bits, and together are the exact floor. */
  function Mult32x64(x: Q63, y: Q31): (r: int)
    ensures r == (x * y) / 0x1_0000_0000
    ensures -0x4000_0000_0000_0000 <= r <= 0x4000_0000_0000_0000
  {
    var low: U32 := x % 0x1_0000_0000;
    var high := x / 0x1_0000_0000;
    ScaleBound(low, 0x1_0000_0000, y, 0x8000_0000);
    ScaleBound(high, 0x8000_0000, y, 0x8000_0000);
    SplitProduct(x, y, low, high);
    ProductBound(x, y);
    var lowPart: Q63 := low * y;
    var highPart: Q63 := high * y;
    lowPart / 0x1_0000_0000 + highPart
  }

  lemma SplitProduct(x: int, y: int, low: int, high: int)
    requires x == high * 0x1_0000_0000 + low
    ensures (x * y) / 0x1_0000_0000 == (low * y) / 0x1_0000_0000 + high * y
  {}

  lemma ProductBound(x: Q63, y: Q31)
    ensures -0x4000_0000_0000_0000 <= (x * y) / 0x1_0000_0000 <= 0x4000_0000_0000_0000
  {
    ScaleBound(x, 0x8000_0000_0000_0000, y, 0x8000_0000);
  }

  // ---------------------------------------------------------------------------
  // Arithmetic facts shared by the proofs
  // ---------------------------------------------------------------------------

  lemma MulMono(a: int, b: int, c: int)
    requires a <= b && 0 <= c
    ensures a * c <= b * c
    ensures c * a <= c * b
  {}

  lemma MulNonNeg(a: int, b: int)
    requires 0 <= a && 0 <= b
    ensures 0 <= a * b
  {}

  lemma ScaleBound(a: int, p: int, b: int, q: int)
    requires Abs(a) <= p && Abs(b) <= q
    ensures Abs(a * b) <= p * q
  {}

  lemma Pow2At8()
    ensures Pow2(8) == 0x100
  {}

  lemma Pow2At14And15()
    ensures Pow2(14) == 0x4000 && Pow2(15) == 0x8000
  {
    var n := 7;
    assert Pow2(7) == 0x80;
    Pow2Add(n, n);
    assert Pow2(n + n + 1) == 2 * Pow2(n + n);
  }

  lemma Pow2At31And32()
    ensures Pow2(31) == 0x8000_0000 && Pow2(32) == 0x1_0000_0000
  {
    var n := 8;
    Pow2At8();
    Pow2Add(n, n);
    Pow2Add(n + n, n + n - 1);
    assert n + n + (n + n - 1) == 31;
    assert Pow2(n + n) == 2 * Pow2(n + n - 1);
  }

  lemma Pow2Bound(m: nat)
    requires m <= 31
    ensures Pow2(m) <= 0x8000_0000
  {
    Pow2Mono(m, 31);
    Pow2At31And32();
  }

  lemma Pow2Mono(m: nat, n: nat)
    requires m <= n
    ensures Pow2(m) <= Pow2(n)
    decreases n
  {}

  lemma {:induction false} Pow2Add(m: nat, n: nat)
    ensures Pow2(m + n) == Pow2(m) * Pow2(n)
    decreases n
  {
    if n > 0 {
      Pow2Add(m, n - 1);
      assert Pow2(m + n) == 2 * Pow2(m + (n - 1));
      DoubleFactor(Pow2(m), Pow2(n - 1));
    }
  }

  lemma DoubleFactor(a: int, p: int)
    ensures a * (2 * p) == 2 * (a * p)
  {}

  /** Floor division is characterised by its quotient and remainder. */
  lemma DivUnique(x: int, d: int, q: int, r: int)
    requires 0 < d && 0 <= r < d && x == q * d + r
    ensures x / d == q && x % d == r
  {
    var q', r' := x / d, x % d;
    assert x == q' * d + r';
    assert (q - q') * d == r' - r by {
      assert q * d - q' * d == (q - q') * d;
    }
    if q > q' {
      MulMono(1, q - q', d);
      assert false;
    } else if q < q' {
      MulMono(1, q' - q, d);
      assert false;
    }
  }
}
