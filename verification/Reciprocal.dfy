/**
 The fixed-point reciprocals `arm_recip_q31` and `arm_recip_q15`: normalise the input by its
 leading zeros, look a seed up, refine it with two Newton-Raphson iterations.

 The residual of an estimate `y` for a normalised input `x` is `2^61 - x*y` (Q31) or
 `2^29 - x*y` (Q15): zero exactly when `y` is the true reciprocal at that scale.
 */
module Reciprocal {
  import opened FixedPoint
  import opened BitLoops

  // ---------------------------------------------------------------------------
  // One iteration, at either width
  // ---------------------------------------------------------------------------

  /** One iteration of the Q31 loop body, with every cast of the source. */
  function Iterate31(x: Q31, y: Q31): Q31 {
    ScaleBound(x, 0x8000_0000, y, 0x8000_0000);
    var product: Q63 := x * y;
    var temp := U32Of(0x7FFF_FFFF - U32Of(product / 0x8000_0000));
    ScaleBound(y, 0x8000_0000, temp, 0xFFFF_FFFF);
    var refined: Q63 := y * temp;
    ClipQ63ToQ31(refined / 0x4000_0000)
  }

  /** One iteration of the Q15 loop body: the product is unsigned and the cast is not clipped. */
  function Iterate15(x: Q15, y: Q15): Q15 {
    var temp := U32Of(0x7FFF - U32Of((x * y) / 0x8000));
    Wrap16(U32Of(U32Of(y) * temp) / 0x4000)
  }

  /**
   The exact residual recurrence of a truncated Newton step at scale S = 2*h:
   quadratic in the old residual, plus two truncation terms that are never negative.
   */
  lemma NewtonResidual(h: int, x: int, y: int, s: int, r: int, t: int, y': int)
    requires 0 < h
    requires x * y == 2 * h * t + s
    requires y * (2 * h - 1 - t) == h * y' + r
    ensures 2 * h * h * (2 * h * h - x * y')
            == (2 * h * h - x * y) * (2 * h * h - x * y) + x * y * (2 * h - s) + 2 * h * x * r
  {}

  /**
   What one iteration achieves at scale `k` (2^61 for Q31, 2^29 for Q15): the new estimate is
   nonnegative and never overshoots, and its residual is at most the square of the old
   residual over `k`, plus 3x of truncation.
   */
  ghost predicate Refines(k: int, x: int, y: int, y': int) {
    var d, d' := k - x * y, k - x * y';
    && 0 <= y' && 0 <= d' && (0 < y ==> 0 < d')
    && k * d' <= d * d + 3 * x * k
  }

  lemma NewtonBounds(h: int, x: int, y: int, s: int, r: int, t: int, y': int)
    requires 0 < h && 0 < x < 2 * h && 0 <= y < 2 * h
    requires x * y == 2 * h * t + s && 0 <= s < 2 * h
    requires y * (2 * h - 1 - t) == h * y' + r && 0 <= r < h
    requires 0 <= y'
    ensures Refines(2 * h * h, x, y, y')
  {
    var k, p := 2 * h * h, x * y;
    var e1, e2 := p * (2 * h - s), 2 * h * x * r;
    assert k * (k - x * y') == (k - p) * (k - p) + e1 + e2 by { NewtonResidual(h, x, y, s, r, t, y'); }
    assert 0 <= e1 <= 2 * x * k && (0 < p ==> 0 < e1) by { FirstTruncation(h, x, y, s); }
    assert 0 <= e2 <= x * k by { SecondTruncation(h, x, r); }
    assert 0 < k by { Positive(h, h); }
    assert 0 < y ==> 0 < p by { if 0 < y { Positive(x, y); } }
    CombineTerms(k, x, y, y', e1, e2);
  }

  lemma CombineTerms(k: int, x: int, y: int, y': int, e1: int, e2: int)
    requires 0 < k && 0 <= e1 <= 2 * x * k && 0 <= e2 <= x * k && 0 <= y'
    requires 0 < y ==> 0 < e1
    requires k * (k - x * y') == (k - x * y) * (k - x * y) + e1 + e2
    ensures Refines(k, x, y, y')
  {
    var d' := k - x * y';
    Square(k - x * y);
    SignOfProduct(k, d');
    assert 2 * x * k + x * k == 3 * x * k;
  }

  lemma FirstTruncation(h: int, x: int, y: int, s: int)
    requires 0 < h && 0 < x && 0 <= y < 2 * h && 0 <= s < 2 * h
    ensures 0 <= x * y * (2 * h - s) <= 2 * x * (2 * h * h)
    ensures 0 < x * y ==> 0 < x * y * (2 * h - s)
  {
    var p := x * y;
    MulNonNeg(x, y);
    MulNonNeg(p, 2 * h - s);
    MulMono(2 * h - s, 2 * h, p);
    MulMono(y, 2 * h, x);
    MulMono(p, x * (2 * h), 2 * h);
    assert x * (2 * h) * (2 * h) == 2 * x * (2 * h * h);
    if 0 < p {
      Positive(p, 2 * h - s);
    }
  }

  lemma SecondTruncation(h: int, x: int, r: int)
    requires 0 < h && 0 < x && 0 <= r < h
    ensures 0 <= 2 * h * x * r <= x * (2 * h * h)
  {}

  lemma Square(a: int)
    ensures 0 <= a * a
  {}

  lemma Positive(a: int, b: int)
    requires 0 < a && 0 < b
    ensures 0 < a * b
  {}

  lemma SignOfProduct(k: int, d: int)
    requires 0 < k && 0 <= k * d
    ensures 0 <= d
    ensures 0 < k * d ==> 0 < d
  {}

  // ---------------------------------------------------------------------------
  // arm_recip_q31
  // ---------------------------------------------------------------------------

  function SignBits31(input: Q31): nat
    requires -0x8000_0000 < input
  {
    Pow2At31And32();
    LeadingZeros(Abs(input)) - 1
  }

  function Normalised31(input: Q31): Q31
    requires -0x8000_0000 < input
  {
    Wrap32(input * Pow2(SignBits31(input)))
  }

  function SeedIndex31(x: Q31): (i: nat)
    ensures i < 64
  {
    U32Of(x / 0x100_0000) % 64
  }

  function IterateN31(x: Q31, y: Q31, n: nat): Q31 {
    if n == 0 then y else Iterate31(x, IterateN31(x, y, n - 1))
  }

  function Reciprocal31(input: Q31, recipTable: seq<Q31>): Q31
    requires -0x8000_0000 < input && 64 <= |recipTable|
  {
    var x := Normalised31(input);
    IterateN31(x, recipTable[SeedIndex31(x)], 2)
  }

  /** The seed is within 2^-7 of the true reciprocal, relatively. */
  predicate SeedClose31(x: Q31, y: Q31) {
    Abs(0x2000_0000_0000_0000 - x * y) <= 0x40_0000_0000_0000
  }

  /** The running approximation: two iterations from the table seed. */
  method NewtonLoopQ31(x: Q31, seed: Q31) returns (out: Q31)
    ensures out == IterateN31(x, seed, 2)
  {
    out := seed;
    for i := 0 to 2
      invariant out == IterateN31(x, seed, i)
    {
      ghost var before := out;
      ScaleBound(x, 0x8000_0000, out, 0x8000_0000);
      var product: Q63 := x * out;
      var tempVal: U32 := U32Of(product / 0x8000_0000);
      tempVal := U32Of(0x7FFF_FFFF - tempVal);
      ScaleBound(out, 0x8000_0000, tempVal, 0xFFFF_FFFF);
      var refined: Q63 := out * tempVal;
      out := ClipQ63ToQ31(refined / 0x4000_0000);
      assert out == Iterate31(x, before);
    }
  }

  method RecipQ31(input: Q31, recipTable: seq<Q31>) returns (dst: Q31, ret: nat)
    requires -0x8000_0000 < input && 64 <= |recipTable|
    ensures dst == Reciprocal31(input, recipTable)
    ensures ret == SignBits31(input) + 1
    ensures var x := Normalised31(input);
            0 < input && SeedClose31(x, recipTable[SeedIndex31(x)]) ==>
              0 < 0x4000_0000_0000_0000 - input * dst * Pow2(ret) < 12 * (input * Pow2(ret))
  {
    var magnitude := if input > 0 then input else -input;
    var leading := Clz(magnitude);
    Pow2At31And32();
    var signBits: nat := leading - 1;
    var x := Wrap32(input * Pow2(signBits));
    var index := U32Of(x / 0x100_0000) % 64;
    dst := NewtonLoopQ31(x, recipTable[index]);
    ret := signBits + 1;
    if 0 < input && SeedClose31(x, recipTable[index]) {
      RecipQ31Accuracy(input, recipTable);
    }
  }

  /** Normalisation is exact: it scales a positive input into [2^30, 2^31) and picks a cell of 64. */
  lemma NormalisesPositive31(input: Q31)
    requires 0 < input
    ensures var x := Normalised31(input);
            && 0x4000_0000 <= x
            && x == input * Pow2(SignBits31(input))
            && SeedIndex31(x) == x / 0x100_0000 - 64
  {
    Scaled31(input, SignBits31(input));
    TopBit31(input * Pow2(SignBits31(input)));
  }

  lemma Scaled31(input: Q31, s: nat)
    requires 0 < input && s == SignBits31(input)
    ensures 0x4000_0000 <= input * Pow2(s) < 0x8000_0000
  {
    Pow2At31And32();
    Pow2Add(30 - s, s);
    Pow2Add(31 - s, s);
    assert Pow2(31) == 2 * Pow2(30);
    ScaledIntoRange(input, Pow2(30 - s), Pow2(31 - s), Pow2(s));
  }

  lemma TopBit31(v: int)
    requires 0x4000_0000 <= v < 0x8000_0000
    ensures Wrap32(v) == v && SeedIndex31(v) == v / 0x100_0000 - 64
  {}

  lemma ScaledIntoRange(v: int, lo: int, hi: int, scale: int)
    requires lo <= v < hi && 0 < scale
    ensures lo * scale <= v * scale < hi * scale
  {}

  /** Other inputs are scaled exactly as well, zero to zero; their cells are counted from -2^31. */
  lemma NormalisesNonPositive31(input: Q31)
    requires -0x8000_0000 < input <= 0
    ensures var x := Normalised31(input);
            && (input < 0 ==> x <= -0x4000_0000)
            && (input == 0 ==> SignBits31(input) == 31)
            && x == input * Pow2(SignBits31(input))
            && SeedIndex31(x) == (x + 0x8000_0000) / 0x100_0000 % 64
  {
    ScaledNonPositive31(input, SignBits31(input));
    NegativeTop31(input * Pow2(SignBits31(input)));
  }

  lemma ScaledNonPositive31(input: Q31, s: nat)
    requires -0x8000_0000 < input <= 0 && s == SignBits31(input)
    ensures 0x4000_0000 <= -(input * Pow2(s)) < 0x8000_0000 || (input == 0 && s == 31 && input * Pow2(s) == 0)
  {
    if input < 0 {
      Scaled31(-input, s);
      NegatedProduct(input, Pow2(s));
    }
  }

  lemma NegatedProduct(a: int, b: int)
    ensures -a * b == -(a * b)
  {}

  lemma NegativeTop31(v: int)
    requires 0x4000_0000 <= -v < 0x8000_0000 || v == 0
    ensures Wrap32(v) == v && SeedIndex31(v) == (v + 0x8000_0000) / 0x100_0000 % 64
  {}

  /**
   One iteration for every input and estimate but one pair: only the final clip does anything
   to the Newton step y * (2 - x*y), nonpositive inputs included.
   */
  lemma IterationIsClipped31(x: Q31, y: Q31)
    requires x != -0x8000_0000 || y != -0x8000_0000
    ensures Iterate31(x, y) == Clamp31((y * (0x7FFF_FFFF - x * y / 0x8000_0000)) / 0x4000_0000)
  {
    NotBothLowest(x, y);
    NotWrapped(x * y / 0x8000_0000);
  }

  lemma NotWrapped(t: int)
    requires -0x8000_0000 <= t <= 0x7FFF_FFFF
    ensures U32Of(0x7FFF_FFFF - U32Of(t)) == 0x7FFF_FFFF - t
  {}

  lemma NotBothLowest(x: Q31, y: Q31)
    requires x != -0x8000_0000 || y != -0x8000_0000
    ensures -0x8000_0000 <= x * y / 0x8000_0000 <= 0x7FFF_FFFF
  {
    if x == -0x8000_0000 {
      MulMono(-0x7FFF_FFFF, y, 0x8000_0000);
      MulMono(y, 0x7FFF_FFFF, 0x8000_0000);
    } else {
      ScaleBound(x, 0x7FFF_FFFF, y, 0x8000_0000);
    }
  }

  /**
   One Q31 iteration on a normalised input and any nonnegative estimate: the clip never
   saturates, the estimate never overshoots, and the residual shrinks quadratically.
   */
  lemma IterationQ31(x: Q31, y: Q31)
    requires 0x4000_0000 <= x && 0 <= y
    ensures Iterate31(x, y) == (y * (0x7FFF_FFFF - x * y / 0x8000_0000)) / 0x4000_0000
    ensures Refines(0x2000_0000_0000_0000, x, y, Iterate31(x, y))
  {
    var t := x * y / 0x8000_0000;
    assert 0 <= t <= 0x7FFF_FFFF by { QuotientInWord31(x, y); }
    var temp := 0x7FFF_FFFF - t;
    var y' := (y * temp) / 0x4000_0000;
    assert 0 <= y' by { MulNonNeg(y, temp); }
    NewtonBounds(0x4000_0000, x, y, x * y % 0x8000_0000, (y * temp) % 0x4000_0000, t, y');
    EstimateFits(0x4000_0000, x, y, y');
    NoWrap31(t, y');
  }

  lemma QuotientInWord31(x: int, y: int)
    requires 0 <= x < 0x8000_0000 && 0 <= y < 0x8000_0000
    ensures 0 <= x * y / 0x8000_0000 <= 0x7FFF_FFFF
  {
    MulNonNeg(x, y);
    MulMono(x, 0x7FFF_FFFF, y);
  }

  lemma NoWrap31(t: int, y': int)
    requires 0 <= t <= 0x7FFF_FFFF && 0 <= y' < 0x8000_0000
    ensures U32Of(0x7FFF_FFFF - U32Of(t)) == 0x7FFF_FFFF - t
    ensures ClipQ63ToQ31(y') == y'
  {}

  /** An estimate that does not overshoot fits in the word it is stored in. */
  lemma EstimateFits(h: int, x: int, y: int, y': int)
    requires 0 < h <= x && 0 <= y
    requires Refines(2 * h * h, x, y, y')
    requires y == 0 ==> y' == 0
    ensures 0 <= y' < 2 * h
  {
    if y' >= 2 * h {
      MulMono(2 * h, y', x);
      MulMono(h, x, 2 * h);
      assert false;
    }
  }

  /**
   Two iterations from an accurate seed land less than 12 units below the true reciprocal of
   the normalised input, and the returned exponent undoes the normalisation.
   */
  lemma RecipQ31Accuracy(input: Q31, recipTable: seq<Q31>)
    requires 0 < input && 64 <= |recipTable|
    requires var x := Normalised31(input); SeedClose31(x, recipTable[SeedIndex31(x)])
    ensures var x, dst := Normalised31(input), Reciprocal31(input, recipTable);
            0 < 0x2000_0000_0000_0000 - x * dst < 12 * x
    ensures var dst, scale := Reciprocal31(input, recipTable), Pow2(SignBits31(input) + 1);
            0 < 0x4000_0000_0000_0000 - input * dst * scale < 12 * (input * scale)
  {
    var x := Normalised31(input);
    NormalisesPositive31(input);
    var y0 := recipTable[SeedIndex31(x)];
    Refine31(x, y0);
    Rescale(input, Reciprocal31(input, recipTable), Pow2(SignBits31(input)));
  }

  lemma Refine31(x: Q31, y0: Q31)
    requires 0x4000_0000 <= x && SeedClose31(x, y0)
    ensures 0 < y0
    ensures 0 < 0x2000_0000_0000_0000 - x * IterateN31(x, y0, 2) < 12 * x
  {
    var y1 := Iterate31(x, y0);
    var y2 := Iterate31(x, y1);
    assert IterateN31(x, y0, 1) == Iterate31(x, IterateN31(x, y0, 0)) == y1;
    assert IterateN31(x, y0, 2) == Iterate31(x, IterateN31(x, y0, 1)) == y2;
    assert 0 < y0 by { EstimatePositive(x, y0); }
    IterationQ31(x, y0);
    FirstResidual31(x, y0, y1);
    IterationQ31(x, y1);
    SecondResidual31(x, y1, y2);
  }

  lemma EstimatePositive(x: int, y: int)
    requires 0 < x && 0 < x * y
    ensures 0 < y
  {}

  lemma FirstResidual31(x: int, y0: int, y1: int)
    requires 0 < x < 0x8000_0000
    requires Abs(0x2000_0000_0000_0000 - x * y0) <= 0x40_0000_0000_0000
    requires Refines(0x2000_0000_0000_0000, x, y0, y1)
    ensures 0x2000_0000_0000_0000 - x * y1 <= 0x8001_8000_0000
    ensures 0 < y1
  {
    var d0 := 0x2000_0000_0000_0000 - x * y0;
    ScaleBound(d0, 0x40_0000_0000_0000, d0, 0x40_0000_0000_0000);
    EstimatePositive(x, y1);
  }

  lemma SecondResidual31(x: int, y1: int, y2: int)
    requires 0x4000_0000 <= x < 0x8000_0000 && 0 < y1
    requires 0 <= 0x2000_0000_0000_0000 - x * y1 <= 0x8001_8000_0000
    requires Refines(0x2000_0000_0000_0000, x, y1, y2)
    ensures 0 < 0x2000_0000_0000_0000 - x * y2 < 12 * x
  {
    var d1 := 0x2000_0000_0000_0000 - x * y1;
    ScaleBound(d1, 0x8001_8000_0000, d1, 0x8001_8000_0000);
  }

  lemma Rescale(input: int, dst: int, scale: int)
    ensures input * dst * (2 * scale) == 2 * ((input * scale) * dst)
    ensures input * (2 * scale) == 2 * (input * scale)
  {}

  /**
   The branch for nonpositive inputs normalises them too, but the iteration then never turns
   negative. For any table without negative seeds, the product `input * dst` is positive, as
   that of a number and its reciprocal is, if and only if the input is positive and its seed
   is not 0.
   */
  lemma RecipQ31SignExactness(input: Q31, recipTable: seq<Q31>)
    requires -0x8000_0000 < input && 64 <= |recipTable|
    requires forall i :: 0 <= i < 64 ==> 0 <= recipTable[i]
    ensures 0 <= Reciprocal31(input, recipTable)
    ensures 0 < input * Reciprocal31(input, recipTable)
            <==> 0 < input && 0 < recipTable[SeedIndex31(Normalised31(input))]
  {
    var x, dst := Normalised31(input), Reciprocal31(input, recipTable);
    var y0 := recipTable[SeedIndex31(x)];
    var y1 := Iterate31(x, y0);
    assert IterateN31(x, y0, 1) == Iterate31(x, IterateN31(x, y0, 0)) == y1;
    StaysNonNegative(x, y0);
    StaysNonNegative(x, y1);
    if 0 < input {
      NormalisesPositive31(input);
      SeedSign(x, y0);
      SeedSign(x, y1);
    }
    SignOfResult(input, dst);
  }

  lemma SignOfResult(a: int, b: int)
    requires 0 <= b
    ensures 0 < a * b <==> 0 < a && 0 < b
  {}

  /** On a normalised input a positive estimate stays positive, and zero stays zero. */
  lemma SeedSign(x: Q31, y: Q31)
    requires 0x4000_0000 <= x && 0 <= y
    ensures 0 < Iterate31(x, y) <==> 0 < y
  {
    IterationQ31(x, y);
    var t := x * y / 0x8000_0000;
    if 0 < y {
      QuotientBelowEstimate(x, y);
      KeepsHalf(y, 0x7FFF_FFFF - t);
    }
  }

  lemma QuotientBelowEstimate(x: int, y: int)
    requires x < 0x8000_0000 && 0 < y
    ensures x * y / 0x8000_0000 <= y - 1
  {
    MulMono(x, 0x7FFF_FFFF, y);
  }

  lemma KeepsHalf(y: int, w: int)
    requires 0 < y < 0x8000_0000 && 0x8000_0000 - y <= w
    ensures 0x4000_0000 <= y * w
  {
    MulMono(0x8000_0000 - y, w, y);
    if y <= 0x4000_0000 {
      MulMono(0x4000_0000, 0x8000_0000 - y, y);
      MulMono(1, y, 0x4000_0000);
    } else {
      MulMono(1, 0x8000_0000 - y, y);
    }
  }

  lemma StaysNonNegative(x: Q31, y: Q31)
    requires 0 <= y
    ensures 0 <= Iterate31(x, y)
  {
    ScaleBound(x, 0x8000_0000, y, 0x8000_0000);
    var temp := U32Of(0x7FFF_FFFF - U32Of((x * y) / 0x8000_0000));
    MulNonNeg(y, temp);
    ScaleBound(y, 0x8000_0000, temp, 0xFFFF_FFFF);
  }

  /** Reciprocal of the middle of cell `i`, rounded down: one table that meets the seed bound. */
  function MidpointSeed31(i: nat): Q31
    requires i < 64
  {
    var mid := (64 + i) * 0x100_0000 + 0x80_0000;
    QuotientBelow(0x2000_0000_0000_0000, mid, 0x8000_0000);
    0x2000_0000_0000_0000 / mid
  }

  lemma QuotientBelow(d: int, mid: int, bound: int)
    requires 0 <= d && 0 < mid && d < bound * mid
    ensures 0 <= d / mid < bound
  {}

  /** With midpoint seeds the accuracy bound needs no hypothesis on the table. */
  lemma RecipQ31MidpointTable(input: Q31, recipTable: seq<Q31>)
    requires 0 < input && 64 <= |recipTable|
    requires forall i: nat :: i < 64 ==> recipTable[i] == MidpointSeed31(i)
    ensures var x, dst := Normalised31(input), Reciprocal31(input, recipTable);
            0 < 0x2000_0000_0000_0000 - x * dst < 12 * x
  {
    var x := Normalised31(input);
    NormalisesPositive31(input);
    var i := SeedIndex31(x);
    var mid := (64 + i) * 0x100_0000 + 0x80_0000;
    var y := recipTable[i];
    assert y == MidpointSeed31(i);
    MidpointClose31(x, mid, y);
    RecipQ31Accuracy(input, recipTable);
  }

  lemma MidpointClose31(x: int, mid: int, y: int)
    requires 129 * 0x80_0000 <= mid < 0x8000_0000
    requires y == 0x2000_0000_0000_0000 / mid && Abs(x - mid) <= 0x80_0000
    ensures Abs(0x2000_0000_0000_0000 - x * y) <= 0x40_0000_0000_0000
  {
    MidpointError(0x2000_0000_0000_0000, x, mid, 0x80_0000, y);
    MulMono(129 * 0x80_0000, mid, y);
  }

  lemma MidpointError(d: int, x: int, mid: int, half: int, y: int)
    requires 0 < mid && 0 < d && y == d / mid && Abs(x - mid) <= half
    ensures 0 <= y && mid * y <= d
    ensures -(half * y) <= d - x * y < mid + half * y
  {
    if y < 0 {
      MulMono(y, -1, mid);
      assert false;
    }
    var rem := d - mid * y;
    assert d - x * y == rem - (x - mid) * y by {
      assert (x - mid) * y == x * y - mid * y;
    }
    ScaleBound(x - mid, half, y, y);
  }

  // ---------------------------------------------------------------------------
  // arm_recip_q15
  // ---------------------------------------------------------------------------

  function SignBits15(input: Q15): nat
    requires -0x8000 < input
  {
    LeadingZerosOfHalfword(Abs(input));
    LeadingZeros(Abs(input)) - 17
  }

  lemma LeadingZerosOfHalfword(v: U32)
    requires v < 0x8000
    ensures 17 <= LeadingZeros(v)
  {
    var c := LeadingZeros(v);
    if c <= 16 {
      Pow2At14And15();
      Pow2Mono(15, 31 - c);
      assert false;
    }
  }

  function Normalised15(input: Q15): Q15
    requires -0x8000 < input
  {
    Wrap16(input * Pow2(SignBits15(input)))
  }

  function SeedIndex15(x: Q15): (i: nat)
    ensures i < 64
  {
    U32Of(x / 0x100) % 64
  }

  function IterateN15(x: Q15, y: Q15, n: nat): Q15 {
    if n == 0 then y else Iterate15(x, IterateN15(x, y, n - 1))
  }

  function Reciprocal15(input: Q15, recipTable: seq<Q15>): Q15
    requires -0x8000 < input && 64 <= |recipTable|
  {
    var x := Normalised15(input);
    IterateN15(x, recipTable[SeedIndex15(x)], 2)
  }

  predicate SeedClose15(x: Q15, y: Q15) {
    Abs(0x2000_0000 - x * y) <= 0x40_0000
  }

  method NewtonLoopQ15(x: Q15, seed: Q15) returns (out: Q15)
    ensures out == IterateN15(x, seed, 2)
  {
    out := seed;
    for i := 0 to 2
      invariant out == IterateN15(x, seed, i)
    {
      ghost var before := out;
      var tempVal: int := U32Of((x * out) / 0x8000);
      tempVal := U32Of(0x7FFF - tempVal);
      out := Wrap16(U32Of(U32Of(out) * tempVal) / 0x4000);
      assert out == Iterate15(x, before);
    }
  }

  method RecipQ15(input: Q15, recipTable: seq<Q15>) returns (dst: Q15, ret: nat)
    requires -0x8000 < input && 64 <= |recipTable|
    ensures dst == Reciprocal15(input, recipTable)
    ensures ret == SignBits15(input) + 1
    ensures var x := Normalised15(input);
            0 < input && SeedClose15(x, recipTable[SeedIndex15(x)]) ==>
              0 < 0x4000_0000 - input * dst * Pow2(ret) < 4 * (input * Pow2(ret))
  {
    var magnitude := if input > 0 then input else -input;
    var leading := Clz(magnitude);
    LeadingZerosOfHalfword(magnitude);
    var signBits: nat := leading - 17;
    var x := Wrap16(input * Pow2(signBits));
    var index := U32Of(x / 0x100) % 64;
    dst := NewtonLoopQ15(x, recipTable[index]);
    ret := signBits + 1;
    if 0 < input && SeedClose15(x, recipTable[index]) {
      RecipQ15Accuracy(input, recipTable);
    }
  }

  lemma NormalisesPositive15(input: Q15)
    requires 0 < input
    ensures var x := Normalised15(input);
            && 0x4000 <= x
            && x == input * Pow2(SignBits15(input))
            && SeedIndex15(x) == x / 0x100 - 64
  {
    Scaled15(input, SignBits15(input));
    TopBit15(input * Pow2(SignBits15(input)));
  }

  lemma NormalisesNonPositive15(input: Q15)
    requires -0x8000 < input <= 0
    ensures var x := Normalised15(input);
            && (input < 0 ==> x <= -0x4000)
            && (input == 0 ==> SignBits15(input) == 15)
            && x == input * Pow2(SignBits15(input))
            && SeedIndex15(x) == (x + 0x8000) / 0x100 % 64
  {
    ScaledNonPositive15(input, SignBits15(input));
    NegativeTop15(input * Pow2(SignBits15(input)));
  }

  lemma ScaledNonPositive15(input: Q15, s: nat)
    requires -0x8000 < input <= 0 && s == SignBits15(input)
    ensures 0x4000 <= -(input * Pow2(s)) < 0x8000 || (input == 0 && s == 15 && input * Pow2(s) == 0)
  {
    if input < 0 {
      Scaled15(-input, s);
      NegatedProduct(input, Pow2(s));
    }
  }

  lemma NegativeTop15(v: int)
    requires 0x4000 <= -v < 0x8000 || v == 0
    ensures Wrap16(v) == v && SeedIndex15(v) == (v + 0x8000) / 0x100 % 64
  {}

  lemma Scaled15(input: Q15, s: nat)
    requires 0 < input && s == SignBits15(input)
    ensures 0x4000 <= input * Pow2(s) < 0x8000
  {
    LeadingZerosOfHalfword(input);
    Pow2At14And15();
    Pow2Add(14 - s, s);
    Pow2Add(15 - s, s);
    ScaledIntoRange(input, Pow2(14 - s), Pow2(15 - s), Pow2(s));
  }

  lemma TopBit15(v: int)
    requires 0x4000 <= v < 0x8000
    ensures Wrap16(v) == v && SeedIndex15(v) == v / 0x100 - 64
  {}

  /**
   One Q15 iteration: neither the unsigned product nor the unclipped 16-bit cast ever wraps,
   so the clip that the source comments out would change nothing.
   */
  lemma IterationQ15(x: Q15, y: Q15)
    requires 0x4000 <= x && 0 <= y
    ensures var ideal := (y * (0x7FFF - x * y / 0x8000)) / 0x4000;
            Iterate15(x, y) == ideal == ClipQ31ToQ15(ideal)
    ensures Refines(0x2000_0000, x, y, Iterate15(x, y))
  {
    var t := x * y / 0x8000;
    assert 0 <= t <= 0x7FFF by { QuotientInWord15(x, y); }
    var temp := 0x7FFF - t;
    var y' := (y * temp) / 0x4000;
    assert 0 <= y * temp < 0x4000_0000 by {
      MulNonNeg(y, temp);
      MulMono(temp, 0x7FFF, y);
    }
    NewtonBounds(0x4000, x, y, x * y % 0x8000, (y * temp) % 0x4000, t, y');
    EstimateFits(0x4000, x, y, y');
    NoWrap15(y, t, y * temp);
    assert Wrap16(y') == y' == ClipQ31ToQ15(y');
  }

  /** One Q15 iteration for every input and estimate: all the unsigned casts amount to one final 16-bit wrap. */
  lemma IterationIsWrapped15(x: Q15, y: Q15)
    ensures Iterate15(x, y) == Wrap16((y * (0x7FFF - x * y / 0x8000)) / 0x4000)
  {
    ScaleBound(x, 0x8000, y, 0x8000);
    WrapOfStep(y, x * y / 0x8000);
  }

  lemma WrapOfStep(y: Q15, t: int)
    requires -0x8000 <= t <= 0x8000
    ensures Wrap16(U32Of(U32Of(y) * U32Of(0x7FFF - U32Of(t))) / 0x4000) == Wrap16((y * (0x7FFF - t)) / 0x4000)
  {
    var temp := 0x7FFF - t;
    ComplementWord(t);
    UnsignedProduct(y, temp, if y < 0 then 1 else 0, if temp < 0 then 1 else 0);
    ScaleBound(y, 0x8000, temp, 0x1_0000);
    ShiftedUnsigned(y * temp);
  }

  lemma ComplementWord(t: int)
    requires -0x8000 <= t <= 0x8000
    ensures U32Of(0x7FFF - U32Of(t)) == U32Of(0x7FFF - t)
  {}

  lemma UnsignedProduct(y: int, temp: int, k: int, m: int)
    requires U32Of(y) == y + 0x1_0000_0000 * k && U32Of(temp) == temp + 0x1_0000_0000 * m
    ensures U32Of(U32Of(y) * U32Of(temp)) == U32Of(y * temp)
  {
    var c := k * temp + m * y + 0x1_0000_0000 * (k * m);
    assert U32Of(y) * U32Of(temp) == y * temp + 0x1_0000_0000 * c;
    SameWord(y * temp, c);
  }

  lemma SameWord(v: int, c: int)
    ensures U32Of(v + 0x1_0000_0000 * c) == U32Of(v)
  {}

  lemma ShiftedUnsigned(p: int)
    requires -0x8000_0000 <= p <= 0x8000_0000
    ensures Wrap16(U32Of(p) / 0x4000) == Wrap16(p / 0x4000)
  {
    assert U32Of(p) / 0x4000 == p / 0x4000 + if p < 0 then 0x4_0000 else 0;
  }

  lemma QuotientInWord15(x: int, y: int)
    requires 0 <= x < 0x8000 && 0 <= y < 0x8000
    ensures 0 <= x * y / 0x8000 <= 0x7FFF
  {
    MulNonNeg(x, y);
    MulMono(x, 0x7FFF, y);
  }

  lemma NoWrap15(y: int, t: int, product: int)
    requires 0 <= y < 0x8000 && 0 <= t <= 0x7FFF && 0 <= product < 0x4000_0000
    ensures U32Of(0x7FFF - U32Of(t)) == 0x7FFF - t
    ensures U32Of(y) == y
    ensures U32Of(product) == product
  {}

  lemma RecipQ15Accuracy(input: Q15, recipTable: seq<Q15>)
    requires 0 < input && 64 <= |recipTable|
    requires var x := Normalised15(input); SeedClose15(x, recipTable[SeedIndex15(x)])
    ensures var x, dst := Normalised15(input), Reciprocal15(input, recipTable);
            0 < 0x2000_0000 - x * dst < 4 * x
    ensures var dst, scale := Reciprocal15(input, recipTable), Pow2(SignBits15(input) + 1);
            0 < 0x4000_0000 - input * dst * scale < 4 * (input * scale)
  {
    var x := Normalised15(input);
    NormalisesPositive15(input);
    var y0 := recipTable[SeedIndex15(x)];
    Refine15(x, y0);
    Rescale(input, Reciprocal15(input, recipTable), Pow2(SignBits15(input)));
  }

  lemma Refine15(x: Q15, y0: Q15)
    requires 0x4000 <= x && SeedClose15(x, y0)
    ensures 0 < y0
    ensures 0 < 0x2000_0000 - x * IterateN15(x, y0, 2) < 4 * x
  {
    var y1 := Iterate15(x, y0);
    var y2 := Iterate15(x, y1);
    assert IterateN15(x, y0, 1) == Iterate15(x, IterateN15(x, y0, 0)) == y1;
    assert IterateN15(x, y0, 2) == Iterate15(x, IterateN15(x, y0, 1)) == y2;
    assert 0 < y0 by { EstimatePositive(x, y0); }
    IterationQ15(x, y0);
    FirstResidual15(x, y0, y1);
    IterationQ15(x, y1);
    SecondResidual15(x, y1, y2);
  }

  lemma FirstResidual15(x: int, y0: int, y1: int)
    requires 0x4000 <= x < 0x8000
    requires Abs(0x2000_0000 - x * y0) <= 0x40_0000
    requires Refines(0x2000_0000, x, y0, y1)
    ensures 0 <= 0x2000_0000 - x * y1 <= 5 * x
    ensures 0 < y1
  {
    var d0 := 0x2000_0000 - x * y0;
    ScaleBound(d0, 0x40_0000, d0, 0x40_0000);
    EstimatePositive(x, y1);
  }

  lemma SecondResidual15(x: int, y1: int, y2: int)
    requires 0x4000 <= x < 0x8000 && 0 < y1
    requires 0 <= 0x2000_0000 - x * y1 <= 5 * x
    requires Refines(0x2000_0000, x, y1, y2)
    ensures 0 < 0x2000_0000 - x * y2 < 4 * x
  {
    var d1 := 0x2000_0000 - x * y1;
    ScaleBound(d1, 5 * x, d1, 5 * x);
    MulMono(x, 0x8000, x);
    assert (5 * x) * (5 * x) == 25 * (x * x);
  }

  function MidpointSeed15(i: nat): Q15
    requires i < 64
  {
    var mid := (64 + i) * 0x100 + 0x80;
    QuotientBelow(0x2000_0000, mid, 0x8000);
    0x2000_0000 / mid
  }

  lemma RecipQ15MidpointTable(input: Q15, recipTable: seq<Q15>)
    requires 0 < input && 64 <= |recipTable|
    requires forall i: nat :: i < 64 ==> recipTable[i] == MidpointSeed15(i)
    ensures var x, dst := Normalised15(input), Reciprocal15(input, recipTable);
            0 < 0x2000_0000 - x * dst < 4 * x
  {
    var x := Normalised15(input);
    NormalisesPositive15(input);
    var i := SeedIndex15(x);
    var mid := (64 + i) * 0x100 + 0x80;
    var y := recipTable[i];
    assert y == MidpointSeed15(i);
    MidpointClose15(x, mid, y);
    RecipQ15Accuracy(input, recipTable);
  }

  lemma MidpointClose15(x: int, mid: int, y: int)
    requires 129 * 0x80 <= mid <= 0x8000 && y == 0x2000_0000 / mid && Abs(x - mid) <= 0x80
    ensures Abs(0x2000_0000 - x * y) <= 0x40_0000
  {
    MidpointError(0x2000_0000, x, mid, 0x80, y);
    MulMono(129 * 0x80, mid, y);
    if 20000 <= mid {
      MulMono(20000, mid, y);
    }
  }
}
