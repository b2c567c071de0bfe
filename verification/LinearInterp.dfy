/**
 Linear table interpolation `arm_linear_interp_q31`, `_q15` and `_q7`. The input is in 12.20
 format: the table index is x / 2^20 and the fraction is x % 2^20.
 */
module LinearInterp {
  import opened FixedPoint

  ghost predicate NonDecreasing(yData: seq<int>, nValues: nat)
    requires nValues <= |yData|
  {
    forall i, j :: 0 <= i <= j < nValues ==> yData[i] <= yData[j]
  }

  // ---------------------------------------------------------------------------
  // The three functions
  // ---------------------------------------------------------------------------

  /** The arithmetic of the interior branch of the Q31 version, `fract` in 1.31 format. */
  function BlendQ31(y0: Q31, y1: Q31, fract: int): Q31 {
    var y := Wrap32((y0 * (0x7FFF_FFFF - fract)) / 0x1_0000_0000);
    var sum := Wrap32(y + Wrap32((y1 * fract) / 0x1_0000_0000));
    Wrap32(sum * 2)
  }

  function InterpQ31(yData: seq<Q31>, x: Q31, nValues: nat): Q31
    requires 1 <= nValues <= |yData|
  {
    var index := x / 0x10_0000;
    if index >= nValues - 1 then yData[nValues - 1]
    else if index < 0 then yData[0]
    else BlendQ31(yData[index], yData[index + 1], x % 0x10_0000 * 0x800)
  }

  function InterpQ15(yData: seq<Q15>, x: Q31, nValues: nat): Q15
    requires 1 <= nValues <= |yData|
  {
    var index := x / 0x10_0000;
    if index >= nValues - 1 then yData[nValues - 1]
    else if index < 0 then yData[0]
    else BlendQ15(yData[index], yData[index + 1], x % 0x10_0000)
  }

  function BlendQ15(y0: Q15, y1: Q15, fract: int): Q15 {
    var y := y0 * (0xF_FFFF - fract);
    Wrap16((y + y1 * fract) / 0x10_0000)
  }

  /** The Q7 version tests the sign first and masks the index, and accumulates in 32 bits. */
  function InterpQ7(yData: seq<Q7>, x: Q31, nValues: nat): Q7
    requires 1 <= nValues <= |yData|
  {
    if x < 0 then yData[0]
    else
      var index := x / 0x10_0000 % 0x1000;
      if index >= nValues - 1 then yData[nValues - 1]
      else
        BlendQ7(yData[index], yData[index + 1], x % 0x10_0000)
  }

  function BlendQ7(y0: Q7, y1: Q7, fract: int): Q7 {
    var y := Wrap32(y0 * (0xF_FFFF - fract));
    Wrap8(Wrap32(y + Wrap32(y1 * fract)) / 0x10_0000)
  }

  // ---------------------------------------------------------------------------
  // Reference: the straight line, and the line as Q15 and Q7 truncate it
  // ---------------------------------------------------------------------------

  /** The true piecewise-linear value, times 2^20. */
  function Ideal(yData: seq<int>, x: int, nValues: nat): int
    requires 1 <= nValues <= |yData|
  {
    var index, fract := x / 0x10_0000, x % 0x10_0000;
    if index >= nValues - 1 then yData[nValues - 1] * 0x10_0000
    else if index < 0 then yData[0] * 0x10_0000
    else Line(yData[index], yData[index + 1], fract)
  }

  function Line(y0: int, y1: int, fract: int): int { y0 * (0x10_0000 - fract) + y1 * fract }

  /** The weights of the source add up to 2^20 - 1, not 2^20. */
  function Blend(y0: int, y1: int, fract: int): int {
    (y0 * (0xF_FFFF - fract) + y1 * fract) / 0x10_0000
  }

  function Truncated(yData: seq<int>, x: int, nValues: nat): int
    requires 1 <= nValues <= |yData|
  {
    var index, fract := x / 0x10_0000, x % 0x10_0000;
    if index >= nValues - 1 then yData[nValues - 1]
    else if index < 0 then yData[0]
    else Blend(yData[index], yData[index + 1], fract)
  }

  /** What the missing unit of weight does to a table value: positive ones lose one. */
  function Dip(v: int): int { if v > 0 then v - 1 else v }

  // ---------------------------------------------------------------------------
  // Q31
  // ---------------------------------------------------------------------------

  /** No cast, sum or shift of the interior branch leaves 32 bits; the lower end needs fract even. */
  lemma BlendQ31Fits(y0: Q31, y1: Q31, f: int)
    requires 0 <= f < 0x10_0000
    ensures var fract := f * 0x800;
            BlendQ31(y0, y1, fract)
            == 2 * ((y0 * (0x7FFF_FFFF - fract)) / 0x1_0000_0000 + (y1 * fract) / 0x1_0000_0000)
  {
    var fract := f * 0x800;
    var a, b := (y0 * (0x7FFF_FFFF - fract)) / 0x1_0000_0000, (y1 * fract) / 0x1_0000_0000;
    PartsFit(y0, y1, f, a, b);
    NoWrap(a, b);
  }

  lemma PartsFit(y0: Q31, y1: Q31, f: int, a: int, b: int)
    requires 0 <= f < 0x10_0000
    requires a == (y0 * (0x7FFF_FFFF - f * 0x800)) / 0x1_0000_0000
    requires b == (y1 * (f * 0x800)) / 0x1_0000_0000
    ensures -0x4000_0000 <= a + b < 0x4000_0000 && Abs(a) <= 0x4000_0000 && Abs(b) <= 0x4000_0000
  {
    WeightedHalf(y0, 0x7FFF_FFFF - f * 0x800);
    WeightedEven(y1, f * 0x400);
    HalvesFit(a, b, f);
  }

  lemma HalvesFit(a: int, b: int, f: int)
    requires 0 <= f < 0x10_0000
    requires -(0x7FFF_FFFF - f * 0x800) <= 2 * a + 1 && 2 * a < 0x7FFF_FFFF - f * 0x800
    requires -(f * 0x800) <= 2 * b <= f * 0x800
    ensures -0x4000_0000 <= a + b < 0x4000_0000 && Abs(a) <= 0x4000_0000 && Abs(b) <= 0x4000_0000
  {}

  lemma NoWrap(a: int, b: int)
    requires -0x4000_0000 <= a + b < 0x4000_0000 && Abs(a) <= 0x4000_0000 && Abs(b) <= 0x4000_0000
    ensures Wrap32(Wrap32(Wrap32(a) + Wrap32(b)) * 2) == 2 * (a + b)
  {
    assert Wrap32(a) == a && Wrap32(b) == b;
    assert Wrap32(a + b) == a + b;
  }

  lemma WeightedHalf(y: Q31, w: int)
    requires 0 < w < 0x8000_0000
    ensures -w <= 2 * ((y * w) / 0x1_0000_0000) + 1
    ensures 2 * ((y * w) / 0x1_0000_0000) < w
  {
    MulMono(-0x8000_0000, y, w);
    MulMono(y, 0x7FFF_FFFF, w);
  }

  lemma WeightedEven(y: Q31, h: int)
    requires 0 <= h < 0x4000_0000
    ensures -h <= (y * (2 * h)) / 0x1_0000_0000 <= h
  {
    MulMono(-0x8000_0000, y, 2 * h);
    MulMono(y, 0x7FFF_FFFF, 2 * h);
  }

  /** For any table and any x, the true value minus the result lies in [-1, 5) units. */
  lemma InterpQ31Error(yData: seq<Q31>, x: Q31, nValues: nat)
    requires 1 <= nValues <= |yData|
    ensures -0x10_0000 <= Ideal(yData, x, nValues) - 0x10_0000 * InterpQ31(yData, x, nValues) < 5 * 0x10_0000
  {
    var index, f := x / 0x10_0000, x % 0x10_0000;
    if 0 <= index < nValues - 1 {
      BlendQ31Fits(yData[index], yData[index + 1], f);
      BlendQ31Error(yData[index], yData[index + 1], f);
    }
  }

  lemma BlendQ31Error(y0: Q31, y1: Q31, f: int)
    requires 0 <= f < 0x10_0000
    ensures var fract := f * 0x800;
            var r := 2 * ((y0 * (0x7FFF_FFFF - fract)) / 0x1_0000_0000 + (y1 * fract) / 0x1_0000_0000);
            -0x10_0000 <= Line(y0, y1, f) - 0x10_0000 * r < 5 * 0x10_0000
  {
    var fract := f * 0x800;
    assert y0 * (0x7FFF_FFFF - fract) == 0x800 * (y0 * (0x10_0000 - f)) - y0 by {
      Regroup(y0, f);
    }
    assert y1 * fract == 0x800 * (y1 * f);
  }

  lemma Regroup(y: int, f: int)
    ensures y * (0x7FFF_FFFF - f * 0x800) == 0x800 * (y * (0x10_0000 - f)) - y
  {}

  // ---------------------------------------------------------------------------
  // Q15 and Q7
  // ---------------------------------------------------------------------------

  /** The result of one segment lies between the dipped end values, hence in [min - 1, max]. */
  lemma BlendRange(y0: int, y1: int, f: int)
    requires Abs(y0) <= 0x8000 && Abs(y1) <= 0x8000 && 0 <= f < 0x10_0000
    ensures Dip(Min(y0, y1)) <= Blend(y0, y1, f) <= Dip(Max(y0, y1))
  {
    var lo, hi := Min(y0, y1), Max(y0, y1);
    Between(lo, y0, hi, 0xF_FFFF - f);
    Between(lo, y1, hi, f);
    var sum := y0 * (0xF_FFFF - f) + y1 * f;
    Weights(lo, f);
    Weights(hi, f);
    assert lo * 0xF_FFFF <= sum <= hi * 0xF_FFFF;
  }

  lemma Between(lo: int, y: int, hi: int, w: int)
    requires lo <= y <= hi && 0 <= w
    ensures lo * w <= y * w <= hi * w
  {}

  lemma Weights(v: int, f: int)
    ensures v * (0xF_FFFF - f) + v * f == v * 0xF_FFFF
  {}

  /** Nothing wraps in the Q15 version, for any table and any x. */
  lemma InterpQ15Fits(yData: seq<Q15>, x: Q31, nValues: nat)
    requires 1 <= nValues <= |yData|
    ensures InterpQ15(yData, x, nValues) == Truncated(yData, x, nValues)
  {
    var index := x / 0x10_0000;
    if 0 <= index < nValues - 1 {
      BlendQ15Fits(yData[index], yData[index + 1], x % 0x10_0000);
    }
  }

  lemma BlendQ15Fits(y0: Q15, y1: Q15, f: int)
    requires 0 <= f < 0x10_0000
    ensures BlendQ15(y0, y1, f) == Blend(y0, y1, f)
  {
    BlendRange(y0, y1, f);
    FitsHalfword(Blend(y0, y1, f));
  }

  lemma FitsHalfword(v: int)
    requires -0x8000 <= v < 0x8000
    ensures Wrap16(v) == v
  {}

  /** Nothing wraps in the Q7 version either, and its different tests decide the same way. */
  lemma InterpQ7Fits(yData: seq<Q7>, x: Q31, nValues: nat)
    requires 1 <= nValues <= |yData|
    ensures InterpQ7(yData, x, nValues) == Truncated(yData, x, nValues)
  {
    var index, f := x / 0x10_0000, x % 0x10_0000;
    IndexMask(x);
    if 0 <= index < nValues - 1 {
      BlendQ7Fits(yData[index], yData[index + 1], f);
    }
  }

  lemma IndexMask(x: Q31)
    ensures x < 0 <==> x / 0x10_0000 < 0
    ensures 0 <= x ==> x / 0x10_0000 % 0x1000 == x / 0x10_0000
  {}

  lemma BlendQ7Fits(y0: Q7, y1: Q7, f: int)
    requires 0 <= f < 0x10_0000
    ensures BlendQ7(y0, y1, f) == Blend(y0, y1, f)
  {
    ScaleBound(y0, 0x80, 0xF_FFFF - f, 0x10_0000);
    ScaleBound(y1, 0x80, f, 0x10_0000);
    SmallSum(y0 * (0xF_FFFF - f), y1 * f);
    BlendRange(y0, y1, f);
    FitsByte(Blend(y0, y1, f));
  }

  lemma FitsByte(v: int)
    requires -0x80 <= v < 0x80
    ensures Wrap8(v) == v
  {}

  lemma SmallSum(p: int, q: int)
    requires Abs(p) <= 0x800_0000 && Abs(q) <= 0x800_0000
    ensures Wrap32(Wrap32(p) + Wrap32(q)) == p + q
  {}

  /** On Q15 tables the result is within 1/32 of a unit of the true value truncated downwards. */
  lemma TruncatedError(yData: seq<Q15>, x: Q31, nValues: nat)
    requires 1 <= nValues <= |yData|
    ensures -0x8000 <= Ideal(yData, x, nValues) - 0x10_0000 * Truncated(yData, x, nValues) < 0x10_0000 + 0x8000
  {}

  /** The last fraction of a segment gives exactly the value at the start of the next one. */
  lemma SegmentsJoin(yData: seq<Q15>, index: nat, nValues: nat)
    requires index + 2 < nValues <= |yData|
    ensures Truncated(yData, index * 0x10_0000 + 0xF_FFFF, nValues)
            == Truncated(yData, (index + 1) * 0x10_0000, nValues)
            == Dip(yData[index + 1])
  {}

  /** On a nondecreasing table the result is nondecreasing in x, over all segments and into the clamped end. */
  lemma TruncatedMonotone(yData: seq<Q15>, x: Q31, x': Q31, nValues: nat)
    requires 1 <= nValues <= |yData| && NonDecreasing(yData, nValues)
    requires 0 <= x <= x'
    ensures Truncated(yData, x, nValues) <= Truncated(yData, x', nValues)
  {
    var i, f := x / 0x10_0000, x % 0x10_0000;
    var i', f' := x' / 0x10_0000, x' % 0x10_0000;
    if i' < nValues - 1 && i == i' {
      BlendMonotone(yData[i], yData[i + 1], f, f');
    } else if i < nValues - 1 {
      BlendRange(yData[i], yData[i + 1], f);
      var above := if i' < nValues - 1 then i' else nValues - 1;
      assert yData[i] <= yData[i + 1] <= yData[above];
      if i' < nValues - 1 {
        BlendRange(yData[i'], yData[i' + 1], f');
        assert yData[i'] <= yData[i' + 1];
      }
    }
  }

  lemma BlendMonotone(y0: int, y1: int, f: int, f': int)
    requires y0 <= y1 && f <= f'
    ensures Blend(y0, y1, f) <= Blend(y0, y1, f')
  {
    MulMono(f, f', y1 - y0);
    BlendSlope(y0, y1, f);
    BlendSlope(y0, y1, f');
  }

  lemma BlendSlope(y0: int, y1: int, f: int)
    ensures y0 * (0xF_FFFF - f) + y1 * f == y0 * 0xF_FFFF + (y1 - y0) * f
  {}

  lemma InterpQ15Monotone(yData: seq<Q15>, x: Q31, x': Q31, nValues: nat)
    requires 1 <= nValues <= |yData| && NonDecreasing(yData, nValues)
    requires 0 <= x <= x'
    ensures InterpQ15(yData, x, nValues) <= InterpQ15(yData, x', nValues)
  {
    InterpQ15Fits(yData, x, nValues);
    InterpQ15Fits(yData, x', nValues);
    TruncatedMonotone(yData, x, x', nValues);
  }

  lemma InterpQ7Monotone(yData: seq<Q7>, x: Q31, x': Q31, nValues: nat)
    requires 1 <= nValues <= |yData| && NonDecreasing(yData, nValues)
    requires 0 <= x <= x'
    ensures InterpQ7(yData, x, nValues) <= InterpQ7(yData, x', nValues)
  {
    InterpQ7Fits(yData, x, nValues);
    InterpQ7Fits(yData, x', nValues);
    TruncatedMonotone(yData, x, x', nValues);
  }

  ghost predicate TruncatedMonotoneEverywhere(yData: seq<Q15>, nValues: nat)
    requires 1 <= nValues <= |yData|
  {
    forall x: Q31, x': Q31 :: x <= x' ==> Truncated(yData, x, nValues) <= Truncated(yData, x', nValues)
  }

  ghost predicate Q15MonotoneEverywhere(yData: seq<Q15>, nValues: nat)
    requires 1 <= nValues <= |yData|
  {
    forall x: Q31, x': Q31 :: x <= x' ==> InterpQ15(yData, x, nValues) <= InterpQ15(yData, x', nValues)
  }

  ghost predicate Q7MonotoneEverywhere(yData: seq<Q7>, nValues: nat)
    requires 1 <= nValues <= |yData|
  {
    forall x: Q31, x': Q31 :: x <= x' ==> InterpQ7(yData, x, nValues) <= InterpQ7(yData, x', nValues)
  }

  /**
   Below the table the first value is returned whole, while the first segment starts with the
   dipped one. Monotonicity over all inputs therefore holds exactly when that value is not
   positive, or the table has a single entry.
   */
  lemma TruncatedMonotoneExactness(yData: seq<Q15>, nValues: nat)
    requires 1 <= nValues <= |yData| && NonDecreasing(yData, nValues)
    ensures TruncatedMonotoneEverywhere(yData, nValues) <==> yData[0] <= 0 || nValues == 1
  {
    var below: Q31 := -1;
    if nValues > 1 {
      BelowAndAtStart(yData, nValues);
      if yData[0] > 0 {
        assert Truncated(yData, below, nValues) > Truncated(yData, 0, nValues);
      }
    }
    if yData[0] <= 0 || nValues == 1 {
      forall x: Q31, x': Q31 | x <= x'
        ensures Truncated(yData, x, nValues) <= Truncated(yData, x', nValues)
      {
        if 0 <= x {
          TruncatedMonotone(yData, x, x', nValues);
        } else if 0 <= x' && nValues > 1 {
          BelowAndAtStart(yData, nValues);
          TruncatedMonotone(yData, 0, x', nValues);
        }
      }
    }
  }

  lemma BelowAndAtStart(yData: seq<Q15>, nValues: nat)
    requires 1 < nValues <= |yData|
    ensures Truncated(yData, -1, nValues) == yData[0]
    ensures Truncated(yData, 0, nValues) == Dip(yData[0])
  {}

  lemma InterpQ15MonotoneExactness(yData: seq<Q15>, nValues: nat)
    requires 1 <= nValues <= |yData| && NonDecreasing(yData, nValues)
    ensures Q15MonotoneEverywhere(yData, nValues) <==> yData[0] <= 0 || nValues == 1
  {
    forall x: Q31
      ensures InterpQ15(yData, x, nValues) == Truncated(yData, x, nValues)
    {
      InterpQ15Fits(yData, x, nValues);
    }
    TruncatedMonotoneExactness(yData, nValues);
    assert Q15MonotoneEverywhere(yData, nValues) <==> TruncatedMonotoneEverywhere(yData, nValues);
  }

  lemma InterpQ7MonotoneExactness(yData: seq<Q7>, nValues: nat)
    requires 1 <= nValues <= |yData| && NonDecreasing(yData, nValues)
    ensures Q7MonotoneEverywhere(yData, nValues) <==> yData[0] <= 0 || nValues == 1
  {
    forall x: Q31
      ensures InterpQ7(yData, x, nValues) == Truncated(yData, x, nValues)
    {
      InterpQ7Fits(yData, x, nValues);
    }
    TruncatedMonotoneExactness(yData, nValues);
    assert Q7MonotoneEverywhere(yData, nValues) <==> TruncatedMonotoneEverywhere(yData, nValues);
  }
}
