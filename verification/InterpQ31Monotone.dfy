/**
 When is `arm_linear_interp_q31` monotone? It truncates its two products separately, so on a
 nondecreasing table it can dip. This module bounds the dip, reduces monotonicity of the whole
 function to its segments, and decides every segment exactly.
 */
module InterpQ31Monotone {
  import opened FixedPoint
  import opened BitLoops
  import opened LinearInterp

  ghost predicate NonDecreasingQ31(yData: seq<Q31>, nValues: nat)
    requires nValues <= |yData|
  {
    forall i, j :: 0 <= i <= j < nValues ==> yData[i] <= yData[j]
  }

  /** The interior branch for the fraction `f` of x, in units of 2^-20. */
  function Segment(y0: Q31, y1: Q31, f: int): Q31 { BlendQ31(y0, y1, f * 0x800) }

  /** Half of it, as the sum of the two truncated products. */
  function Half(y0: int, y1: int, f: int): int {
    (y0 * (0x7FFF_FFFF - f * 0x800)) / 0x1_0000_0000 + (y1 * (f * 0x800)) / 0x1_0000_0000
  }

  /** Half of what a segment returns at its start. */
  function StartHalf(y: int): int { (y * 0x7FFF_FFFF) / 0x1_0000_0000 }

  lemma SegmentIsTwiceHalf(y0: Q31, y1: Q31, f: int)
    requires 0 <= f < 0x10_0000
    ensures Segment(y0, y1, f) == 2 * Half(y0, y1, f)
    ensures Half(y0, y1, 0) == StartHalf(y0)
  {
    BlendQ31Fits(y0, y1, f);
    assert y1 * 0 == 0;
  }

  // ---------------------------------------------------------------------------
  // Dips are at most two units
  // ---------------------------------------------------------------------------

  /** The two products before they are truncated. */
  function Products(y0: int, y1: int, f: int): int { y0 * 0x7FFF_FFFF + (y1 - y0) * f * 0x800 }

  lemma HalfBounds(y0: int, y1: int, f: int)
    ensures 0 <= Products(y0, y1, f) - 0x1_0000_0000 * Half(y0, y1, f) < 0x2_0000_0000
  {
    var a, b := y0 * (0x7FFF_FFFF - f * 0x800), y1 * (f * 0x800);
    assert a + b == Products(y0, y1, f) by {
      assert a == y0 * 0x7FFF_FFFF - y0 * f * 0x800;
      assert b == y1 * f * 0x800;
      assert (y1 - y0) * f == y1 * f - y0 * f;
    }
    TruncatedPair(a, b);
  }

  lemma TruncatedPair(a: int, b: int)
    ensures 0 <= a + b - 0x1_0000_0000 * (a / 0x1_0000_0000 + b / 0x1_0000_0000) < 0x2_0000_0000
  {}

  /** Within a nondecreasing segment at most one half-unit can be lost. */
  lemma HalfStep(y0: int, y1: int, f: int, f': int)
    requires y0 <= y1 && f <= f'
    ensures Half(y0, y1, f) - 1 <= Half(y0, y1, f')
  {
    HalfBounds(y0, y1, f);
    HalfBounds(y0, y1, f');
    MulMono(f, f', y1 - y0);
  }

  /** No point of a segment exceeds the start of the next one. */
  lemma HalfBelowNextStart(y0: int, y1: int, f: int)
    requires y0 <= y1 && 0 <= f < 0x10_0000
    ensures Half(y0, y1, f) <= StartHalf(y1)
  {
    var w := 0x7FFF_FFFF - f * 0x800;
    var a, b, c := y0 * w, y1 * (f * 0x800), y1 * 0x7FFF_FFFF;
    MulMono(y0, y1, w);
    assert y1 * w + b == c;
    TruncatedSumBelow(a, b, c);
  }

  lemma TruncatedSumBelow(a: int, b: int, c: int)
    requires a + b <= c
    ensures a / 0x1_0000_0000 + b / 0x1_0000_0000 <= c / 0x1_0000_0000
  {}

  /** The start of a segment is the table value, less one or two units unless that value is even and not positive. */
  lemma StartOfSegment(y: Q31)
    ensures y - 2 <= 2 * StartHalf(y) <= y
    ensures 2 * StartHalf(y) == y <==> y <= 0 && y % 2 == 0
  {}

  lemma StartHalfMonotone(y: int, y': int)
    requires y <= y'
    ensures StartHalf(y) <= StartHalf(y')
  {}

  /**
   On a nondecreasing table the result never falls by more than 2 units over x >= 0, and never
   by more than 4 over all x.
   */
  lemma InterpQ31BoundedDip(yData: seq<Q31>, x: Q31, x': Q31, nValues: nat)
    requires 1 <= nValues <= |yData| && NonDecreasingQ31(yData, nValues)
    requires x <= x'
    ensures InterpQ31(yData, x, nValues) - 4 <= InterpQ31(yData, x', nValues)
    ensures 0 <= x ==> InterpQ31(yData, x, nValues) - 2 <= InterpQ31(yData, x', nValues)
  {
    if 0 <= x {
      DipFromZero(yData, x, x', nValues);
    } else if 0 <= x' && nValues > 1 {
      DipFromZero(yData, 0, x', nValues);
      ValueAt(yData, 0, nValues);
      StartOfSegment(yData[0]);
    }
  }

  /** The value over x >= 0 in terms of halves. */
  lemma ValueAt(yData: seq<Q31>, x: Q31, nValues: nat)
    requires 1 <= nValues <= |yData| && 0 <= x
    ensures var i, f := x / 0x10_0000, x % 0x10_0000;
            InterpQ31(yData, x, nValues)
            == if i >= nValues - 1 then yData[nValues - 1] else 2 * Half(yData[i], yData[i + 1], f)
    ensures x == 0 && nValues > 1 ==> InterpQ31(yData, x, nValues) == 2 * StartHalf(yData[0])
  {
    var i, f := x / 0x10_0000, x % 0x10_0000;
    if i < nValues - 1 {
      SegmentIsTwiceHalf(yData[i], yData[i + 1], f);
    }
  }

  lemma DipFromZero(yData: seq<Q31>, x: Q31, x': Q31, nValues: nat)
    requires 1 <= nValues <= |yData| && NonDecreasingQ31(yData, nValues)
    requires 0 <= x <= x'
    ensures InterpQ31(yData, x, nValues) - 2 <= InterpQ31(yData, x', nValues)
  {
    var i, f := x / 0x10_0000, x % 0x10_0000;
    var i', f' := x' / 0x10_0000, x' % 0x10_0000;
    ValueAt(yData, x, nValues);
    ValueAt(yData, x', nValues);
    if i' < nValues - 1 && i == i' {
      HalfStep(yData[i], yData[i + 1], f, f');
    } else if i < nValues - 1 {
      AcrossSegments(yData, i, f, i', nValues);
      if i' < nValues - 1 {
        HalfStep(yData[i'], yData[i' + 1], 0, f');
      }
    }
  }

  /** Leaving a segment never dips below the start of a later one, nor below the clamped end. */
  lemma AcrossSegments(yData: seq<Q31>, i: int, f: int, i': int, nValues: nat)
    requires 1 <= nValues <= |yData| && NonDecreasingQ31(yData, nValues)
    requires 0 <= i < i' && i < nValues - 1 && 0 <= f < 0x10_0000
    ensures var target := yData[if i' < nValues - 1 then i' else nValues - 1];
            && Half(yData[i], yData[i + 1], f) <= StartHalf(target)
            && 2 * Half(yData[i], yData[i + 1], f) <= target
    ensures i' < nValues - 1 ==> Half(yData[i'], yData[i' + 1], 0) == StartHalf(yData[i'])
  {
    var k := if i' < nValues - 1 then i' else nValues - 1;
    assert yData[i] <= yData[i + 1] <= yData[k];
    HalfBelowNextStart(yData[i], yData[i + 1], f);
    StartHalfMonotone(yData[i + 1], yData[k]);
    StartOfSegment(yData[k]);
    if i' < nValues - 1 {
      SegmentIsTwiceHalf(yData[i'], yData[i' + 1], 0);
    }
  }

  // ---------------------------------------------------------------------------
  // Monotone on the whole range exactly when monotone on every segment
  // ---------------------------------------------------------------------------

  ghost predicate SegmentMonotone(y0: Q31, y1: Q31) {
    forall f, f' :: 0 <= f <= f' < 0x10_0000 ==> Segment(y0, y1, f) <= Segment(y0, y1, f')
  }

  /** The segments that a nonnegative 12.20 input can reach: at most 2048. */
  predicate Reachable(i: int, nValues: nat) { 0 <= i < nValues - 1 && i < 0x800 }

  ghost predicate MonotoneFromZero(yData: seq<Q31>, nValues: nat)
    requires 1 <= nValues <= |yData|
  {
    forall x: Q31, x': Q31 :: 0 <= x <= x' ==> InterpQ31(yData, x, nValues) <= InterpQ31(yData, x', nValues)
  }

  ghost predicate MonotoneEverywhere(yData: seq<Q31>, nValues: nat)
    requires 1 <= nValues <= |yData|
  {
    forall x: Q31, x': Q31 :: x <= x' ==> InterpQ31(yData, x, nValues) <= InterpQ31(yData, x', nValues)
  }

  lemma MonotoneBySegments(yData: seq<Q31>, nValues: nat)
    requires 1 <= nValues <= |yData| && NonDecreasingQ31(yData, nValues)
    ensures MonotoneFromZero(yData, nValues)
            <==> forall i :: Reachable(i, nValues) ==> SegmentMonotone(yData[i], yData[i + 1])
  {
    if MonotoneFromZero(yData, nValues) {
      forall i | Reachable(i, nValues)
        ensures SegmentMonotone(yData[i], yData[i + 1])
      {
        ToSegment(yData, i, nValues);
      }
    }
    if forall i :: Reachable(i, nValues) ==> SegmentMonotone(yData[i], yData[i + 1]) {
      forall x: Q31, x': Q31 | 0 <= x <= x'
        ensures InterpQ31(yData, x, nValues) <= InterpQ31(yData, x', nValues)
      {
        FromSegments(yData, x, x', nValues);
      }
    }
  }

  lemma ToSegment(yData: seq<Q31>, i: int, nValues: nat)
    requires 1 <= nValues <= |yData| && MonotoneFromZero(yData, nValues) && Reachable(i, nValues)
    ensures SegmentMonotone(yData[i], yData[i + 1])
  {
    var y0, y1 := yData[i], yData[i + 1];
    forall f, f' | 0 <= f <= f' < 0x10_0000
      ensures Segment(y0, y1, f) <= Segment(y0, y1, f')
    {
      InSegment(yData, i, f, nValues);
      InSegment(yData, i, f', nValues);
      assert InterpQ31(yData, i * 0x10_0000 + f, nValues) <= InterpQ31(yData, i * 0x10_0000 + f', nValues);
    }
  }

  lemma InSegment(yData: seq<Q31>, i: int, f: int, nValues: nat)
    requires 1 <= nValues <= |yData| && Reachable(i, nValues) && 0 <= f < 0x10_0000
    ensures 0 <= i * 0x10_0000 + f < 0x8000_0000
    ensures InterpQ31(yData, i * 0x10_0000 + f, nValues) == Segment(yData[i], yData[i + 1], f)
  {
    DivUnique(i * 0x10_0000 + f, 0x10_0000, i, f);
  }

  lemma FromSegments(yData: seq<Q31>, x: Q31, x': Q31, nValues: nat)
    requires 1 <= nValues <= |yData| && NonDecreasingQ31(yData, nValues)
    requires forall i :: Reachable(i, nValues) ==> SegmentMonotone(yData[i], yData[i + 1])
    requires 0 <= x <= x'
    ensures InterpQ31(yData, x, nValues) <= InterpQ31(yData, x', nValues)
  {
    var i, f := x / 0x10_0000, x % 0x10_0000;
    var i', f' := x' / 0x10_0000, x' % 0x10_0000;
    ValueAt(yData, x, nValues);
    ValueAt(yData, x', nValues);
    if i' < nValues - 1 {
      assert Reachable(i', nValues);
      var from := if i == i' then f else 0;
      SegmentIsTwiceHalf(yData[i'], yData[i' + 1], from);
      SegmentIsTwiceHalf(yData[i'], yData[i' + 1], f');
      assert Segment(yData[i'], yData[i' + 1], from) <= Segment(yData[i'], yData[i' + 1], f');
    }
    if i < i' && i < nValues - 1 {
      AcrossSegments(yData, i, f, i', nValues);
    }
  }

  /** Over all inputs the first value must in addition be even and not positive, or alone in the table. */
  lemma MonotoneEverywhereExactness(yData: seq<Q31>, nValues: nat)
    requires 1 <= nValues <= |yData| && NonDecreasingQ31(yData, nValues)
    ensures MonotoneEverywhere(yData, nValues)
            <==> MonotoneFromZero(yData, nValues) && (nValues == 1 || (yData[0] <= 0 && yData[0] % 2 == 0))
  {
    var below: Q31 := -1;
    assert InterpQ31(yData, below, nValues) == yData[0];
    if nValues > 1 {
      ValueAt(yData, 0, nValues);
      StartOfSegment(yData[0]);
      if MonotoneEverywhere(yData, nValues) {
        assert InterpQ31(yData, below, nValues) <= InterpQ31(yData, 0, nValues);
      }
    }
    if MonotoneFromZero(yData, nValues) && (nValues == 1 || (yData[0] <= 0 && yData[0] % 2 == 0)) {
      forall x: Q31, x': Q31 | x <= x'
        ensures InterpQ31(yData, x, nValues) <= InterpQ31(yData, x', nValues)
      {
        if x < 0 && 0 <= x' && nValues > 1 {
          assert InterpQ31(yData, 0, nValues) <= InterpQ31(yData, x', nValues);
        }
      }
    }
  }

  // ---------------------------------------------------------------------------
  // One segment, step by step
  // ---------------------------------------------------------------------------

  /** Which multiple of 2^21 a value has reached: what a step of the fraction moves a product by. */
  function Block(y: int): int { y / 0x20_0000 }

  /** The first product at the start of a segment, in units of 2^-21 of a half. */
  function Start(y: int): int { (y * 0x7FFF_FFFF) / 0x800 }

  /** The first product falls by one more than `Block(y)` on the step to f. */
  predicate Loses(y: int, f: int) { (Start(y) - y * (f - 1)) % 0x20_0000 < y % 0x20_0000 }

  /** The second product rises by one more than `Block(y)` on the step to f. */
  predicate Gains(y: int, f: int) { (y * f) % 0x20_0000 < y % 0x20_0000 }

  lemma StepOfHalf(y0: int, y1: int, f: int)
    ensures Half(y0, y1, f) - Half(y0, y1, f - 1)
            == Block(y1) - Block(y0) + (if Gains(y1, f) then 1 else 0) - (if Loses(y0, f) then 1 else 0)
  {
    HalfInSteps(y0, y1, f, y0 * f, y1 * f);
    HalfInSteps(y0, y1, f - 1, y0 * (f - 1), y1 * (f - 1));
    assert y0 * f == y0 * (f - 1) + y0;
    assert y1 * f == y1 * (f - 1) + y1;
    FloorStep(Start(y0) - y0 * (f - 1), y0);
    FloorStep(y1 * f, y1);
  }

  lemma HalfInSteps(y0: int, y1: int, f: int, p0: int, p1: int)
    requires p0 == y0 * f && p1 == y1 * f
    ensures Half(y0, y1, f) == (Start(y0) - p0) / 0x20_0000 + p1 / 0x20_0000
  {
    assert y0 * (0x7FFF_FFFF - f * 0x800) == y0 * 0x7FFF_FFFF - 0x800 * p0;
    assert y1 * (f * 0x800) == 0x800 * p1;
    ShiftInTwo(y0 * 0x7FFF_FFFF, p0);
    ShiftInTwo(0, -p1);
  }

  lemma ShiftInTwo(a: int, p: int)
    ensures (a - 0x800 * p) / 0x1_0000_0000 == (a / 0x800 - p) / 0x20_0000
  {}

  lemma FloorStep(a: int, y: int)
    ensures a / 0x20_0000 - (a - y) / 0x20_0000
            == Block(y) + if a % 0x20_0000 < y % 0x20_0000 then 1 else 0
  {}

  /** A segment that starts on a multiple of 2^21 or reaches another one. */
  predicate FromBlock(y0: int, y1: int) { y0 <= y1 - y1 % 0x20_0000 }

  /** Within one block, every step on which the first product loses a unit must gain one. */
  ghost predicate LossesCovered(y0: int, y1: int) {
    forall f :: 0 < f < 0x10_0000 && Loses(y0, f) ==> Gains(y1, f)
  }

  /**
   When a nondecreasing segment is monotone. However small its rise, reaching a new multiple of
   2^21 is enough; inside one block only the steps that lose a unit matter.
   */
  lemma SegmentExactness(y0: Q31, y1: Q31)
    requires y0 <= y1
    ensures SegmentMonotone(y0, y1) <==> FromBlock(y0, y1) || LossesCovered(y0, y1)
  {
    SegmentBySteps(y0, y1);
    forall f | 0 < f < 0x10_0000
      ensures StepHolds(y0, y1, f) <==> Block(y0) < Block(y1) || (Loses(y0, f) ==> Gains(y1, f))
      ensures FromBlock(y0, y1) ==> StepHolds(y0, y1, f)
    {
      StepOfHalf(y0, y1, f);
    }
  }

  ghost predicate StepHolds(y0: int, y1: int, f: int) { Half(y0, y1, f - 1) <= Half(y0, y1, f) }

  lemma SegmentBySteps(y0: Q31, y1: Q31)
    ensures SegmentMonotone(y0, y1) <==> forall f :: 0 < f < 0x10_0000 ==> StepHolds(y0, y1, f)
  {
    if SegmentMonotone(y0, y1) {
      forall f | 0 < f < 0x10_0000
        ensures StepHolds(y0, y1, f)
      {
        assert Segment(y0, y1, f - 1) <= Segment(y0, y1, f);
        SegmentIsTwiceHalf(y0, y1, f - 1);
        SegmentIsTwiceHalf(y0, y1, f);
      }
    }
    if forall f :: 0 < f < 0x10_0000 ==> StepHolds(y0, y1, f) {
      forall f, f' | 0 <= f <= f' < 0x10_0000
        ensures Segment(y0, y1, f) <= Segment(y0, y1, f')
      {
        StepsCompose(y0, y1, f, f');
        SegmentIsTwiceHalf(y0, y1, f);
        SegmentIsTwiceHalf(y0, y1, f');
      }
    }
  }

  lemma {:induction false} StepsCompose(y0: int, y1: int, f: int, f': int)
    requires 0 <= f <= f' < 0x10_0000
    requires forall g :: 0 < g < 0x10_0000 ==> StepHolds(y0, y1, g)
    ensures Half(y0, y1, f) <= Half(y0, y1, f')
    decreases f' - f
  {
    if f < f' {
      StepsCompose(y0, y1, f, f' - 1);
      assert StepHolds(y0, y1, f');
    }
  }

  /** A segment inside one block that rises and is not monotone: step 257 loses a unit and gains none. */
  lemma SmallRiseFails()
    ensures Loses(4095, 257) && !Gains(4096, 257) && !SegmentMonotone(4095, 4096)
  {
    LosingStep(4095, 257);
    IdleStep(4096, 257);
    SegmentExactness(4095, 4096);
  }

  lemma LosingStep(y: int, f: int)
    requires y == 4095 && f == 257
    ensures Loses(y, f)
  {
    DivUnique(y * 0x7FFF_FFFF, 0x800, 4293918718, 1);
  }

  lemma IdleStep(y: int, f: int)
    requires y == 4096 && f == 257
    ensures !Gains(y, f)
  {}

  /** Constant segments have a closed form; the others are decided as above. */
  ghost predicate SegmentCondition(y0: Q31, y1: Q31) {
    if y0 == y1 then FlatIsMonotone(y0) else FromBlock(y0, y1) || LossesCovered(y0, y1)
  }

  /** Every nondecreasing table is monotone over x >= 0 if and only if each reachable segment meets its condition. */
  lemma TableExactness(yData: seq<Q31>, nValues: nat)
    requires 1 <= nValues <= |yData| && NonDecreasingQ31(yData, nValues)
    ensures MonotoneFromZero(yData, nValues)
            <==> forall i :: Reachable(i, nValues) ==> SegmentCondition(yData[i], yData[i + 1])
  {
    MonotoneBySegments(yData, nValues);
    forall i | Reachable(i, nValues)
      ensures SegmentMonotone(yData[i], yData[i + 1]) <==> SegmentCondition(yData[i], yData[i + 1])
    {
      SegmentExactness(yData[i], yData[i + 1]);
      FlatSegmentExactness(yData[i]);
    }
  }

  /** Tables whose segments all start on a multiple of 2^21 or reach another one are monotone over x >= 0. */
  lemma BlockTableMonotone(yData: seq<Q31>, nValues: nat)
    requires 1 <= nValues <= |yData|
    requires forall i :: 0 <= i < nValues - 1 ==> FromBlock(yData[i], yData[i + 1])
    ensures MonotoneFromZero(yData, nValues)
  {
    forall i, j | 0 <= i <= j < nValues
      ensures yData[i] <= yData[j]
    {
      RisesByEntries(yData, i, j, nValues);
    }
    forall i | Reachable(i, nValues)
      ensures SegmentMonotone(yData[i], yData[i + 1])
    {
      SegmentExactness(yData[i], yData[i + 1]);
    }
    MonotoneBySegments(yData, nValues);
  }

  lemma {:induction false} RisesByEntries(yData: seq<Q31>, i: int, j: int, nValues: nat)
    requires 0 <= i <= j < nValues <= |yData|
    requires forall k :: 0 <= k < nValues - 1 ==> FromBlock(yData[k], yData[k + 1])
    ensures yData[i] <= yData[j]
    decreases j - i
  {
    if i < j {
      RisesByEntries(yData, i, j - 1, nValues);
      assert FromBlock(yData[j - 1], yData[j - 1 + 1]);
    }
  }

  /** A constant table that attains both bounds: 4 below its value, of which 2 are lost within the segment. */
  lemma InterpQ31NotMonotone()
    ensures var flat: seq<Q31> := [4098, 4098];
            && InterpQ31(flat, -1, 2) == 4098
            && InterpQ31(flat, 0, 2) == 4096
            && InterpQ31(flat, 2047, 2) == 4094
  {
    var flat: seq<Q31> := [4098, 4098];
    ValueAt(flat, 0, 2);
    ValueAt(flat, 2047, 2);
    SmallHalves(flat[0]);
  }

  lemma SmallHalves(y: int)
    requires y == 4098
    ensures Half(y, y, 0) == 2048 && Half(y, y, 2047) == 2047
  {}

  // ---------------------------------------------------------------------------
  // Flat segments
  // ---------------------------------------------------------------------------

  /** y * f modulo 2^21: what the second product loses, in units of 2^-21. */
  function Residue(y: int, f: int): nat { (y * f) % 0x20_0000 }

  /** What the value itself leaves over at the start of the segment. */
  function Slack(y: int): nat { (y * 0x7FFF_FFFF) % 0x1_0000_0000 }

  /** On a flat segment the whole second product cancels except its residue. */
  lemma FlatHalf(y: int, f: int)
    ensures Half(y, y, f) == (y * 0x7FFF_FFFF - Residue(y, f) * 0x800) / 0x1_0000_0000
  {
    var q, r := (y * f) / 0x20_0000, Residue(y, f);
    var n := y * 0x7FFF_FFFF;
    assert y * (f * 0x800) == q * 0x1_0000_0000 + r * 0x800;
    assert y * (0x7FFF_FFFF - f * 0x800) == n - q * 0x1_0000_0000 - r * 0x800;
    CancelQuotient(n - r * 0x800, q, r * 0x800);
  }

  lemma CancelQuotient(a: int, q: int, low: int)
    requires 0 <= low < 0x1_0000_0000
    ensures (a - q * 0x1_0000_0000) / 0x1_0000_0000 + (q * 0x1_0000_0000 + low) / 0x1_0000_0000
            == a / 0x1_0000_0000
  {}

  /** The largest residue of any fraction decides whether the segment is monotone. */
  ghost predicate IsTopResidue(y: int, top: int) {
    && (exists f :: 0 <= f < 0x10_0000 && Residue(y, f) == top)
    && (forall f :: 0 <= f < 0x10_0000 ==> Residue(y, f) <= top)
  }

  lemma FlatSegmentByTopResidue(y: Q31, top: int)
    requires IsTopResidue(y, top)
    ensures SegmentMonotone(y, y) <==> top * 0x800 <= Slack(y)
  {
    forall f | 0 <= f < 0x10_0000
      ensures Segment(y, y, f) <= Segment(y, y, 0)
      ensures Segment(y, y, f) == Segment(y, y, 0) <==> Residue(y, f) * 0x800 <= Slack(y)
    {
      FlatLoss(y, f);
    }
    var g :| 0 <= g < 0x10_0000 && Residue(y, g) == top;
    if SegmentMonotone(y, y) {
      assert Segment(y, y, 0) <= Segment(y, y, g);
    }
  }

  lemma FlatLoss(y: Q31, f: int)
    requires 0 <= f < 0x10_0000
    ensures Segment(y, y, f) <= Segment(y, y, 0)
    ensures Segment(y, y, f) == Segment(y, y, 0) <==> Residue(y, f) * 0x800 <= Slack(y)
  {
    SegmentIsTwiceHalf(y, y, f);
    SegmentIsTwiceHalf(y, y, 0);
    FlatHalf(y, f);
    BorrowFree(y * 0x7FFF_FFFF, Residue(y, f) * 0x800);
  }

  lemma BorrowFree(n: int, low: int)
    requires 0 <= low < 0x1_0000_0000
    ensures (n - low) / 0x1_0000_0000 <= n / 0x1_0000_0000
    ensures (n - low) / 0x1_0000_0000 == n / 0x1_0000_0000 <==> low <= n % 0x1_0000_0000
  {}

  /** The inverse of an odd number modulo 2^21, by three doublings of precision from three bits. */
  function Inverse(y: int): int { Refined(y, Refined(y, Refined(y, y % 0x20_0000))) }

  function Refined(y: int, h: int): int { h * (2 - y * h) % 0x20_0000 }

  /** The least k > 0 such that 2^21 - k is a residue of a fraction below 2^20. */
  function FirstGap(h: int): int
    requires 0 < h
  {
    if h > 0x10_0000 then 1 else 0x10_0000 / h + 1
  }

  /**
   When a flat segment of value y is monotone (that is, constant): y is a multiple of 2^21; or
   y is even, positive and at most 2^11 times its lowest set bit; or y is odd and the gap below
   2^21 that its multiples leave is at least (y + 2^31) / 2^11.
   */
  predicate FlatIsMonotone(y: Q31) {
    if y % 0x20_0000 == 0 then true
    else if y % 2 == 0 then 0 < y <= 0x800 * Pow2(TrailingZeros(Abs(y)))
    else
      InverseIsInverse(y);
      y + 0x8000_0000 <= 0x800 * FirstGap(Inverse(y))
  }

  lemma FlatSegmentExactness(y: Q31)
    ensures SegmentMonotone(y, y) <==> FlatIsMonotone(y)
  {
    if y % 0x20_0000 == 0 {
      MultipleTop(y);
      FlatSegmentByTopResidue(y, 0);
    } else if y % 2 == 0 {
      EvenTop(y);
      FlatSegmentByTopResidue(y, 0x20_0000 - Pow2(TrailingZeros(Abs(y))));
      EvenSlack(y);
      NegativeSlack(y);
    } else {
      OddTop(y);
      FlatSegmentByTopResidue(y, 0x20_0000 - FirstGap(Inverse(y)));
      OddSlack(y);
    }
  }

  /** Among positive odd values only 1 gives a monotone flat segment; negative ones can, such as -2^31 + 1. */
  lemma FlatOddValues(y: Q31)
    requires y % 2 == 1
    ensures 0 < y ==> (SegmentMonotone(y, y) <==> y == 1)
    ensures y % 0x20_0000 == 1 ==> (SegmentMonotone(y, y) <==> y <= 1)
  {
    OddCondition(y);
    InverseIsOneOnly(y);
    GapOf(Inverse(y));
    GapDecides(y, FirstGap(Inverse(y)), SegmentMonotone(y, y));
  }

  lemma OddCondition(y: Q31)
    requires y % 2 == 1
    ensures 0 < Inverse(y)
    ensures SegmentMonotone(y, y) <==> y + 0x8000_0000 <= 0x800 * FirstGap(Inverse(y))
  {
    InverseIsInverse(y);
    FlatSegmentExactness(y);
  }

  lemma GapDecides(y: Q31, gap: int, monotone: bool)
    requires monotone <==> y + 0x8000_0000 <= 0x800 * gap
    requires gap <= 0x10_0001 && (gap == 0x10_0001 <==> y % 0x20_0000 == 1)
    ensures 0 < y ==> (monotone <==> y == 1)
    ensures y % 0x20_0000 == 1 ==> (monotone <==> y <= 1)
  {}

  lemma InverseIsOneOnly(y: int)
    requires y % 2 == 1
    ensures 0 < Inverse(y)
    ensures Inverse(y) == 1 <==> y % 0x20_0000 == 1
  {
    InverseIsInverse(y);
    OneOnly(y, Inverse(y));
  }

  lemma OneOnly(y: int, h: int)
    requires 0 < h < 0x20_0000 && (y * h) % 0x20_0000 == 1
    ensures h == 1 <==> y % 0x20_0000 == 1
  {
    if y % 0x20_0000 == 1 {
      OwnInverse(y, h);
    }
  }

  lemma GapOf(h: int)
    requires 0 < h
    ensures FirstGap(h) <= 0x10_0001
    ensures FirstGap(h) == 0x10_0001 <==> h == 1
  {
    LargeQuotient(h);
  }

  lemma OwnInverse(y: int, h: int)
    requires y % 0x20_0000 == 1 && 0 < h < 0x20_0000 && (y * h) % 0x20_0000 == 1
    ensures h == 1
  {
    var c := y / 0x20_0000;
    assert y * h == (c * h) * 0x20_0000 + h;
    DivUnique(y * h, 0x20_0000, c * h, h);
  }

  lemma LargeQuotient(h: int)
    requires 0 < h
    ensures 0x10_0000 / h <= 0x10_0000
    ensures 0x10_0000 / h == 0x10_0000 <==> h == 1
  {}

  lemma MultipleTop(y: int)
    requires y % 0x20_0000 == 0
    ensures IsTopResidue(y, 0)
  {
    MultipleHasNoResidue(y, 0);
    forall f | 0 <= f < 0x10_0000
      ensures Residue(y, f) <= 0
    {
      MultipleHasNoResidue(y, f);
    }
  }

  lemma MultipleHasNoResidue(y: int, f: int)
    requires y % 0x20_0000 == 0
    ensures Residue(y, f) == 0
  {
    var k := y / 0x20_0000;
    assert y * f == k * f * 0x20_0000;
    DivUnique(y * f, 0x20_0000, k * f, 0);
  }

  // --- inverses modulo powers of two ---

  lemma InverseIsInverse(y: int)
    requires y % 2 == 1
    ensures 0 < Inverse(y) < 0x20_0000
    ensures (y * Inverse(y)) % 0x20_0000 == 1
  {
    var h0 := y % 0x20_0000;
    OddSquare(y);
    ThreeDoublings(y, h0, Refined(y, h0), Refined(y, Refined(y, h0)));
    NotZero(y, Inverse(y));
  }

  lemma ThreeDoublings(y: int, h0: int, h1: int, h2: int)
    requires (y * h0) % 8 == 1 && h1 == Refined(y, h0) && h2 == Refined(y, h1)
    ensures (y * Refined(y, h2)) % 0x20_0000 == 1
  {
    RefineDoubles(y, h0, 8, 64);
    RefineDoubles(y, h1, 64, 0x1000);
    RefineDoubles(y, h2, 0x1000, 0x20_0000);
  }

  lemma NotZero(y: int, h: int)
    requires (y * h) % 0x20_0000 == 1
    ensures h != 0
  {}

  lemma OddSquare(y: int)
    requires y % 2 == 1
    ensures (y * (y % 0x20_0000)) % 8 == 1
  {
    var k, c := y / 2, y / 0x20_0000;
    var p := y * c;
    var t := k * (k + 1);
    ConsecutiveProduct(k);
    assert y * y == 4 * t + 1;
    assert y * (y % 0x20_0000) == y * y - p * 0x20_0000;
    DivUnique(y * (y % 0x20_0000), 8, t / 2 - p * 0x4_0000, 1);
  }

  lemma ConsecutiveProduct(k: int)
    ensures k * (k + 1) % 2 == 0
  {
    ProductParity(k, k + 1);
  }

  lemma ProductParity(a: int, b: int)
    ensures a % 2 == 0 || b % 2 == 0 ==> (a * b) % 2 == 0
  {
    if b % 2 == 0 {
      EvenFactor(a, b, b / 2);
    } else if a % 2 == 0 {
      EvenFactor(b, a, a / 2);
      Commutes(a, b);
    }
  }

  lemma Commutes(a: int, b: int)
    ensures a * b == b * a
  {}

  lemma EvenFactor(a: int, b: int, half: int)
    requires b == 2 * half
    ensures (a * b) % 2 == 0
  {
    DoubleFactor(a, half);
    DivUnique(a * b, 2, a * half, 0);
  }

  lemma RefineDoubles(y: int, h: int, m: int, m': int)
    requires 0 < m && 1 < m' && (y * h) % m == 1
    requires (m * m) % m' == 0 && 0x20_0000 % m' == 0
    ensures (y * Refined(y, h)) % m' == 1
  {
    var e, c := (y * h) / m, h * (2 - y * h) / 0x20_0000;
    var p := y * h;
    assert p == e * m + 1;
    var a, b := (m * m) / m', 0x20_0000 / m';
    assert y * Refined(y, h) == y * (h * (2 - p)) - y * c * 0x20_0000;
    assert y * (h * (2 - p)) == p * (2 - p);
    assert p * (2 - p) == 1 - e * e * (m * m) by {
      assert (e * m + 1) * (1 - e * m) == 1 - (e * m) * (e * m);
      assert (e * m) * (e * m) == e * e * (m * m);
    }
    assert e * e * (m * m) == e * e * a * m';
    assert y * c * 0x20_0000 == y * c * b * m';
    FactorOut(e * e * a, y * c * b, m');
    DivUnique(y * Refined(y, h), m', -(e * e * a) - y * c * b, 1);
  }

  lemma FactorOut(a: int, b: int, m: int)
    ensures (-a - b) * m == -(a * m) - b * m
  {}

  // --- odd values ---

  lemma OddTop(y: int)
    requires y % 2 == 1
    ensures 0 < Inverse(y)
    ensures IsTopResidue(y, 0x20_0000 - FirstGap(Inverse(y)))
  {
    InverseIsInverse(y);
    var h := Inverse(y);
    var d := FirstGap(h);
    InverseIsOdd(y, h);
    GapIsReached(y, h, d);
    forall f | 0 <= f < 0x10_0000
      ensures Residue(y, f) <= 0x20_0000 - d
    {
      GapIsFirst(y, h, d, f);
    }
  }

  lemma InverseIsOdd(y: int, h: int)
    requires (y * h) % 0x20_0000 == 1
    ensures h % 2 == 1
  {
    ProductParity(y, h);
  }

  lemma OddSlack(y: Q31)
    requires y % 2 == 1
    ensures Slack(y) == 0x8000_0000 - y
  {
    var k := y / 2;
    DivUnique(y * 0x7FFF_FFFF, 0x1_0000_0000, k, 0x8000_0000 - y);
  }

  lemma GapRange(h: int)
    requires 0 < h < 0x20_0000 && h % 2 == 1
    ensures var d := FirstGap(h);
            && 0 < d <= 0x10_0001
            && (if h > 0x10_0000 then d == 1 else 0x10_0000 < d * h < 0x20_0000)
            && forall k :: 0 < k < d ==> h <= 0x10_0000 && 0 < k * h <= 0x10_0000
  {
    if h <= 0x10_0000 {
      var q := 0x10_0000 / h;
      LargeQuotient(h);
      QuotientNonNegative(0x10_0000, h);
      FirstAbove(h, q);
      forall k | 0 < k < q + 1
        ensures 0 < k * h <= 0x10_0000
      {
        MulMono(1, k, h);
        MulMono(k, q, h);
      }
    }
  }

  /** An odd number other than 1 does not divide 2^20, and 1 stops short of 2^21. */
  lemma FirstAbove(h: int, q: int)
    requires 0 < h <= 0x10_0000 && h % 2 == 1 && q == 0x10_0000 / h
    ensures q * h <= 0x10_0000 < (q + 1) * h < 0x20_0000
  {
    assert q * h <= 0x10_0000 < q * h + h;
    assert (q + 1) * h == q * h + h;
  }

  lemma QuotientNonNegative(a: nat, h: int)
    requires 0 < h
    ensures 0 <= a / h
  {}

  /** Some fraction below 2^20 has the residue 2^21 - d. */
  lemma GapIsReached(y: int, h: int, d: int)
    requires 0 < h < 0x20_0000 && h % 2 == 1 && (y * h) % 0x20_0000 == 1 && d == FirstGap(h)
    ensures exists f :: 0 <= f < 0x10_0000 && Residue(y, f) == 0x20_0000 - d
  {
    GapRange(h);
    var f := 0x20_0000 - d * h;
    var e := (y * h) / 0x20_0000;
    assert y * f == y * 0x20_0000 - d * (y * h);
    assert d * (y * h) == d * e * 0x20_0000 + d;
    assert y * f == (y - d * e - 1) * 0x20_0000 + (0x20_0000 - d);
    DivUnique(y * f, 0x20_0000, y - d * e - 1, 0x20_0000 - d);
    assert Residue(y, f) == 0x20_0000 - d;
  }

  /** No fraction below 2^20 has a larger one. */
  lemma GapIsFirst(y: int, h: int, d: int, f: int)
    requires 0 < h < 0x20_0000 && h % 2 == 1 && (y * h) % 0x20_0000 == 1 && d == FirstGap(h)
    requires 0 <= f < 0x10_0000
    ensures Residue(y, f) <= 0x20_0000 - d
  {
    GapRange(h);
    var k, n := FractionFromResidue(y, h, f);
    if k < d {
      assert false;
    }
  }

  /** A fraction is the product of its residue and the inverse. */
  lemma FractionFromResidue(y: int, h: int, f: int) returns (k: int, n: int)
    requires (y * h) % 0x20_0000 == 1
    ensures k == 0x20_0000 - Residue(y, f) && 0 < k
    ensures f == n * 0x20_0000 - k * h
  {
    k := 0x20_0000 - Residue(y, f);
    var e, q := (y * h) / 0x20_0000, (y * f) / 0x20_0000;
    n := h * (q + 1) - e * f;
    assert y * f == (q + 1) * 0x20_0000 - k;
    SolveForFraction(y, h, f, e, q + 1, k);
  }

  lemma SolveForFraction(y: int, h: int, f: int, e: int, q: int, k: int)
    requires y * h == e * 0x20_0000 + 1 && y * f == q * 0x20_0000 - k
    ensures f == (h * q - e * f) * 0x20_0000 - k * h
  {
    assert (y * h) * f == h * (y * f);
    assert (e * 0x20_0000 + 1) * f == e * f * 0x20_0000 + f;
    assert h * (q * 0x20_0000 - k) == h * q * 0x20_0000 - k * h;
  }

  // --- even values ---

  lemma EvenTop(y: int)
    requires y % 2 == 0 && y % 0x20_0000 != 0
    ensures IsTopResidue(y, 0x20_0000 - Pow2(TrailingZeros(Abs(y))))
  {
    AbsRemainders(y);
    var low, period, a := LowestBitDivides(Abs(y));
    var odd := SignedOddPart(y, low, a);
    TopResidue(y, odd, low, period);
  }

  lemma TopResidue(y: int, odd: int, low: int, period: int)
    requires y == odd * low && odd % 2 == 1 && 0 < low
    requires low * period == 0x20_0000 && 2 <= period <= 0x10_0000 && period % 2 == 0
    ensures IsTopResidue(y, 0x20_0000 - low)
  {
    TopResidueReached(y, odd, low, period);
    forall f | 0 <= f < 0x10_0000
      ensures Residue(y, f) <= 0x20_0000 - low
    {
      TopResidueFirst(y, odd, low, period, f);
    }
  }

  lemma AbsRemainders(y: int)
    ensures y % 2 == 0 <==> Abs(y) % 2 == 0
    ensures y % 0x20_0000 == 0 <==> Abs(y) % 0x20_0000 == 0
  {
    if y < 0 {
      NegatedRemainder(y, 2);
      NegatedRemainder(y, 0x20_0000);
    }
  }

  lemma NegatedRemainder(y: int, d: int)
    requires 0 < d
    ensures y % d == 0 <==> -y % d == 0
  {
    var q, r := y / d, y % d;
    assert y == q * d + r;
    if r == 0 {
      DivUnique(-y, d, -q, 0);
    } else {
      DivUnique(-y, d, -q - 1, d - r);
    }
  }

  lemma SignedOddPart(y: int, low: int, a: int) returns (odd: int)
    requires Abs(y) == a * low && a % 2 == 1
    ensures y == odd * low && odd % 2 == 1
  {
    odd := if y < 0 then -a else a;
    assert (-a) * low == -(a * low);
  }

  /** The lowest set bit of an even number that 2^21 does not divide, and how often it goes into 2^21. */
  lemma LowestBitDivides(n: nat) returns (low: int, period: int, a: int)
    requires n % 2 == 0 && n % 0x20_0000 != 0
    ensures low == Pow2(TrailingZeros(n)) && 2 <= low
    ensures n == a * low && a % 2 == 1
    ensures low * period == 0x20_0000 && 2 <= period <= 0x10_0000 && period % 2 == 0
  {
    var t := TrailingZeros(n);
    LowestBitFactor(n);
    a := n / Pow2(t);
    FewTrailingZeros(n, t, a);
    low, period := Pow2(t), Pow2(21 - t);
    Complement(t);
  }

  lemma FewTrailingZeros(n: int, t: nat, rest: int)
    requires n == rest * Pow2(t) && n % 0x20_0000 != 0
    ensures t <= 20
  {
    if 21 <= t {
      Pow2At20And21();
      Pow2Add(t - 21, 21);
      MultipleOf2To21(n, rest, Pow2(t - 21));
      assert false;
    }
  }

  lemma Complement(t: nat)
    requires 1 <= t <= 20
    ensures 2 <= Pow2(t) && Pow2(t) * Pow2(21 - t) == 0x20_0000
    ensures 2 <= Pow2(21 - t) <= 0x10_0000 && Pow2(21 - t) % 2 == 0
  {
    Pow2At20And21();
    Pow2Add(t, 21 - t);
    Pow2Even(t);
    Pow2Even(21 - t);
    Pow2Mono(21 - t, 20);
  }

  lemma Pow2Even(n: nat)
    requires 1 <= n
    ensures 2 <= Pow2(n) && Pow2(n) % 2 == 0
  {
    assert Pow2(n) == 2 * Pow2(n - 1);
  }

  lemma MultipleOf2To21(n: int, rest: int, p: int)
    requires n == rest * (p * 0x20_0000)
    ensures n % 0x20_0000 == 0
  {
    assert n == rest * p * 0x20_0000;
    DivUnique(n, 0x20_0000, rest * p, 0);
  }

  lemma {:induction false} LowestBitFactor(n: nat)
    requires 0 < n
    ensures n == n / Pow2(TrailingZeros(n)) * Pow2(TrailingZeros(n))
    ensures n / Pow2(TrailingZeros(n)) % 2 == 1
    ensures n % 2 == 0 ==> 1 <= TrailingZeros(n)
  {
    if n % 2 == 0 {
      LowestBitFactor(n / 2);
      var p := Pow2(TrailingZeros(n / 2));
      var q := n / 2 / p;
      DoubleFactor(q, p);
      DivUnique(n, 2 * p, q, 0);
    }
  }

  lemma Pow2At20And21()
    ensures Pow2(20) == 0x10_0000 && Pow2(21) == 0x20_0000
  {
    var n := 10;
    Pow2Add(n, n);
    assert Pow2(n) == 0x400;
    assert Pow2(n + n + 1) == 2 * Pow2(n + n);
  }

  lemma EvenSlack(y: int)
    requires -0x8000_0000 <= y < 0x8000_0000 && y % 2 == 0
    ensures Slack(y) == if 0 < y then 0x1_0000_0000 - y else -y
  {
    var k := y / 2;
    if 0 < y {
      DivUnique(y * 0x7FFF_FFFF, 0x1_0000_0000, k - 1, 0x1_0000_0000 - y);
    } else {
      DivUnique(y * 0x7FFF_FFFF, 0x1_0000_0000, k, -y);
    }
  }

  /** A negative value never has room for its top residue. */
  lemma NegativeSlack(y: Q31)
    requires y % 2 == 0 && y % 0x20_0000 != 0
    ensures y < 0 ==> (0x20_0000 - Pow2(TrailingZeros(Abs(y)))) * 0x800 > -y
  {
    AbsRemainders(y);
    var low, period, _ := LowestBitDivides(Abs(y));
    AtMostHalf(low, period);
  }

  lemma AtMostHalf(low: int, period: int)
    requires low * period == 0x20_0000 && 2 <= period && 0 < low
    ensures low <= 0x10_0000
  {
    MulMono(2, period, low);
  }

  /** Some fraction below 2^20 has the residue 2^21 - low. */
  lemma TopResidueReached(y: int, odd: int, low: int, period: int)
    requires y == odd * low && odd % 2 == 1 && 0 < low
    requires low * period == 0x20_0000 && 2 <= period <= 0x10_0000 && period % 2 == 0
    ensures exists f :: 0 <= f < 0x10_0000 && Residue(y, f) == 0x20_0000 - low
  {
    InverseIsInverse(odd);
    var h := Inverse(odd);
    InverseIsOdd(odd, h);
    OddRemainder(h, period);
    var e, c := (odd * h) / 0x20_0000, h / period;
    var f := period - h % period;
    var n := odd + odd * c - e * low;
    NegativeOne(odd, h, e, low, period, c);
    BelowMultiple(y, odd, low, f, n, period);
    MulMono(2, period, low);
    DivUnique(y * f, 0x20_0000, n - 1, 0x20_0000 - low);
    assert Residue(y, f) == 0x20_0000 - low;
  }

  lemma BelowMultiple(y: int, odd: int, low: int, f: int, n: int, period: int)
    requires y == odd * low && low * period == 0x20_0000 && odd * f == n * period - 1
    ensures y * f == (n - 1) * 0x20_0000 + (0x20_0000 - low)
  {
    assert y * f == low * (odd * f) == low * (n * period - 1);
    assert low * (n * period) == n * (low * period);
  }

  lemma OddRemainder(h: int, period: int)
    requires h % 2 == 1 && 0 < period && period % 2 == 0
    ensures h % period % 2 == 1
  {
    var c, half := h / period, period / 2;
    assert c * period == 2 * (c * half);
    OddRest(h, c * half, h % period);
  }

  lemma OddRest(h: int, x: int, r: int)
    requires h == 2 * x + r && h % 2 == 1
    ensures r % 2 == 1
  {}

  lemma NegativeOne(odd: int, h: int, e: int, low: int, period: int, c: int)
    requires 0 < period && odd * h == e * (low * period) + 1 && c == h / period
    ensures odd * (period - h % period) == (odd + odd * c - e * low) * period - 1
  {
    var r := h % period;
    assert h == c * period + r;
    assert odd * h == odd * c * period + odd * r;
    assert (odd + odd * c - e * low) * period == odd * period + odd * c * period - e * (low * period);
    assert odd * (period - r) == odd * period - odd * r;
  }

  /** No fraction below 2^20 has a larger one. */
  lemma TopResidueFirst(y: int, odd: int, low: int, period: int, f: int)
    requires y == odd * low && 0 < low && low * period == 0x20_0000
    ensures Residue(y, f) <= 0x20_0000 - low
  {
    var q := (y * f) / 0x20_0000;
    var m := odd * f - q * period;
    assert Residue(y, f) == m * low by {
      assert y * f == odd * f * low;
      assert q * 0x20_0000 == q * period * low;
      assert (odd * f - q * period) * low == odd * f * low - q * period * low;
    }
    if m >= period {
      MulMono(period, m, low);
      assert false;
    }
    MulMono(m, period - 1, low);
    assert (period - 1) * low == 0x20_0000 - low;
  }
}
