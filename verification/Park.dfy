/**
 The Q31 Park transform and its inverse: a rotation of (Ialpha, Ibeta) by an angle given as
 fixed-point sine and cosine, each product truncated to 1.31 and each sum saturated.
 */
module Park {
  import opened FixedPoint

  datatype Pair = Pair(first: Q31, second: Q31)

  /** `(q31_t)(((q63_t) a * b) >> 31)`. */
  function Product(a: Q31, b: Q31): Q31 { Wrap32((a * b) / 0x8000_0000) }

  /** The only product whose narrowing cast wraps is (-1) * (-1). */
  predicate Wraps(a: Q31, b: Q31) { a == -0x8000_0000 && b == -0x8000_0000 }

  /** `arm_park_q31`: (Ialpha, Ibeta) to (Id, Iq). */
  function Forward(ialpha: Q31, ibeta: Q31, sinVal: Q31, cosVal: Q31): Pair {
    var product1 := Product(ialpha, cosVal);
    var product2 := Product(ibeta, sinVal);
    var product3 := Product(ialpha, sinVal);
    var product4 := Product(ibeta, cosVal);
    Pair(Qadd(product1, product2), Qsub(product4, product3))
  }

  /** `arm_inv_park_q31`: (Id, Iq) to (Ialpha, Ibeta). */
  function Inverse(id: Q31, iq: Q31, sinVal: Q31, cosVal: Q31): Pair {
    var product1 := Product(id, cosVal);
    var product2 := Product(iq, sinVal);
    var product3 := Product(id, sinVal);
    var product4 := Product(iq, cosVal);
    Pair(Qsub(product1, product2), Qadd(product4, product3))
  }

  function RoundTrip(ialpha: Q31, ibeta: Q31, sinVal: Q31, cosVal: Q31): Pair {
    var dq := Forward(ialpha, ibeta, sinVal, cosVal);
    Inverse(dq.first, dq.second, sinVal, cosVal)
  }

  /** The exact rotated coordinates, in 2.62 format. */
  function ExactD(ialpha: int, ibeta: int, s: int, c: int): int { ialpha * c + ibeta * s }

  function ExactQ(ialpha: int, ibeta: int, s: int, c: int): int { ibeta * c - ialpha * s }

  /** How far the sine and cosine values are from the unit circle, in 2.62 format. */
  function AmplitudeError(s: int, c: int): nat { Abs(s * s + c * c - 0x4000_0000_0000_0000) }

  /** `got` is within `units` of `want`, plus the amplitude error applied to `want`. */
  ghost predicate Recovers(got: int, want: int, units: nat, s: int, c: int) {
    0x4000_0000_0000_0000 * Abs(got - want)
    <= units * 0x4000_0000_0000_0000 + Abs(want) * AmplitudeError(s, c)
  }

  ghost predicate RoundTripRecovers(ialpha: Q31, ibeta: Q31, s: Q31, c: Q31) {
    var back := RoundTrip(ialpha, ibeta, s, c);
    Recovers(back.first, ialpha, 4, s, c) && Recovers(back.second, ibeta, 5, s, c)
  }

  ghost predicate InUnitDisc(ialpha: Q31, ibeta: Q31) {
    ialpha * ialpha + ibeta * ibeta < 0x4000_0000_0000_0000
  }

  /**
   For every vector in the open unit disc and every sine/cosine pair in the closed one, the
   round trip recovers the vector: no cast wraps, and saturation never makes it worse.
   */
  lemma RoundTripOnUnitDisc(ialpha: Q31, ibeta: Q31, s: Q31, c: Q31)
    requires InUnitDisc(ialpha, ibeta)
    requires s * s + c * c <= 0x4000_0000_0000_0000
    ensures RoundTripRecovers(ialpha, ibeta, s, c)
  {
    DiscComponents(ialpha, ibeta);
    RotationStaysInDisc(ialpha, ibeta, s, c);
    var dq := Forward(ialpha, ibeta, s, c);
    ForwardInDisc(ialpha, ibeta, s, c);
    InverseDoesNotWrap(ialpha, ibeta, s, c);
    TruncationFits(ialpha, ibeta, s, c, dq.first, dq.second);
    InverseRecovers(ialpha, ibeta, s, c, dq.first, dq.second);
  }

  /** Sine and cosine values within the rounding of a point of the unit circle. */
  ghost predicate NearUnitCircle(s: int, c: int) { AmplitudeError(s, c) <= 0x1_0000_0000 }

  /**
   When the factor -1 occurs, the coordinate it meets in the inverse must not have come out as
   -1: the tests say so on the inputs, and say nothing for pairs without a component of -1.
   */
  predicate Fits(ialpha: int, ibeta: int, s: int, c: int) {
    && (c == -0x8000_0000 ==>
          && ialpha - ibeta * s / 0x8000_0000 < 0x8000_0000
          && ibeta + ialpha * s / 0x8000_0000 < 0x8000_0000)
    && (s == -0x8000_0000 ==>
          && ibeta - ialpha * c / 0x8000_0000 < 0x8000_0000
          && -0x8000_0000 < ialpha + ibeta * c / 0x8000_0000)
  }

  /**
   For every vector in the open unit disc and every sine/cosine pair within rounding of the
   circle, inside or outside it: the vector is recovered if and only if these tests hold.
   */
  lemma RoundTripExactness(ialpha: Q31, ibeta: Q31, s: Q31, c: Q31)
    requires InUnitDisc(ialpha, ibeta) && NearUnitCircle(s, c)
    ensures RoundTripRecovers(ialpha, ibeta, s, c) <==> Fits(ialpha, ibeta, s, c)
  {
    DiscComponents(ialpha, ibeta);
    FitsMeansNoWrap(ialpha, ibeta, s, c);
    if Fits(ialpha, ibeta, s, c) {
      var dq := Forward(ialpha, ibeta, s, c);
      RotationNearDisc(ialpha, ibeta, s, c);
      ForwardNearDisc(ialpha, ibeta, s, c);
      SaturationFits(ialpha, ibeta, s, c, dq.first, dq.second);
      InverseRecovers(ialpha, ibeta, s, c, dq.first, dq.second);
    } else {
      var back := RoundTrip(ialpha, ibeta, s, c);
      WrappedIsFar(ialpha, ibeta, s, c);
      if Abs(back.first - ialpha) >= 0x8000_0000 {
        FarIsNotRecovered(back.first, ialpha, 4, s, c);
      } else {
        FarIsNotRecovered(back.second, ibeta, 5, s, c);
      }
    }
  }

  /** A vector in the open unit disc and the nearest pair of an angle for which the tests fail. */
  lemma RimVectorFails()
    ensures InUnitDisc(0x7FFF_FFFF, 65000) && NearUnitCircle(-46340, -0x8000_0000)
    ensures !Fits(0x7FFF_FFFF, 65000, -46340, -0x8000_0000)
    ensures RoundTrip(0x7FFF_FFFF, 65000, -46340, -0x8000_0000).first == -0x8000_0000
    ensures !RoundTripRecovers(0x7FFF_FFFF, 65000, -46340, -0x8000_0000)
  {
    RimVector(0x7FFF_FFFF, 65000, -46340, -0x8000_0000);
  }

  lemma RimVector(a: Q31, b: Q31, s: Q31, c: Q31)
    requires a == 0x7FFF_FFFF && b == 65000 && s == -46340 && c == -0x8000_0000
    ensures InUnitDisc(a, b) && NearUnitCircle(s, c) && !Fits(a, b, s, c)
    ensures RoundTrip(a, b, s, c).first == -0x8000_0000
    ensures !RoundTripRecovers(a, b, s, c)
  {
    assert Product(a, c) == -0x7FFF_FFFF && Product(b, s) == -2;
    assert Product(b, c) == -65000 && Product(a, s) == -46340;
    var dq := Forward(a, b, s, c);
    assert dq == Pair(-0x8000_0000, -18660);
    assert Product(dq.first, c) == -0x8000_0000 && Product(dq.second, s) == 0;
  }

  ghost predicate ForwardIsExact(ialpha: Q31, ibeta: Q31, s: Q31, c: Q31) {
    && !Wraps(ialpha, c) && !Wraps(ibeta, s) && !Wraps(ialpha, s) && !Wraps(ibeta, c)
    && -0x8000_0000 <= Product(ialpha, c) + Product(ibeta, s) < 0x8000_0000
    && -0x8000_0000 <= Product(ibeta, c) - Product(ialpha, s) < 0x8000_0000
  }

  /** For all other inputs the same bound holds whenever no cast wraps and the forward sums do not saturate. */
  lemma RoundTripUnsaturated(ialpha: Q31, ibeta: Q31, s: Q31, c: Q31)
    requires ForwardIsExact(ialpha, ibeta, s, c)
    requires var dq := Forward(ialpha, ibeta, s, c);
             !Wraps(dq.first, c) && !Wraps(dq.second, s) && !Wraps(dq.first, s) && !Wraps(dq.second, c)
    ensures RoundTripRecovers(ialpha, ibeta, s, c)
  {
    var dq := Forward(ialpha, ibeta, s, c);
    ProductValue(ialpha, c);
    ProductValue(ibeta, s);
    ProductValue(ialpha, s);
    ProductValue(ibeta, c);
    TruncationFits(ialpha, ibeta, s, c, dq.first, dq.second);
    InverseRecovers(ialpha, ibeta, s, c, dq.first, dq.second);
  }

  // ---------------------------------------------------------------------------
  // The forward transform on the unit disc
  // ---------------------------------------------------------------------------

  lemma ProductValue(a: Q31, b: Q31)
    requires !Wraps(a, b)
    ensures 0x8000_0000 * Product(a, b) <= a * b < 0x8000_0000 * (Product(a, b) + 1)
  {
    NotMinusOneSquared(a, b);
    var p := (a * b) / 0x8000_0000;
    assert Wrap32(p) == p;
  }

  /**
   The documentation rules overflow out because the sums saturate; the cast before them loses
   its value in exactly one case, and there Id comes out with the wrong sign.
   */
  lemma ProductExactness(a: Q31, b: Q31)
    ensures Product(a, b) == (a * b) / 0x8000_0000 <==> !Wraps(a, b)
    ensures Wraps(a, b) ==> Product(a, b) == -0x8000_0000
    ensures Forward(-0x8000_0000, 0, 0, -0x8000_0000).first == -0x8000_0000
  {
    if !Wraps(a, b) {
      ProductValue(a, b);
    }
    var m: Q31 := -0x8000_0000;
    assert Product(m, m) == -0x8000_0000;
    assert Product(0, 0) == 0;
  }

  lemma NotMinusOneSquared(a: Q31, b: Q31)
    requires !Wraps(a, b)
    ensures -0x4000_0000_0000_0000 <= a * b < 0x4000_0000_0000_0000
  {
    ScaleBound(a, 0x8000_0000, b, 0x8000_0000);
    if a == -0x8000_0000 {
    } else if b == -0x8000_0000 {
    } else {
      ScaleBound(a, 0x7FFF_FFFF, b, 0x7FFF_FFFF);
    }
  }

  lemma SquareBound(a: int, m: int)
    requires 0 < m && a * a < m * m
    ensures -m < a < m
  {}

  lemma SquareNonNeg(a: int)
    ensures 0 <= a * a
  {}

  lemma DiscComponents(a: int, b: int)
    requires a * a + b * b < 0x4000_0000_0000_0000
    ensures -0x8000_0000 < a < 0x8000_0000 && -0x8000_0000 < b < 0x8000_0000
  {}

  /** Rotation preserves length up to the amplitude: d^2 + q^2 = (a^2 + b^2)(s^2 + c^2). */
  lemma RotationLength(a: int, b: int, s: int, c: int)
    ensures ExactD(a, b, s, c) * ExactD(a, b, s, c) + ExactQ(a, b, s, c) * ExactQ(a, b, s, c)
            == (a * a + b * b) * (s * s + c * c)
  {}

  lemma RotationStaysInDisc(a: int, b: int, s: int, c: int)
    requires a * a + b * b < 0x4000_0000_0000_0000
    requires s * s + c * c <= 0x4000_0000_0000_0000
    ensures -0x4000_0000_0000_0000 < ExactD(a, b, s, c) < 0x4000_0000_0000_0000
    ensures -0x4000_0000_0000_0000 < ExactQ(a, b, s, c) < 0x4000_0000_0000_0000
  {
    var d, q := ExactD(a, b, s, c), ExactQ(a, b, s, c);
    var n, m := a * a + b * b, s * s + c * c;
    SquareNonNeg(a);
    SquareNonNeg(b);
    SquareNonNeg(s);
    SquareNonNeg(c);
    SquareNonNeg(d);
    SquareNonNeg(q);
    RotationLength(a, b, s, c);
    MulMono(m, 0x4000_0000_0000_0000, n);
    assert d * d + q * q <= 0x4000_0000_0000_0000 * n;
    SquareBound(d, 0x4000_0000_0000_0000);
    SquareBound(q, 0x4000_0000_0000_0000);
  }

  /** A pair within rounding of the circle takes the open disc at most half a unit beyond itself. */
  lemma RotationNearDisc(a: int, b: int, s: int, c: int)
    requires a * a + b * b < 0x4000_0000_0000_0000 && NearUnitCircle(s, c)
    ensures Abs(ExactD(a, b, s, c)) < 0x4000_0000_8000_0000
    ensures Abs(ExactQ(a, b, s, c)) < 0x4000_0000_8000_0000
  {
    var d, q := ExactD(a, b, s, c), ExactQ(a, b, s, c);
    var n, m := a * a + b * b, s * s + c * c;
    SquareNonNeg(a);
    SquareNonNeg(b);
    SquareNonNeg(d);
    SquareNonNeg(q);
    RotationLength(a, b, s, c);
    MulMono(m, 0x4000_0001_0000_0000, n);
    assert d * d + q * q <= 0x4000_0001_0000_0000 * n;
    SquareBound(d, 0x4000_0000_8000_0000);
    SquareBound(q, 0x4000_0000_8000_0000);
  }

  /** There truncation and saturation together move Id and Iq by at most two units. */
  lemma ForwardNearDisc(ialpha: Q31, ibeta: Q31, s: Q31, c: Q31)
    requires -0x8000_0000 < ialpha && -0x8000_0000 < ibeta
    requires Abs(ExactD(ialpha, ibeta, s, c)) < 0x4000_0000_8000_0000
    requires Abs(ExactQ(ialpha, ibeta, s, c)) < 0x4000_0000_8000_0000
    ensures var dq := Forward(ialpha, ibeta, s, c);
            && Abs(ExactD(ialpha, ibeta, s, c) - 0x8000_0000 * dq.first) <= 0x1_0000_0000
            && Abs(ExactQ(ialpha, ibeta, s, c) - 0x8000_0000 * dq.second) <= 0x1_0000_0000
  {
    ProductValue(ialpha, c);
    ProductValue(ibeta, s);
    ProductValue(ialpha, s);
    ProductValue(ibeta, c);
  }

  /** Id truncates by less than two units and Iq by less than one, even where they saturate. */
  lemma ForwardInDisc(ialpha: Q31, ibeta: Q31, s: Q31, c: Q31)
    requires -0x8000_0000 < ialpha && -0x8000_0000 < ibeta
    requires -0x4000_0000_0000_0000 < ExactD(ialpha, ibeta, s, c) < 0x4000_0000_0000_0000
    requires -0x4000_0000_0000_0000 < ExactQ(ialpha, ibeta, s, c) < 0x4000_0000_0000_0000
    ensures var dq := Forward(ialpha, ibeta, s, c);
            && 0 <= ExactD(ialpha, ibeta, s, c) - 0x8000_0000 * dq.first < 0x1_0000_0000
            && -0x8000_0000 <= ExactQ(ialpha, ibeta, s, c) - 0x8000_0000 * dq.second <= 0x8000_0000
  {
    ProductValue(ialpha, c);
    ProductValue(ibeta, s);
    ProductValue(ialpha, s);
    ProductValue(ibeta, c);
  }

  /** A product as the cast leaves it, before the shift: only (-1) * (-1) becomes -1. */
  function Narrowed(a: int, b: int): int {
    if a == -0x8000_0000 && b == -0x8000_0000 then -0x4000_0000_0000_0000 else a * b
  }

  lemma NarrowedProduct(a: Q31, b: Q31)
    ensures Product(a, b) == Narrowed(a, b) / 0x8000_0000
    ensures -0x4000_0000_0000_0000 <= Narrowed(a, b) < 0x4000_0000_0000_0000
  {
    ProductExactness(a, b);
    if !Wraps(a, b) {
      NotMinusOneSquared(a, b);
    }
  }

  /**
   For every input, inside the disc or far outside it, wrapped products included: Id is the sum
   of the narrowed products in whole units, or one less, and Iq their difference or one more,
   saturated to the word. So the exact coordinate saturates the result from 1 + 2^-30 on.
   */
  lemma ForwardForAllInputs(ialpha: Q31, ibeta: Q31, s: Q31, c: Q31)
    ensures var d := (Narrowed(ialpha, c) + Narrowed(ibeta, s)) / 0x8000_0000;
            var q := (Narrowed(ibeta, c) - Narrowed(ialpha, s)) / 0x8000_0000;
            var dq := Forward(ialpha, ibeta, s, c);
            && (dq.first == Clamp31(d) || dq.first == Clamp31(d - 1))
            && (dq.second == Clamp31(q) || dq.second == Clamp31(q + 1))
    ensures !Wraps(ialpha, c) && !Wraps(ibeta, s) ==>
              var d, id := ExactD(ialpha, ibeta, s, c), Forward(ialpha, ibeta, s, c).first;
              && (d >= 0x4000_0001_0000_0000 ==> id == 0x7FFF_FFFF)
              && (d <= -0x4000_0001_0000_0000 ==> id == -0x8000_0000)
    ensures !Wraps(ibeta, c) && !Wraps(ialpha, s) ==>
              var q, iq := ExactQ(ialpha, ibeta, s, c), Forward(ialpha, ibeta, s, c).second;
              && (q >= 0x4000_0001_0000_0000 ==> iq == 0x7FFF_FFFF)
              && (q <= -0x4000_0001_0000_0000 ==> iq == -0x8000_0000)
  {
    NarrowedProduct(ialpha, c);
    NarrowedProduct(ibeta, s);
    NarrowedProduct(ialpha, s);
    NarrowedProduct(ibeta, c);
  }

  /** The same for the inverse, which rotates the other way. */
  lemma InverseForAllInputs(id: Q31, iq: Q31, s: Q31, c: Q31)
    ensures var a := (Narrowed(id, c) - Narrowed(iq, s)) / 0x8000_0000;
            var b := (Narrowed(iq, c) + Narrowed(id, s)) / 0x8000_0000;
            var back := Inverse(id, iq, s, c);
            && (back.first == Clamp31(a) || back.first == Clamp31(a + 1))
            && (back.second == Clamp31(b) || back.second == Clamp31(b - 1))
  {
    NarrowedProduct(id, c);
    NarrowedProduct(iq, s);
    NarrowedProduct(id, s);
    NarrowedProduct(iq, c);
  }

  /** A coordinate of -1 meets a factor of -1 only if the input was at the rim, which is open. */
  lemma InverseDoesNotWrap(ialpha: Q31, ibeta: Q31, s: Q31, c: Q31)
    requires -0x8000_0000 < ialpha && -0x8000_0000 < ibeta
    requires s * s + c * c <= 0x4000_0000_0000_0000
    ensures var dq := Forward(ialpha, ibeta, s, c);
            !Wraps(dq.first, c) && !Wraps(dq.second, s) && !Wraps(dq.first, s) && !Wraps(dq.second, c)
  {
    SquareNonNeg(s);
    SquareNonNeg(c);
    if c == -0x8000_0000 {
      OnlyZeroSquare(s);
      QuarterTurns(ialpha, ibeta);
    } else if s == -0x8000_0000 {
      OnlyZeroSquare(c);
      QuarterTurns(ialpha, ibeta);
    }
  }

  lemma OnlyZeroSquare(a: int)
    requires a * a <= 0
    ensures a == 0
  {}

  lemma QuarterTurns(ialpha: Q31, ibeta: Q31)
    requires -0x8000_0000 < ialpha && -0x8000_0000 < ibeta
    ensures Forward(ialpha, ibeta, 0, -0x8000_0000) == Pair(-ialpha, -ibeta)
    ensures Forward(ialpha, ibeta, -0x8000_0000, 0) == Pair(-ibeta, ialpha)
  {
    ByMinusOne(ialpha);
    ByMinusOne(ibeta);
  }

  lemma ByMinusOne(a: Q31)
    requires -0x8000_0000 < a
    ensures Product(a, -0x8000_0000) == -a && Product(a, 0) == 0
  {}

  // ---------------------------------------------------------------------------
  // The inverse transform
  // ---------------------------------------------------------------------------

  /** What Id and Iq lost, rotated back: at most three units. */
  predicate ResidualsFit(ialpha: int, ibeta: int, s: int, c: int, id: int, iq: int) {
    && Abs(0x8000_0000 * (id * c - iq * s) - ialpha * (s * s + c * c)) <= 3 * 0x4000_0000_0000_0000
    && Abs(0x8000_0000 * (iq * c + id * s) - ibeta * (s * s + c * c)) <= 3 * 0x4000_0000_0000_0000
  }

  lemma InverseRecovers(ialpha: Q31, ibeta: Q31, s: Q31, c: Q31, id: Q31, iq: Q31)
    requires ResidualsFit(ialpha, ibeta, s, c, id, iq)
    requires !Wraps(id, c) && !Wraps(iq, s) && !Wraps(id, s) && !Wraps(iq, c)
    ensures var back := Inverse(id, iq, s, c);
            Recovers(back.first, ialpha, 4, s, c) && Recovers(back.second, ibeta, 5, s, c)
  {
    DifferenceOfProducts(id, c, iq, s);
    Recovered(ialpha, Product(id, c) - Product(iq, s), id * c - iq * s, 4, s, c);
    SumOfProducts(iq, c, id, s);
    Recovered(ibeta, Product(iq, c) + Product(id, s), iq * c + id * s, 5, s, c);
  }

  /** Where the forward transform only truncates, the factors of magnitude at most one bound the residuals. */
  lemma TruncationFits(ialpha: Q31, ibeta: Q31, s: Q31, c: Q31, id: Q31, iq: Q31)
    requires 0 <= ExactD(ialpha, ibeta, s, c) - 0x8000_0000 * id < 0x1_0000_0000
    requires -0x8000_0000 <= ExactQ(ialpha, ibeta, s, c) - 0x8000_0000 * iq <= 0x8000_0000
    ensures ResidualsFit(ialpha, ibeta, s, c, id, iq)
  {
    var minusS: int := -(s as int);
    var d, q := ExactD(ialpha, ibeta, s, c), ExactQ(ialpha, ibeta, s, c);
    RotateBack(ialpha, ibeta, s, c);
    CoordinateError(d, q, c, minusS, id, iq, ialpha * (s * s + c * c));
    ProductSign(iq, s);
    CoordinateError(d, q, s, c, id, iq, ibeta * (s * s + c * c));
  }

  /** Where it also saturates, the length of the pair does, since two residuals cannot both count in full. */
  lemma SaturationFits(ialpha: Q31, ibeta: Q31, s: Q31, c: Q31, id: Q31, iq: Q31)
    requires NearUnitCircle(s, c)
    requires Abs(ExactD(ialpha, ibeta, s, c) - 0x8000_0000 * id) <= 0x1_0000_0000
    requires Abs(ExactQ(ialpha, ibeta, s, c) - 0x8000_0000 * iq) <= 0x1_0000_0000
    ensures ResidualsFit(ialpha, ibeta, s, c, id, iq)
  {
    var minusS: int := -(s as int);
    var d, q := ExactD(ialpha, ibeta, s, c), ExactQ(ialpha, ibeta, s, c);
    RotateBack(ialpha, ibeta, s, c);
    ProductSign(iq, s);
    assert minusS * minusS == s * s;
    RotatedResidual(d, q, c, minusS, id, iq, ialpha * (s * s + c * c));
    RotatedResidual(d, q, s, c, id, iq, ibeta * (s * s + c * c));
  }

  lemma RotatedResidual(d: int, q: int, f: int, g: int, id: int, iq: int, exact: int)
    requires Abs(d - 0x8000_0000 * id) <= 0x1_0000_0000 && Abs(q - 0x8000_0000 * iq) <= 0x1_0000_0000
    requires f * f + g * g <= 0x4000_0001_0000_0000
    requires d * f + q * g == exact
    ensures Abs(0x8000_0000 * (id * f + iq * g) - exact) <= 3 * 0x4000_0000_0000_0000
  {
    var ed, eq := d - 0x8000_0000 * id, q - 0x8000_0000 * iq;
    InnerProduct(ed, eq, f, g);
    ResidualTerms(d, q, f, g, id, iq, ed, eq);
  }

  lemma InnerProduct(ed: int, eq: int, f: int, g: int)
    requires Abs(ed) <= 0x1_0000_0000 && Abs(eq) <= 0x1_0000_0000
    requires f * f + g * g <= 0x4000_0001_0000_0000
    ensures Abs(ed * f + eq * g) <= 0xC000_0000_0000_0000
  {
    var n, m := ed * ed + eq * eq, f * f + g * g;
    ScaleBound(ed, 0x1_0000_0000, ed, 0x1_0000_0000);
    ScaleBound(eq, 0x1_0000_0000, eq, 0x1_0000_0000);
    SquareNonNeg(ed);
    SquareNonNeg(eq);
    SquareNonNeg(ExactQ(ed, eq, g, f));
    RotationLength(ed, eq, g, f);
    MulMono(m, 0x4000_0001_0000_0000, n);
    SquareBound(ExactD(ed, eq, g, f), 0xC000_0000_0000_0000);
  }

  lemma DifferenceOfProducts(a: Q31, b: Q31, e: Q31, f: Q31)
    requires !Wraps(a, b) && !Wraps(e, f)
    ensures Abs(0x8000_0000 * (Product(a, b) - Product(e, f)) - (a * b - e * f)) <= 0x8000_0000
  {
    ProductValue(a, b);
    ProductValue(e, f);
  }

  lemma SumOfProducts(a: Q31, b: Q31, e: Q31, f: Q31)
    requires !Wraps(a, b) && !Wraps(e, f)
    ensures Abs(0x8000_0000 * (Product(a, b) + Product(e, f)) - (a * b + e * f)) <= 2 * 0x8000_0000
  {
    ProductValue(a, b);
    ProductValue(e, f);
  }

  lemma ProductSign(a: int, b: int)
    ensures a * -b == -(a * b)
  {}

  lemma RotateBack(a: int, b: int, s: int, c: int)
    ensures ExactD(a, b, s, c) * c + ExactQ(a, b, s, c) * -s == a * (s * s + c * c)
    ensures ExactD(a, b, s, c) * s + ExactQ(a, b, s, c) * c == b * (s * s + c * c)
  {}

  /** The truncations of Id and Iq, weighted by two factors of magnitude at most one. */
  lemma CoordinateError(d: int, q: int, f: int, g: int, id: int, iq: int, exact: int)
    requires 0 <= d - 0x8000_0000 * id < 0x1_0000_0000
    requires -0x8000_0000 <= q - 0x8000_0000 * iq <= 0x8000_0000
    requires Abs(f) <= 0x8000_0000 && Abs(g) <= 0x8000_0000
    requires d * f + q * g == exact
    ensures Abs(0x8000_0000 * (id * f + iq * g) - exact) <= 3 * 0x4000_0000_0000_0000
  {
    var ed, eq := d - 0x8000_0000 * id, q - 0x8000_0000 * iq;
    ScaleBound(ed, 0x1_0000_0000, f, 0x8000_0000);
    ScaleBound(eq, 0x8000_0000, g, 0x8000_0000);
    ResidualTerms(d, q, f, g, id, iq, ed, eq);
  }

  lemma ResidualTerms(d: int, q: int, f: int, g: int, id: int, iq: int, ed: int, eq: int)
    requires d == 0x8000_0000 * id + ed && q == 0x8000_0000 * iq + eq
    ensures d * f + q * g == 0x8000_0000 * (id * f + iq * g) + ed * f + eq * g
  {}

  /** Saturating to the word only moves the result towards the value that is in the word. */
  lemma Recovered(want: Q31, sum: int, rotated: int, units: nat, s: int, c: int)
    requires 4 <= units
    requires Abs(0x8000_0000 * sum - rotated) <= (units - 3) * 0x8000_0000
    requires Abs(0x8000_0000 * rotated - want * (s * s + c * c)) <= 3 * 0x4000_0000_0000_0000
    ensures Recovers(Clamp31(sum), want, units, s, c)
  {
    var excess := s * s + c * c - 0x4000_0000_0000_0000;
    AbsProduct(want, excess);
    SplitAmplitude(want, s * s + c * c);
    ClampedDistance(want, sum, rotated, units, want * excess);
  }

  lemma SplitAmplitude(want: int, amplitude: int)
    ensures want * amplitude
            == want * 0x4000_0000_0000_0000 + want * (amplitude - 0x4000_0000_0000_0000)
  {}

  lemma ClampedDistance(want: Q31, sum: int, rotated: int, units: nat, t: int)
    requires Abs(0x8000_0000 * sum - rotated) <= (units - 3) * 0x8000_0000
    requires Abs(0x8000_0000 * rotated - (want * 0x4000_0000_0000_0000 + t)) <= 3 * 0x4000_0000_0000_0000
    ensures 0x4000_0000_0000_0000 * Abs(Clamp31(sum) - want) <= units * 0x4000_0000_0000_0000 + Abs(t)
  {}

  lemma AbsProduct(a: int, b: int)
    ensures Abs(a * b) == Abs(a) * Abs(b)
  {}

  // ---------------------------------------------------------------------------
  // What a wrapped product does
  // ---------------------------------------------------------------------------

  lemma FitsMeansNoWrap(ialpha: Q31, ibeta: Q31, s: Q31, c: Q31)
    requires -0x8000_0000 < ialpha && -0x8000_0000 < ibeta
    ensures var dq := Forward(ialpha, ibeta, s, c);
            Fits(ialpha, ibeta, s, c)
            <==> !Wraps(dq.first, c) && !Wraps(dq.second, s) && !Wraps(dq.first, s) && !Wraps(dq.second, c)
  {
    ProductExactness(ialpha, s);
    ProductExactness(ibeta, s);
    ProductExactness(ialpha, c);
    ProductExactness(ibeta, c);
    ByMinusOne(ialpha);
    ByMinusOne(ibeta);
  }

  /** A coordinate that meets -1 as -1 comes back with the opposite sign. */
  lemma WrappedIsFar(ialpha: Q31, ibeta: Q31, s: Q31, c: Q31)
    requires -0x8000_0000 < ialpha && -0x8000_0000 < ibeta
    requires NearUnitCircle(s, c) && !Fits(ialpha, ibeta, s, c)
    ensures var back := RoundTrip(ialpha, ibeta, s, c);
            || Abs(back.first - ialpha) >= 0x8000_0000
            || (back.second <= -0x7FFE_0000 && 0x7FFE_0000 <= ibeta)
  {
    if c == -0x8000_0000 {
      CosineMinusOne(ialpha, ibeta, s);
    } else {
      SineMinusOne(ialpha, ibeta, c);
    }
  }

  lemma CosineMinusOne(ialpha: Q31, ibeta: Q31, s: Q31)
    requires -0x8000_0000 < ialpha && -0x8000_0000 < ibeta
    requires NearUnitCircle(s, -0x8000_0000) && !Fits(ialpha, ibeta, s, -0x8000_0000)
    ensures var back := RoundTrip(ialpha, ibeta, s, -0x8000_0000);
            || (0x7FFE_0000 <= ialpha && back.first <= -0x7FFE_0000)
            || (0x7FFE_0000 <= ibeta && back.second <= -0x7FFE_0000)
  {
    var dq := Forward(ialpha, ibeta, s, -0x8000_0000);
    ByMinusOne(ialpha);
    ByMinusOne(ibeta);
    MinusOneSquared();
    SmallCompanion(s);
    SmallProduct(ialpha, s);
    SmallProduct(ibeta, s);
    SmallProduct(dq.first, s);
    SmallProduct(dq.second, s);
  }

  lemma SineMinusOne(ialpha: Q31, ibeta: Q31, c: Q31)
    requires -0x8000_0000 < ialpha && -0x8000_0000 < ibeta && c != -0x8000_0000
    requires NearUnitCircle(-0x8000_0000, c) && !Fits(ialpha, ibeta, -0x8000_0000, c)
    ensures var back := RoundTrip(ialpha, ibeta, -0x8000_0000, c);
            || (ialpha <= -0x7FFE_0000 && 0x7FFE_0000 <= back.first)
            || (0x7FFE_0000 <= ibeta && back.second <= -0x7FFE_0000)
  {
    var dq := Forward(ialpha, ibeta, -0x8000_0000, c);
    ByMinusOne(ialpha);
    ByMinusOne(ibeta);
    MinusOneSquared();
    SmallCompanion(c);
    SmallProduct(ialpha, c);
    SmallProduct(ibeta, c);
    SmallProduct(dq.first, c);
    SmallProduct(dq.second, c);
  }

  lemma MinusOneSquared()
    ensures Product(-0x8000_0000, -0x8000_0000) == -0x8000_0000
  {
    ProductExactness(0, 0);
  }

  lemma SmallCompanion(v: int)
    requires v * v <= 0x1_0000_0000
    ensures Abs(v) <= 0x1_0000
  {
    SquareBound(v, 0x1_0001);
  }

  lemma SmallProduct(a: Q31, b: Q31)
    requires Abs(b) <= 0x1_0000
    ensures Product(a, b) == (a * b) / 0x8000_0000 && Abs(Product(a, b)) <= 0x1_0000
  {
    ScaleBound(a, 0x8000_0000, b, 0x1_0000);
  }

  lemma FarIsNotRecovered(got: int, want: int, units: nat, s: int, c: int)
    requires Abs(want) <= 0x8000_0000 && Abs(got - want) >= 0x8000_0000 && units <= 5 && NearUnitCircle(s, c)
    ensures !Recovers(got, want, units, s, c)
  {
    MulMono(Abs(want), 0x8000_0000, AmplitudeError(s, c));
  }

  // ---------------------------------------------------------------------------
  // Rounded sine and cosine
  // ---------------------------------------------------------------------------

  /** `v` is the 1.31 value nearest to V; +1 itself is not representable and becomes 1 - 2^-31. */
  ghost predicate Nearest(v: Q31, V: real) {
    || -0.5 <= v as real - V <= 0.5
    || (v == 0x7FFF_FFFF && 2147483647.5 <= V <= 2147483648.0)
  }

  /** Every point of the unit circle rounds to a pair that is near the unit circle in the above sense. */
  lemma RoundedPairIsNear(s: Q31, c: Q31, S: real, C: real)
    requires S * S + C * C == 4611686018427387904.0
    requires Nearest(s, S) && Nearest(c, C)
    ensures NearUnitCircle(s, c)
  {
    if -0.5 <= s as real - S <= 0.5 && -0.5 <= c as real - C <= 0.5 {
      RoundedPair(s, c, S, C);
    } else if s == 0x7FFF_FFFF && 2147483647.5 <= S {
      ClippedPair(s, c, S, C);
    } else {
      ClippedPair(c, s, C, S);
    }
  }

  function AbsReal(x: real): real { if x < 0.0 then -x else x }

  lemma RoundedSquare(v: int, V: real)
    requires -0.5 <= v as real - V <= 0.5
    ensures AbsReal((v * v) as real - V * V) <= AbsReal(V) + 0.25
  {
    var e := v as real - V;
    assert (v * v) as real == (v as real) * (v as real);
    SquareOfSum(V, e);
    HalfProduct(V, e);
  }

  lemma SquareOfSum(V: real, e: real)
    ensures (V + e) * (V + e) == V * V + 2.0 * (V * e) + e * e
  {}

  lemma ScaleReal(a: real, b: real, w: real)
    requires a <= b && 0.0 <= w
    ensures a * w <= b * w
  {}

  lemma NonNegReal(a: real, b: real)
    requires 0.0 <= a && 0.0 <= b
    ensures 0.0 <= a * b
  {}

  lemma HalfProduct(V: real, e: real)
    requires -0.5 <= e <= 0.5
    ensures -AbsReal(V) <= 2.0 * (V * e) <= AbsReal(V)
    ensures 0.0 <= e * e <= 0.25
  {
    if V < 0.0 {
      HalfShare(-V, e);
      MinusProduct(V, e);
    } else {
      HalfShare(V, e);
    }
    AbsSquare(e);
    HalfSquare(AbsReal(e));
  }

  lemma HalfShare(w: real, e: real)
    requires 0.0 <= w && -0.5 <= e <= 0.5
    ensures -w <= 2.0 * (w * e) <= w
  {
    var above, below := 0.5 - e, e + 0.5;
    NonNegReal(w, above);
    NonNegReal(w, below);
    assert w * above == 0.5 * w - w * e;
    assert w * below == w * e + 0.5 * w;
  }

  lemma MinusProduct(V: real, e: real)
    ensures -V * e == -(V * e)
  {}

  lemma HalfSquare(x: real)
    requires 0.0 <= x <= 0.5
    ensures 0.0 <= x * x <= 0.25
  {
    var y := 0.5 - x;
    NonNegReal(x, y);
    NonNegReal(x, x);
    assert x * y == x * 0.5 - x * x;
  }

  lemma RoundedPair(s: int, c: int, S: real, C: real)
    requires S * S + C * C == 4611686018427387904.0
    requires -0.5 <= s as real - S <= 0.5 && -0.5 <= c as real - C <= 0.5
    ensures NearUnitCircle(s, c)
  {
    RoundedSquare(s, S);
    RoundedSquare(c, C);
    TaxicabLength(S, C);
    CircleDistance(s * s, c * c, S * S, C * C, AbsReal(S), AbsReal(C));
  }

  lemma AbsSquare(x: real)
    ensures AbsReal(x) * AbsReal(x) == x * x
  {}

  lemma CircleDistance(s2: int, c2: int, S2: real, C2: real, a: real, b: real)
    requires S2 + C2 == 4611686018427387904.0 && a + b <= 4000000000.0
    requires AbsReal(s2 as real - S2) <= a + 0.25 && AbsReal(c2 as real - C2) <= b + 0.25
    ensures Abs(s2 + c2 - 0x4000_0000_0000_0000) <= 0x1_0000_0000
  {}

  lemma TaxicabLength(S: real, C: real)
    requires S * S + C * C == 4611686018427387904.0
    ensures AbsReal(S) + AbsReal(C) <= 4000000000.0
  {
    var a, b := AbsReal(S), AbsReal(C);
    AbsSquare(S);
    AbsSquare(C);
    DifferenceSquared(a, b);
    SquareOfSum(a, b);
    if a + b > 4000000000.0 {
      ScaleReal(4000000000.0, a + b, a + b);
      assert false;
    }
  }

  lemma DifferenceSquared(a: real, b: real)
    ensures 2.0 * (a * b) <= a * a + b * b
  {
    assert (a - b) * (a - b) == a * a - 2.0 * (a * b) + b * b;
    assert 0.0 <= (a - b) * (a - b);
  }

  lemma ClippedPair(s: Q31, c: Q31, S: real, C: real)
    requires S * S + C * C == 4611686018427387904.0
    requires s == 0x7FFF_FFFF && 2147483647.5 <= S
    requires Nearest(c, C)
    ensures NearUnitCircle(s, c)
  {
    ScaleReal(2147483647.5, S, S);
    assert C * C <= 2147483648.0;
    AbsSquare(C);
    SmallRoot(AbsReal(C));
    ScaleBound(c, 46342, c, 46342);
    SquareNonNeg(c);
  }

  lemma SmallRoot(x: real)
    requires 0.0 <= x && x * x <= 2147483648.0
    ensures x <= 46341.0
  {
    if x > 46341.0 {
      ScaleReal(46341.0, x, x);
      assert false;
    }
  }
}
