/**
 The Q31 Clarke transform and its inverse. The three constants are c, 2c and 3c for
 c = 0x24F34E8B, the 30-bit rounding of 1/sqrt(3), and 3*c*c is within 2^29 of 2^60: that is
 why one transform undoes the other up to a few units.
 */
module Clarke {
  import opened FixedPoint

  datatype Pair = Pair(first: Q31, second: Q31)

  /** `arm_clarke_q31`: (Ia, Ib) to (Ialpha, Ibeta). */
  function Forward(ia: Q31, ib: Q31): Pair {
    var product1 := Wrap32((ia * 0x24F3_4E8B) / 0x4000_0000);
    var product2 := Wrap32((ib * 0x49E6_9D16) / 0x4000_0000);
    Pair(ia, Qadd(product1, product2))
  }

  /** `arm_inv_clarke_q31`: (Ialpha, Ibeta) to (Ia, Ib). */
  function Inverse(ialpha: Q31, ibeta: Q31): Pair {
    var product1 := Wrap32((ialpha * 0x4000_0000) / 0x8000_0000);
    var product2 := Wrap32((ibeta * 0x6ED9_EBA1) / 0x8000_0000);
    Pair(ialpha, Qsub(product2, product1))
  }

  function RoundTrip(ia: Q31, ib: Q31): Pair {
    var ab := Forward(ia, ib);
    Inverse(ab.first, ab.second)
  }

  /**
   The constants: c is the integer nearest to 2^30/sqrt(3), stated without the root by squaring
   both half-integer neighbours, and the other two literals are 2c and 3c.
   */
  lemma ConstantsAreRounded()
    ensures var c := 0x24F3_4E8B;
            && 3 * (2 * c - 1) * (2 * c - 1) < 0x4000_0000_0000_0000 < 3 * (2 * c + 1) * (2 * c + 1)
            && 0x49E6_9D16 == 2 * c && 0x6ED9_EBA1 == 3 * c
  {}

  /** The narrowing cast of the second product keeps its value exactly for |Ib| <= 3c. */
  predicate SecondProductFits(ib: Q31) { Abs(ib) <= 0x6ED9_EBA1 }

  /** Ibeta before it is saturated, for inputs whose products fit. */
  function UnsaturatedBeta(ia: Q31, ib: Q31): int {
    (ia * 0x24F3_4E8B) / 0x4000_0000 + (ib * 0x49E6_9D16) / 0x4000_0000
  }

  lemma SecondProductExactness(ib: Q31)
    ensures SecondProductFits(ib)
            <==> Wrap32((ib * 0x49E6_9D16) / 0x4000_0000) == (ib * 0x49E6_9D16) / 0x4000_0000
  {}

  lemma FirstProductsFit(ia: Q31, ibeta: Q31)
    ensures Wrap32((ia * 0x24F3_4E8B) / 0x4000_0000) == (ia * 0x24F3_4E8B) / 0x4000_0000
    ensures Wrap32((ia * 0x4000_0000) / 0x8000_0000) == ia / 2
    ensures Wrap32((ibeta * 0x6ED9_EBA1) / 0x8000_0000) == (ibeta * 0x6ED9_EBA1) / 0x8000_0000
  {}

  /** The inverse with its casts discharged: only its subtraction can saturate. */
  lemma InverseValue(ialpha: Q31, ibeta: Q31)
    ensures Inverse(ialpha, ibeta)
            == Pair(ialpha, Clamp31((ibeta * 0x6ED9_EBA1) / 0x8000_0000 - ialpha / 2))
  {
    FirstProductsFit(ialpha, ibeta);
  }

  lemma ForwardValue(ia: Q31, ib: Q31)
    requires SecondProductFits(ib)
    ensures Forward(ia, ib) == Pair(ia, Clamp31(UnsaturatedBeta(ia, ib)))
  {
    FirstProductsFit(ia, 0);
    SecondProductExactness(ib);
  }

  /** Ia always comes back exactly; Ib comes back within 3 units when nothing wraps or saturates. */
  lemma RoundTripAccuracy(ia: Q31, ib: Q31)
    requires SecondProductFits(ib)
    requires -0x8000_0000 <= UnsaturatedBeta(ia, ib) < 0x8000_0000
    ensures RoundTrip(ia, ib).first == ia
    ensures -1 <= ib - RoundTrip(ia, ib).second <= 3
  {
    var beta := UnsaturatedBeta(ia, ib);
    ForwardValue(ia, ib);
    InverseValue(ia, beta);
    BetaError(ia, ib);
    InverseError(ia, ib, beta, (beta * 0x6ED9_EBA1) / 0x8000_0000, ia / 2);
  }

  /** Ibeta approximates (Ia + 2*Ib)*c/2^30 from below, by less than two units. */
  lemma BetaError(ia: Q31, ib: Q31)
    ensures var exact := ia * 0x24F3_4E8B + ib * 0x49E6_9D16;
            0x4000_0000 * UnsaturatedBeta(ia, ib) <= exact < 0x4000_0000 * (UnsaturatedBeta(ia, ib) + 2)
  {}

  /** The rest is linear: 3*c*c and 2^60 differ by less than 2^29. */
  lemma InverseError(ia: Q31, ib: Q31, beta: int, q: int, h: int)
    requires 0x4000_0000 * beta <= ia * 0x24F3_4E8B + ib * 0x49E6_9D16 < 0x4000_0000 * (beta + 2)
    requires 0x8000_0000 * q <= beta * 0x6ED9_EBA1 < 0x8000_0000 * (q + 1)
    requires 2 * h <= ia <= 2 * h + 1
    ensures -1 <= ib - (q - h) <= 4
    ensures -0x8000_0000 <= beta < 0x8000_0000 ==> ib - (q - h) <= 3
  {}

  /**
   When the addition saturates by `excess` units, Ib is off by 3c/2^31 (about 0.866) of that
   excess, up to 5 units: the error is the clipped amount and nothing else.
   */
  lemma RoundTripUnderSaturation(ia: Q31, ib: Q31)
    requires SecondProductFits(ib)
    ensures var excess := UnsaturatedBeta(ia, ib) - Clamp31(UnsaturatedBeta(ia, ib));
            Abs(0x8000_0000 * (ib - RoundTrip(ia, ib).second) - 0x6ED9_EBA1 * excess) <= 5 * 0x8000_0000
  {
    var s := UnsaturatedBeta(ia, ib);
    var beta: int := Clamp31(s);
    ForwardValue(ia, ib);
    InverseValue(ia, beta);
    BetaError(ia, ib);
    var q: int, q': int, h: int := (s * 0x6ED9_EBA1) / 0x8000_0000, (beta * 0x6ED9_EBA1) / 0x8000_0000, ia / 2;
    InverseError(ia, ib, s, q, h);
    ClippedShare(ia, ib, s, beta, q, q', h);
  }

  lemma ClippedShare(ia: Q31, ib: Q31, s: int, beta: Q31, q: int, q': int, h: int)
    requires SecondProductFits(ib) && beta == Clamp31(s)
    requires 0x4000_0000 * s <= ia * 0x24F3_4E8B + ib * 0x49E6_9D16 < 0x4000_0000 * (s + 2)
    requires 0x8000_0000 * q <= s * 0x6ED9_EBA1 < 0x8000_0000 * (q + 1)
    requires 0x8000_0000 * q' <= beta * 0x6ED9_EBA1 < 0x8000_0000 * (q' + 1)
    requires 2 * h <= ia <= 2 * h + 1
    requires -1 <= ib - (q - h) <= 4
    ensures Abs(0x8000_0000 * (ib - Clamp31(q' - h)) - 0x6ED9_EBA1 * (s - beta)) <= 5 * 0x8000_0000
  {}

  /**
   The documentation promises no overflow because the addition saturates. The cast before it
   does not: outside the range of `SecondProductFits` it wraps, and the round trip is off by
   more than 2^31. The fit condition is therefore necessary for any accuracy at all.
   */
  lemma RoundTripFailsOutsideRange(ia: Q31, ib: Q31)
    requires !SecondProductFits(ib)
    ensures 0x8000_0000 < Abs(ib - RoundTrip(ia, ib).second)
  {
    var p1 := (ia * 0x24F3_4E8B) / 0x4000_0000;
    var p2 := (ib * 0x49E6_9D16) / 0x4000_0000;
    var wrapped := if 0 < ib then p2 - 0x1_0000_0000 else p2 + 0x1_0000_0000;
    ForwardOutsideRange(ia, ib);
    var beta: int := Clamp31(p1 + wrapped);
    InverseValue(ia, beta);
    WrappedError(ia, ib, p1, p2, beta, (beta * 0x6ED9_EBA1) / 0x8000_0000, ia / 2);
  }

  lemma ForwardOutsideRange(ia: Q31, ib: Q31)
    requires !SecondProductFits(ib)
    ensures var p1, p2 := (ia * 0x24F3_4E8B) / 0x4000_0000, (ib * 0x49E6_9D16) / 0x4000_0000;
            var wrapped := if 0 < ib then p2 - 0x1_0000_0000 else p2 + 0x1_0000_0000;
            Forward(ia, ib) == Pair(ia, Clamp31(p1 + wrapped))
  {
    FirstProductsFit(ia, 0);
    WrapOnce(ib, (ib * 0x49E6_9D16) / 0x4000_0000);
  }

  lemma WrapOnce(ib: Q31, p: int)
    requires !SecondProductFits(ib) && p == (ib * 0x49E6_9D16) / 0x4000_0000
    ensures Wrap32(p) == if 0 < ib then p - 0x1_0000_0000 else p + 0x1_0000_0000
  {}

  lemma WrappedError(ia: Q31, ib: Q31, p1: int, p2: int, beta: Q31, q: int, h: int)
    requires !SecondProductFits(ib)
    requires 0x4000_0000 * p1 <= ia * 0x24F3_4E8B < 0x4000_0000 * (p1 + 1)
    requires 0x4000_0000 * p2 <= ib * 0x49E6_9D16 < 0x4000_0000 * (p2 + 1)
    requires beta == Clamp31(p1 + if 0 < ib then p2 - 0x1_0000_0000 else p2 + 0x1_0000_0000)
    requires 0x8000_0000 * q <= beta * 0x6ED9_EBA1 < 0x8000_0000 * (q + 1)
    requires 2 * h <= ia <= 2 * h + 1
    ensures 0x8000_0000 < Abs(ib - Clamp31(q - h))
  {}
}
