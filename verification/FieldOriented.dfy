/**
 The transforms chained as a motor controller uses them: phase currents to the stator frame
 (Clarke), to the rotor frame (Park), and all the way back. The error bounds of the two pairs
 combine into one bound on the recovered phase currents.
 */
module FieldOriented {
  import opened FixedPoint
  import Clarke
  import Park

  /** Clarke, Park, inverse Park, inverse Clarke. */
  function RoundTrip(ia: Q31, ib: Q31, sinVal: Q31, cosVal: Q31): Clarke.Pair {
    var ab := Clarke.Forward(ia, ib);
    var dq := Park.Forward(ab.first, ab.second, sinVal, cosVal);
    var ab' := Park.Inverse(dq.first, dq.second, sinVal, cosVal);
    Clarke.Inverse(ab'.first, ab'.second)
  }

  /** The stator vector of the phase currents lies in the open unit disc, and nothing wraps on the way there. */
  ghost predicate InOperatingRange(ia: Q31, ib: Q31) {
    && Clarke.SecondProductFits(ib)
    && -0x8000_0000 <= Clarke.UnsaturatedBeta(ia, ib) < 0x8000_0000
    && Park.InUnitDisc(ia, Clarke.UnsaturatedBeta(ia, ib))
  }

  /** Through all four transforms Ia moves by at most 6 units and Ib by at most 14. */
  predicate ChainRecovers(ia: Q31, ib: Q31, s: Q31, c: Q31) {
    Abs(RoundTrip(ia, ib, s, c).first - ia) <= 6 && Abs(RoundTrip(ia, ib, s, c).second - ib) <= 14
  }

  /**
   For every operating point and every sine/cosine pair within rounding of the circle: the
   chain recovers the currents if and only if the tests of `Park.Fits` hold for the stator
   vector, which they do whenever neither sine nor cosine is -1.
   */
  lemma ChainAccuracy(ia: Q31, ib: Q31, s: Q31, c: Q31)
    requires InOperatingRange(ia, ib) && Park.NearUnitCircle(s, c)
    ensures ChainRecovers(ia, ib, s, c) <==> Park.Fits(ia, Clarke.UnsaturatedBeta(ia, ib), s, c)
  {
    var beta: Q31 := Clarke.UnsaturatedBeta(ia, ib);
    Clarke.ForwardValue(ia, ib);
    Clarke.RoundTripAccuracy(ia, ib);
    if Park.Fits(ia, beta, s, c) {
      RecoveredVector(ia, beta, s, c);
    } else {
      LostVector(ia, ib, beta, s, c);
    }
  }

  /** What the inverse Clarke transform makes of a recovered stator vector. */
  lemma RecoveredVector(ia: Q31, beta: Q31, s: Q31, c: Q31)
    requires Park.InUnitDisc(ia, beta) && Park.NearUnitCircle(s, c) && Park.Fits(ia, beta, s, c)
    ensures var back := Park.RoundTrip(ia, beta, s, c);
            var currents := Clarke.Inverse(back.first, back.second);
            && Abs(currents.first - ia) <= 6
            && Abs(currents.second - Clarke.Inverse(ia, beta).second) <= 11
  {
    var back := Park.RoundTrip(ia, beta, s, c);
    Park.RoundTripExactness(ia, beta, s, c);
    SmallAmplitude(back.first, ia, 4, s, c);
    SmallAmplitude(back.second, beta, 5, s, c);
    InverseIsLipschitz(ia, beta, back.first, back.second);
  }

  /** And of one that a wrapped product threw to the other side. */
  lemma LostVector(ia: Q31, ib: Q31, beta: Q31, s: Q31, c: Q31)
    requires Park.InUnitDisc(ia, beta) && Park.NearUnitCircle(s, c) && !Park.Fits(ia, beta, s, c)
    requires Clarke.Inverse(ia, beta).first == ia && Abs(Clarke.Inverse(ia, beta).second - ib) <= 3
    ensures var back := Park.RoundTrip(ia, beta, s, c);
            var currents := Clarke.Inverse(back.first, back.second);
            Abs(currents.first - ia) > 6 || Abs(currents.second - ib) > 14
  {
    var back := Park.RoundTrip(ia, beta, s, c);
    Park.DiscComponents(ia, beta);
    Park.WrappedIsFar(ia, beta, s, c);
    Clarke.InverseValue(back.first, back.second);
    if Abs(back.first - ia) < 0x8000_0000 {
      NearAxis(ia, beta);
      OppositeSign(ia, ib, beta, back.first, back.second);
    }
  }

  /** For the nearest sine and cosine of every angle. */
  lemma ChainAccuracyAtEveryAngle(ia: Q31, ib: Q31, s: Q31, c: Q31, sine: real, cosine: real)
    requires InOperatingRange(ia, ib)
    requires sine * sine + cosine * cosine == 4611686018427387904.0
    requires Park.Nearest(s, sine) && Park.Nearest(c, cosine)
    ensures ChainRecovers(ia, ib, s, c) <==> Park.Fits(ia, Clarke.UnsaturatedBeta(ia, ib), s, c)
  {
    Park.RoundedPairIsNear(s, c, sine, cosine);
    ChainAccuracy(ia, ib, s, c);
  }

  /** A vector of the disc whose Ibeta is close to 1 has little left for Ia. */
  lemma NearAxis(ia: int, beta: int)
    requires ia * ia + beta * beta < 0x4000_0000_0000_0000 && 0x7FFE_0000 <= beta
    ensures Abs(ia) < 0x200_0000
  {
    MulMono(0x7FFE_0000, beta, 0x7FFE_0000);
    MulMono(0x7FFE_0000, beta, beta);
    Park.SquareBound(ia, 0x200_0000);
  }

  /** Then Ib has the sign of Ibeta, and a returned Ibeta close to -1 gives it the other one. */
  lemma OppositeSign(ia: Q31, ib: Q31, beta: Q31, alpha': Q31, beta': Q31)
    requires Abs(ia) < 0x200_0000 && 0x7FFE_0000 <= beta && beta' <= -0x7FFE_0000
    requires Clarke.Inverse(ia, beta).first == ia && Abs(Clarke.Inverse(ia, beta).second - ib) <= 3
    ensures Abs(alpha' - ia) <= 6 ==> Clarke.Inverse(alpha', beta').second < ib - 14
  {
    Clarke.InverseValue(ia, beta);
    Clarke.InverseValue(alpha', beta');
  }

  lemma SmallAmplitude(got: Q31, want: Q31, units: nat, s: int, c: int)
    requires Park.Recovers(got, want, units, s, c)
    requires Park.AmplitudeError(s, c) <= 0x1_0000_0000
    ensures Abs(got - want) <= units + 2
  {
    MulMono(Park.AmplitudeError(s, c), 0x1_0000_0000, Abs(want));
  }

  /** The inverse Clarke transform does not amplify errors, apart from its own truncation. */
  lemma InverseIsLipschitz(alpha: Q31, beta: Q31, alpha': Q31, beta': Q31)
    requires Abs(alpha' - alpha) <= 6 && Abs(beta' - beta) <= 7
    ensures Clarke.Inverse(alpha', beta').first == alpha'
    ensures Abs(Clarke.Inverse(alpha', beta').second - Clarke.Inverse(alpha, beta).second) <= 11
  {
    Clarke.InverseValue(alpha, beta);
    Clarke.InverseValue(alpha', beta');
    QuotientsStayClose(beta, beta');
  }

  lemma QuotientsStayClose(beta: Q31, beta': Q31)
    requires Abs(beta' - beta) <= 7
    ensures Abs((beta' * 0x6ED9_EBA1) / 0x8000_0000 - (beta * 0x6ED9_EBA1) / 0x8000_0000) <= 7
  {}
}
