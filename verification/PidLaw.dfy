/**
 The exact sums that a run of a fixed-point PID controller is compared with: the documented
 recurrence y[n] = y[n-1] + A0*x[n] + A1*x[n-1] + A2*x[n-2] over unbounded integers, the same
 recurrence with each contribution truncated by a scale factor, and the PID law it stands for.
 */
module PidLaw {

  datatype Weights = Weights(a0: int, a1: int, a2: int) {
    ghost predicate DerivedFrom(kp: int, ki: int, kd: int) {
      a0 == kp + ki + kd && a1 == -kp - 2 * kd && a2 == kd
    }
  }

  /** Sample `i` of a signal that was zero before the run. */
  function Sample(xs: seq<int>, i: int): int
    requires i < |xs|
  {
    if i < 0 then 0 else xs[i]
  }

  /** What call `i` adds. */
  function Contribution(w: Weights, xs: seq<int>, i: nat): int
    requires i < |xs|
  {
    w.a0 * xs[i] + w.a1 * Sample(xs, i - 1) + w.a2 * Sample(xs, i - 2)
  }

  function ExactSum(w: Weights, xs: seq<int>, n: nat): int
    requires n <= |xs|
  {
    if n == 0 then 0 else ExactSum(w, xs, n - 1) + Contribution(w, xs, n - 1)
  }

  function TruncatedSum(w: Weights, xs: seq<int>, n: nat, scale: int): int
    requires n <= |xs| && 0 < scale
  {
    if n == 0 then 0 else TruncatedSum(w, xs, n - 1, scale) + Contribution(w, xs, n - 1) / scale
  }

  function InputSum(xs: seq<int>, n: nat): int
    requires n <= |xs|
  {
    if n == 0 then 0 else InputSum(xs, n - 1) + xs[n - 1]
  }

  /** Kp*x[n] + Ki*sum(x) + Kd*(x[n] - x[n-1]). */
  function Ideal(kp: int, ki: int, kd: int, xs: seq<int>): int {
    var n := |xs| - 1;
    kp * Sample(xs, n) + ki * InputSum(xs, |xs|) + kd * (Sample(xs, n) - Sample(xs, n - 1))
  }

  /** With the derived gains, the truncated recurrence is the PID law less at most one unit per call. */
  lemma TruncatedSumFollowsLaw(w: Weights, kp: int, ki: int, kd: int, xs: seq<int>, scale: int)
    requires w.DerivedFrom(kp, ki, kd) && 0 < scale
    ensures 0 <= Ideal(kp, ki, kd, xs) - scale * TruncatedSum(w, xs, |xs|, scale) <= |xs| * (scale - 1)
  {
    TruncationAccumulates(w, xs, 0, |xs|, scale);
    SumTelescopes(w, kp, ki, kd, xs, |xs|);
    assert xs[..|xs|] == xs;
  }

  /** The calls from m to n truncate by at most one unit each. */
  lemma {:induction false} TruncationAccumulates(w: Weights, xs: seq<int>, m: nat, n: nat, scale: int)
    requires m <= n <= |xs| && 0 < scale
    ensures var exact := ExactSum(w, xs, n) - ExactSum(w, xs, m);
            var truncated := TruncatedSum(w, xs, n, scale) - TruncatedSum(w, xs, m, scale);
            0 <= exact - scale * truncated <= (n - m) * (scale - 1)
  {
    if m < n {
      TruncationAccumulates(w, xs, m, n - 1, scale);
      var total := TruncatedSum(w, xs, n - 1, scale) - TruncatedSum(w, xs, m, scale);
      AddTruncated(total, Contribution(w, xs, n - 1), scale);
      assert (n - m) * (scale - 1) == (n - 1 - m) * (scale - 1) + (scale - 1);
    } else {
      assert scale * 0 == 0;
    }
  }

  lemma AddTruncated(total: int, c: int, scale: int)
    requires 0 < scale
    ensures 0 <= scale * total + c - scale * (total + c / scale) <= scale - 1
  {
    var q, r := c / scale, c % scale;
    assert scale * (total + q) == scale * total + scale * q;
  }

  /** The second difference of the recurrence sums to the PID law. */
  lemma {:induction false} SumTelescopes(w: Weights, kp: int, ki: int, kd: int, xs: seq<int>, n: nat)
    requires w.DerivedFrom(kp, ki, kd) && n <= |xs|
    ensures ExactSum(w, xs, n) == Ideal(kp, ki, kd, xs[..n])
  {
    if n > 0 {
      SumTelescopes(w, kp, ki, kd, xs, n - 1);
      InputSumOfPrefix(xs, n, n);
      InputSumOfPrefix(xs, n - 1, n - 1);
      var x, x1, x2 := xs[n - 1], Sample(xs, n - 2), Sample(xs, n - 3);
      var total := InputSum(xs, n - 1);
      StepAlgebra(kp, ki, kd, x, x1, x2, total);
      assert Contribution(w, xs, n - 1) == w.a0 * x + w.a1 * x1 + w.a2 * x2;
      assert Ideal(kp, ki, kd, xs[..n - 1]) == kp * x1 + ki * total + kd * (x1 - x2);
      assert Ideal(kp, ki, kd, xs[..n]) == kp * x + ki * (total + x) + kd * (x - x1);
    } else {
      assert kp * 0 == 0 && ki * 0 == 0 && kd * (0 - 0) == 0;
    }
  }

  lemma StepAlgebra(kp: int, ki: int, kd: int, x: int, x1: int, x2: int, total: int)
    ensures kp * x1 + ki * total + kd * (x1 - x2) + ((kp + ki + kd) * x + (-kp - 2 * kd) * x1 + kd * x2)
            == kp * x + ki * (total + x) + kd * (x - x1)
  {}

  lemma {:induction false} InputSumOfPrefix(xs: seq<int>, m: nat, n: nat)
    requires n <= m <= |xs|
    ensures InputSum(xs[..m], n) == InputSum(xs, n)
    decreases n
  {
    if n > 0 {
      InputSumOfPrefix(xs, m, n - 1);
    }
  }

  lemma {:induction false} TruncatedSumOfPrefix(w: Weights, xs: seq<int>, m: nat, n: nat, scale: int)
    requires n <= m <= |xs| && 0 < scale
    ensures TruncatedSum(w, xs[..m], n, scale) == TruncatedSum(w, xs, n, scale)
    decreases n
  {
    if n > 0 {
      TruncatedSumOfPrefix(w, xs, m, n - 1, scale);
      assert Contribution(w, xs[..m], n - 1) == Contribution(w, xs, n - 1);
    }
  }
}
