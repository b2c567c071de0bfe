/**
 The Q31 PID controller `arm_pid_q31`: a 64-bit accumulator that wraps, a truncating shift,
 and a 32-bit output that is fed back and wraps too.

 The main result is about whole runs: whatever overflows on the way, the n-th output is the
 truncated ideal sum reduced to 32 bits, so it is exact as soon as that sum fits again.
 */
module PidQ31 {
  import opened FixedPoint
  import opened PidLaw

  /** The derived gains A0, A1, A2 of the instance structure. */
  datatype Gains = Gains(a0: Q31, a1: Q31, a2: Q31) {
    function Law(): Weights { Weights(a0, a1, a2) }
  }

  /** `state[0..2]`: the last two inputs and the last output. */
  datatype State = State(x1: Q31, x2: Q31, y1: Q31)

  const CLEARED := State(0, 0, 0)

  /** The truncated recurrence at the scale of a 2.62 product. */
  function Total(g: Gains, xs: seq<Q31>): int { TruncatedSum(g.Law(), xs, |xs|, 0x8000_0000) }

  /** The output for three products and the last output, with every wrap of the source. */
  function Output(p: int, q: int, r: int, y1: Q31): Q31 {
    var acc := Wrap64(Wrap64(Wrap64(p) + q) + r);
    Wrap32(Wrap32(acc / 0x8000_0000) + y1)
  }

  /** One call of the function. */
  function Step(g: Gains, s: State, x: Q31): State {
    State(x, s.x1, Output(g.a0 * x, g.a1 * s.x1, g.a2 * s.x2, s.y1))
  }

  function Run(g: Gains, s: State, xs: seq<Q31>): State {
    if xs == [] then s else Step(g, Run(g, s, xs[..|xs| - 1]), xs[|xs| - 1])
  }

  class PidInstance {
    var A0: Q31
    var A1: Q31
    var A2: Q31
    const state: array<Q31>

    ghost predicate Valid()
      reads this
    {
      state.Length == 3
    }

    ghost function GainsOf(): Gains
      reads this
    {
      Gains(A0, A1, A2)
    }

    ghost function StateOf(): State
      requires Valid()
      reads this, state
    {
      State(state[0], state[1], state[2])
    }

    constructor (a0: Q31, a1: Q31, a2: Q31)
      ensures Valid() && fresh(state)
      ensures GainsOf() == Gains(a0, a1, a2) && StateOf() == CLEARED
    {
      A0, A1, A2 := a0, a1, a2;
      state := new Q31[3](_ => 0);
    }

    method Process(input: Q31) returns (out: Q31)
      requires Valid()
      modifies state
      ensures Valid()
      ensures StateOf() == Step(GainsOf(), old(StateOf()), input)
      ensures out == StateOf().y1
      ensures out == Output(A0 * input, A1 * old(state[0]), A2 * old(state[1]), old(state[2]))
      ensures state[0] == input && state[1] == old(state[0]) && state[2] == out
    {
      ghost var before := StateOf();
      var acc := Wrap64(A0 * input);
      acc := Wrap64(acc + A1 * state[0]);
      acc := Wrap64(acc + A2 * state[1]);
      out := Wrap32(acc / 0x8000_0000);
      out := Wrap32(out + state[2]);
      assert State(input, state[0], out) == Step(GainsOf(), before, input);
      state[1] := state[0];
      state[0] := input;
      state[2] := out;
    }

    /** Feeding a block of samples one by one performs the run. */
    method ProcessBlock(xs: seq<Q31>) returns (outs: seq<Q31>)
      requires Valid()
      modifies state
      ensures Valid()
      ensures StateOf() == Run(GainsOf(), old(StateOf()), xs)
      ensures |outs| == |xs|
      ensures forall i :: 0 <= i < |xs| ==> outs[i] == Run(GainsOf(), old(StateOf()), xs[..i + 1]).y1
    {
      outs := [];
      assert xs[..0] == [];
      for i := 0 to |xs|
        invariant Valid() && |outs| == i
        invariant StateOf() == Run(GainsOf(), old(StateOf()), xs[..i])
        invariant forall j :: 0 <= j < i ==> outs[j] == Run(GainsOf(), old(StateOf()), xs[..j + 1]).y1
      {
        assert xs[..i + 1][..i] == xs[..i];
        var out := Process(xs[i]);
        outs := outs + [out];
      }
      assert xs[..|xs|] == xs;
    }
  }

  // ---------------------------------------------------------------------------
  // Whole runs
  // ---------------------------------------------------------------------------

  /**
   Every run from reset, for all gains and inputs: the output is the ideal PID value scaled to
   1.31, minus a truncation of at most one unit per call, reduced to 32 bits once. Overflow of
   the accumulator or of earlier outputs leaves no trace.
   */
  lemma RunIsIdealPid(g: Gains, kp: int, ki: int, kd: int, xs: seq<Q31>)
    requires g.Law().DerivedFrom(kp, ki, kd)
    ensures Run(g, CLEARED, xs).y1 == Wrap32(Total(g, xs))
    ensures 0 <= Ideal(kp, ki, kd, xs) - 0x8000_0000 * Total(g, xs) <= |xs| * 0x7FFF_FFFF
  {
    RunTracksTotal(g, xs);
    TruncatedSumFollowsLaw(g.Law(), kp, ki, kd, xs, 0x8000_0000);
  }

  /**
   A caller's form: when the ideal value, less one unit per call, fits the output word, the
   output is that value truncated by fewer than n units - even if intermediate values overflowed.
   */
  lemma RunIsAccurateWhenIdealFits(g: Gains, kp: int, ki: int, kd: int, xs: seq<Q31>)
    requires g.Law().DerivedFrom(kp, ki, kd) && xs != []
    requires var ideal := Ideal(kp, ki, kd, xs);
             0x8000_0000 * (|xs| - 0x8000_0000) <= ideal < 0x8000_0000 * 0x8000_0000
    ensures var out, ideal := Run(g, CLEARED, xs).y1, Ideal(kp, ki, kd, xs);
            0x8000_0000 * out <= ideal < 0x8000_0000 * (out + |xs|)
  {
    RunIsIdealPid(g, kp, ki, kd, xs);
    FittingTotal(Total(g, xs), Ideal(kp, ki, kd, xs), |xs|);
  }

  lemma FittingTotal(total: int, ideal: int, n: int)
    requires 0 < n
    requires 0x8000_0000 * (n - 0x8000_0000) <= ideal < 0x8000_0000 * 0x8000_0000
    requires 0 <= ideal - 0x8000_0000 * total <= n * 0x7FFF_FFFF
    ensures Wrap32(total) == total
    ensures 0x8000_0000 * total <= ideal < 0x8000_0000 * (total + n)
  {}

  /** The accumulator of one call stays in 64 bits; only its shifted value and the fed-back output can wrap. */
  ghost predicate StepIsExact(g: Gains, s: State, x: Q31) {
    var acc := g.a0 * x + g.a1 * s.x1 + g.a2 * s.x2;
    && -0x8000_0000_0000_0000 <= acc < 0x8000_0000_0000_0000
    && Step(g, s, x) == State(x, s.x1, Wrap32(acc / 0x8000_0000 + s.y1))
  }

  /** The documented guard: inputs scaled down by two bits never overflow the accumulator. */
  lemma ScaledInputsDoNotOverflow(g: Gains, s: State, x: Q31)
    requires Abs(x) <= 0x2000_0000 && Abs(s.x1) <= 0x2000_0000 && Abs(s.x2) <= 0x2000_0000
    ensures StepIsExact(g, s, x)
  {
    ScaleBound(g.a0, 0x8000_0000, x, 0x2000_0000);
    ScaleBound(g.a1, 0x8000_0000, s.x1, 0x2000_0000);
    ScaleBound(g.a2, 0x8000_0000, s.x2, 0x2000_0000);
    StepOutput(g, s, x);
  }

  /** Whole runs from reset on such inputs: no call overflows the accumulator. */
  lemma ScaledRunDoesNotOverflow(g: Gains, xs: seq<Q31>)
    requires forall i :: 0 <= i < |xs| ==> Abs(xs[i]) <= 0x2000_0000
    ensures forall n: nat :: n < |xs| ==> StepIsExact(g, Run(g, CLEARED, xs[..n]), xs[n])
  {
    forall n: nat | n < |xs|
      ensures StepIsExact(g, Run(g, CLEARED, xs[..n]), xs[n])
    {
      RunTracksTotal(g, xs[..n]);
      ScaledInputsDoNotOverflow(g, Run(g, CLEARED, xs[..n]), xs[n]);
    }
  }

  /** The unbounded value one call computes before it is narrowed to the output word. */
  function ExactOutput(g: Gains, s: State, x: Q31): int {
    (g.a0 * x + g.a1 * s.x1 + g.a2 * s.x2) / 0x8000_0000 + s.y1
  }

  /** All the wraps of one call amount to a single one at the end. */
  lemma StepOutput(g: Gains, s: State, x: Q31)
    ensures Step(g, s, x) == State(x, s.x1, Wrap32(ExactOutput(g, s, x)))
  {
    WrapsCompose(g.a0 * x, g.a1 * s.x1, g.a2 * s.x2, s.y1);
  }

  /**
   The documentation says the output is saturated. The code wraps: the output is the saturated
   value exactly when the unbounded one fits the word, or is one of the two values whose wrap
   happens to land on the limit.
   */
  lemma SaturationExactness(g: Gains, s: State, x: Q31)
    ensures var exact := ExactOutput(g, s, x);
            Step(g, s, x).y1 == Clamp31(exact)
            <==> -0x8000_0000 <= exact < 0x8000_0000 || exact == 0x1_7FFF_FFFF || exact == -0x1_8000_0000
    ensures Step(Gains(0x7FFF_FFFF, 0, 0), State(0, 0, 0x7FFF_FFFF), 0x7FFF_FFFF).y1 == -3
  {
    StepOutput(g, s, x);
    ExactOutputRange(g, s, x);
    WrapIsClamp(ExactOutput(g, s, x));
    FullScaleWraps(0x7FFF_FFFF);
  }

  lemma ExactOutputRange(g: Gains, s: State, x: Q31)
    ensures Abs(ExactOutput(g, s, x)) <= 0x2_0000_0000
  {
    ScaleBound(g.a0, 0x8000_0000, x, 0x8000_0000);
    ScaleBound(g.a1, 0x8000_0000, s.x1, 0x8000_0000);
    ScaleBound(g.a2, 0x8000_0000, s.x2, 0x8000_0000);
  }

  lemma FullScaleWraps(m: Q31)
    requires m == 0x7FFF_FFFF
    ensures Step(Gains(m, 0, 0), State(0, 0, m), m).y1 == -3
  {
    StepOutput(Gains(m, 0, 0), State(0, 0, m), m);
    assert (m * m + 0 * 0 + 0 * 0) / 0x8000_0000 == 0x7FFF_FFFE;
  }

  lemma WrapIsClamp(exact: int)
    requires -0x2_0000_0000 <= exact <= 0x2_0000_0000
    ensures Wrap32(exact) == Clamp31(exact)
            <==> -0x8000_0000 <= exact < 0x8000_0000 || exact == 0x1_7FFF_FFFF || exact == -0x1_8000_0000
  {}

  lemma {:induction false} RunTracksTotal(g: Gains, xs: seq<Q31>)
    ensures Run(g, CLEARED, xs) == State(Sample(xs, |xs| - 1), Sample(xs, |xs| - 2), Wrap32(Total(g, xs)))
  {
    if xs != [] {
      var n := |xs| - 1;
      var init := xs[..n];
      RunTracksTotal(g, init);
      TruncatedSumOfPrefix(g.Law(), xs, n, n, 0x8000_0000);
      var s := Run(g, CLEARED, init);
      assert s.x1 == Sample(xs, n - 1) && s.x2 == Sample(xs, n - 2);
      StepOutput(g, s, xs[n]);
      var c := Contribution(g.Law(), xs, n) / 0x8000_0000;
      assert ExactOutput(g, s, xs[n]) == c + s.y1;
      Wrap32Absorbs(Total(g, init), c);
    }
  }

  /** Wrapping the accumulator after each addition does not change the 32 bits kept of it. */
  lemma WrapsCompose(p: int, q: int, r: int, y: Q31)
    ensures Output(p, q, r, y) == Wrap32((p + q + r) / 0x8000_0000 + y)
  {
    Wrap64Absorbs(p, q);
    Wrap64Absorbs(p + q, r);
    ShiftOfWrapped(p + q + r);
    Wrap32Absorbs((p + q + r) / 0x8000_0000, y);
  }

  lemma Wrap64Absorbs(a: int, b: int)
    ensures Wrap64(Wrap64(a) + b) == Wrap64(a + b)
  {}

  lemma Wrap32Absorbs(a: int, b: int)
    ensures Wrap32(Wrap32(a) + b) == Wrap32(a + b)
  {}

  lemma ShiftOfWrapped(a: int)
    ensures Wrap32(Wrap64(a) / 0x8000_0000) == Wrap32(a / 0x8000_0000)
  {
    var k := (a + 0x8000_0000_0000_0000) / 0x1_0000_0000_0000_0000;
    var q, r := a / 0x8000_0000, a % 0x8000_0000;
    DivUnique(Wrap64(a), 0x8000_0000, q - k * 0x2_0000_0000, r);
    Wrap32Periodic(q, k);
  }

  lemma Wrap32Periodic(q: int, k: int)
    ensures Wrap32(q - k * 0x2_0000_0000) == Wrap32(q)
  {
    var a := q + 0x8000_0000;
    DivUnique(a - 2 * k * 0x1_0000_0000, 0x1_0000_0000, a / 0x1_0000_0000 - 2 * k, a % 0x1_0000_0000);
  }
}
