/**
 The Q15 PID controller `arm_pid_q15`, in its two builds: scalar multiplications, and the
 packed form that reads two gains and two states as one word each and uses the dual
 multiply-accumulate operations. The packed form multiplies the sign halves of A0 and the
 input as well; this module says exactly what that costs, per call and over whole runs.
 */
module PidQ15 {
  import opened FixedPoint
  import opened PidLaw

  datatype Gains = Gains(a0: Q15, a1: Q15, a2: Q15) {
    function Law(): Weights { Weights(a0, a1, a2) }
  }

  /** `state[0..2]`: the last two inputs and the last output. */
  datatype State = State(x1: Q15, x2: Q15, y1: Q15)

  const CLEARED := State(0, 0, 0)

  /** The truncated recurrence after n samples, at the scale of a 2.30 product. */
  function Total(g: Gains, xs: seq<Q15>, n: nat): int
    requires n <= |xs|
  {
    TruncatedSum(g.Law(), xs, n, 0x8000)
  }

  // ---------------------------------------------------------------------------
  // Packed words
  // ---------------------------------------------------------------------------

  /** Two halfwords read as one little-endian 32-bit word. */
  function Pack(low: Q15, high: Q15): Q31 { high * 0x1_0000 + low % 0x1_0000 }

  /** `((q31_t)w << 16) >> 16`. */
  function LowHalf(w: U32): Q15 { Wrap16(w) }

  /** `(q31_t)w >> 16`. */
  function HighHalf(w: U32): Q15 { Wrap32(w) / 0x1_0000 }

  /** `__SMUAD`: the sum of the products of the low and of the high halves. */
  function Smuad(x: U32, y: U32): U32 {
    U32Of(LowHalf(x) * LowHalf(y) + HighHalf(x) * HighHalf(y))
  }

  /** `__SMLALD` with the 64-bit accumulation of the instruction. */
  function Smlald(x: U32, y: U32, sum: Q63): Q63 {
    Wrap64(LowHalf(x) * LowHalf(y) + HighHalf(x) * HighHalf(y) + sum)
  }

  lemma HalvesOfPack(low: Q15, high: Q15)
    ensures LowHalf(U32Of(Pack(low, high))) == low
    ensures HighHalf(U32Of(Pack(low, high))) == high
    ensures Pack(low, high) / 0x1_0000 == high && (Pack(low, high) - low) % 0x1_0000 == 0
  {
    WordAsUnsigned(Pack(low, high), high, low % 0x1_0000);
    HalfAsUnsigned(low);
  }

  lemma WordAsUnsigned(w: Q31, high: Q15, l: int)
    requires w == high * 0x1_0000 + l && 0 <= l < 0x1_0000
    ensures HighHalf(U32Of(w)) == high
    ensures LowHalf(U32Of(w)) == Wrap16(l)
  {
    WordRoundTrip(w);
    UpperHalf(w, high, l);
    var u := U32Of(w);
    assert u == (if w < 0 then high + 0x1_0000 else high) * 0x1_0000 + l;
    LowerHalf(u, if w < 0 then high + 0x1_0000 else high, l);
  }

  lemma UpperHalf(w: int, high: int, l: int)
    requires w == high * 0x1_0000 + l && 0 <= l < 0x1_0000
    ensures w / 0x1_0000 == high
  {}

  lemma LowerHalf(u: int, high: int, l: int)
    requires u == high * 0x1_0000 + l
    ensures Wrap16(u) == Wrap16(l)
  {}

  lemma HalfAsUnsigned(low: Q15)
    ensures Wrap16(low % 0x1_0000) == low
  {}

  /** Widening a halfword to a word fills the high half with its sign. */
  lemma HalvesOfExtension(v: Q15)
    ensures LowHalf(U32Of(v)) == v
    ensures HighHalf(U32Of(v)) == if v < 0 then -1 else 0
  {
    assert Wrap32(U32Of(v)) == v;
    assert Wrap16(U32Of(v)) == v;
  }

  // ---------------------------------------------------------------------------
  // One call
  // ---------------------------------------------------------------------------

  function ScalarAccumulator(g: Gains, s: State, x: Q15): int {
    g.a0 * x + g.a1 * s.x1 + g.a2 * s.x2 + s.y1 * 0x8000
  }

  /** The narrowing of `acc >> 15` to the 32-bit argument of `__SSAT`, then saturation. */
  function Output(acc: int): Q15 {
    OutputInRange(acc);
    Ssat(Wrap32(acc / 0x8000), 16)
  }

  lemma OutputInRange(acc: int)
    ensures Ssat(Wrap32(acc / 0x8000), 16) == Clamp15(Wrap32(acc / 0x8000))
  {
    Pow2At14And15();
  }

  function ScalarStep(g: Gains, s: State, x: Q15): State {
    State(x, s.x1, Output(ScalarAccumulator(g, s, x)))
  }

  function PackedAccumulator(a0: Q15, a1: Q31, s: State, x: Q15): int {
    var acc := Wrap32(Smuad(U32Of(a0), U32Of(x)));
    Smlald(U32Of(a1), U32Of(Pack(s.x1, s.x2)), acc) + s.y1 * 0x8000
  }

  function PackedStep(a0: Q15, a1: Q31, s: State, x: Q15): State {
    State(x, s.x1, Output(PackedAccumulator(a0, a1, s, x)))
  }

  function ScalarRun(g: Gains, s: State, xs: seq<Q15>): State {
    if xs == [] then s else ScalarStep(g, ScalarRun(g, s, xs[..|xs| - 1]), xs[|xs| - 1])
  }

  function PackedRun(a0: Q15, a1: Q31, s: State, xs: seq<Q15>): State {
    if xs == [] then s else PackedStep(a0, a1, PackedRun(a0, a1, s, xs[..|xs| - 1]), xs[|xs| - 1])
  }

  /** The instance structure of a build without the DSP extension. */
  class ScalarInstance {
    var A0: Q15
    var A1: Q15
    var A2: Q15
    const state: array<Q15>

    ghost predicate Valid()
      reads this
    {
      state.Length == 3
    }

    ghost function StateOf(): State
      requires Valid()
      reads this, state
    {
      State(state[0], state[1], state[2])
    }

    constructor (a0: Q15, a1: Q15, a2: Q15)
      ensures Valid() && fresh(state)
      ensures A0 == a0 && A1 == a1 && A2 == a2 && StateOf() == CLEARED
    {
      A0, A1, A2 := a0, a1, a2;
      state := new Q15[3](_ => 0);
    }

    method Process(input: Q15) returns (out: Q15)
      requires Valid()
      modifies state
      ensures Valid()
      ensures StateOf() == ScalarStep(Gains(A0, A1, A2), old(StateOf()), input)
      ensures out == StateOf().y1
      ensures out == Output(A0 * input + A1 * old(state[0]) + A2 * old(state[1]) + old(state[2]) as int * 0x8000)
      ensures state[0] == input && state[1] == old(state[0]) && state[2] == out
    {
      var acc: int := A0 * input;
      acc := acc + A1 * state[0];
      acc := acc + A2 * state[1];
      acc := acc + (state[2] as int) * 0x8000;
      out := Output(acc);
      state[1] := state[0];
      state[0] := input;
      state[2] := out;
    }
  }

  /** The instance structure of a DSP build: A1 holds both -Kp-2Kd and Kd. */
  class PackedInstance {
    var A0: Q15
    var A1: Q31
    const state: array<Q15>

    ghost predicate Valid()
      reads this
    {
      state.Length == 3
    }

    ghost function StateOf(): State
      requires Valid()
      reads this, state
    {
      State(state[0], state[1], state[2])
    }

    constructor (a0: Q15, a1: Q15, a2: Q15)
      ensures Valid() && fresh(state)
      ensures A0 == a0 && A1 == Pack(a1, a2) && StateOf() == CLEARED
    {
      A0, A1 := a0, Pack(a1, a2);
      state := new Q15[3](_ => 0);
    }

    method Process(input: Q15) returns (out: Q15)
      requires Valid()
      modifies state
      ensures Valid()
      ensures StateOf() == PackedStep(A0, A1, old(StateOf()), input)
      ensures out == StateOf().y1
      ensures state[0] == input && state[1] == old(state[0]) && state[2] == out
    {
      ghost var before := StateOf();
      var acc: int := Wrap32(Smuad(U32Of(A0), U32Of(input)));
      var vstate := Pack(state[0], state[1]);
      acc := Smlald(U32Of(A1), U32Of(vstate), acc);
      acc := acc + (state[2] as int) * 0x8000;
      assert acc == PackedAccumulator(A0, A1, before, input);
      out := Output(acc);
      state[1] := state[0];
      state[0] := input;
      state[2] := out;
    }
  }

  // ---------------------------------------------------------------------------
  // Scalar runs against the PID law
  // ---------------------------------------------------------------------------

  /** The recurrence with the output clamped to its word after every call. */
  function ClampedSum(g: Gains, xs: seq<Q15>, n: nat): Q15
    requires n <= |xs|
  {
    if n == 0 then 0 else Clamp15(ClampedSum(g, xs, n - 1) + Contribution(g.Law(), xs, n - 1) / 0x8000)
  }

  /**
   Every scalar run from reset, for all gains and inputs: no cast or sum wraps, and the output
   is the clamped recurrence. A saturated output is what the next call continues from.
   */
  lemma {:induction false} ScalarRunIsClampedSum(g: Gains, xs: seq<Q15>)
    ensures ScalarRun(g, CLEARED, xs)
            == State(Sample(xs, |xs| - 1), Sample(xs, |xs| - 2), ClampedSum(g, xs, |xs|))
  {
    if xs != [] {
      var n := |xs| - 1;
      var init := xs[..n];
      ScalarRunIsClampedSum(g, init);
      ClampedSumOfPrefix(g, xs, n, n);
      var s := ScalarRun(g, CLEARED, init);
      assert s.x1 == Sample(xs, n - 1) && s.x2 == Sample(xs, n - 2);
      ScalarOutput(g, s, xs[n]);
      assert ScalarAccumulator(g, s, xs[n]) == Contribution(g.Law(), xs, n) + s.y1 * 0x8000;
      AddWholeUnits(Contribution(g.Law(), xs, n), s.y1);
    }
  }

  lemma {:induction false} ClampedSumOfPrefix(g: Gains, xs: seq<Q15>, m: nat, n: nat)
    requires n <= m <= |xs|
    ensures ClampedSum(g, xs[..m], n) == ClampedSum(g, xs, n)
    decreases n
  {
    if n > 0 {
      ClampedSumOfPrefix(g, xs, m, n - 1);
      assert Contribution(g.Law(), xs[..m], n - 1) == Contribution(g.Law(), xs, n - 1);
    }
  }

  /**
   From call m on, with output y there, the ideal value moves by an amount that keeps y in the
   output range, with one unit per call to spare below.
   */
  ghost predicate IdealFitsFrom(kp: int, ki: int, kd: int, xs: seq<Q15>, m: nat, y: Q15)
    requires m <= |xs|
  {
    forall n: nat :: m <= n <= |xs| ==> MoveFits(Ideal(kp, ki, kd, xs[..n]) - Ideal(kp, ki, kd, xs[..m]), n - m, y)
  }

  predicate MoveFits(move: int, calls: nat, y: Q15) {
    0x8000 * (calls - 0x8000) <= 0x8000 * y + move < 0x4000_0000
  }

  /**
   From any call on, in particular one that saturated, the output follows the movement of the
   ideal PID value, truncated by at most one unit per call, while that movement fits.
   */
  lemma ScalarRunFollowsIdeal(g: Gains, kp: int, ki: int, kd: int, xs: seq<Q15>, m: nat)
    requires g.Law().DerivedFrom(kp, ki, kd) && m <= |xs|
    requires IdealFitsFrom(kp, ki, kd, xs, m, ScalarRun(g, CLEARED, xs[..m]).y1)
    ensures var y, y' := ScalarRun(g, CLEARED, xs[..m]).y1, ScalarRun(g, CLEARED, xs).y1;
            var move := Ideal(kp, ki, kd, xs) - Ideal(kp, ki, kd, xs[..m]);
            && y' - y == Total(g, xs, |xs|) - Total(g, xs, m)
            && 0 <= move - 0x8000 * (y' - y) <= (|xs| - m) * 0x7FFF
  {
    ScalarRunIsClampedSum(g, xs[..m]);
    ScalarRunIsClampedSum(g, xs);
    ClampedSumOfPrefix(g, xs, m, m);
    var y := ClampedSum(g, xs, m);
    forall n: nat | m <= n <= |xs|
      ensures -0x8000 <= y + Total(g, xs, n) - Total(g, xs, m) < 0x8000
    {
      MovesTogether(g, kp, ki, kd, xs, m, n);
      TotalFits(Ideal(kp, ki, kd, xs[..n]) - Ideal(kp, ki, kd, xs[..m]), n - m, y, Total(g, xs, n) - Total(g, xs, m));
    }
    FollowsTotal(g, xs, m, |xs|);
    MovesTogether(g, kp, ki, kd, xs, m, |xs|);
    assert xs[..|xs|] == xs;
  }

  lemma TotalFits(move: int, calls: nat, y: Q15, total: int)
    requires MoveFits(move, calls, y) && 0 <= move - 0x8000 * total <= calls * 0x7FFF
    ensures -0x8000 <= y + total < 0x8000
  {}

  lemma MovesTogether(g: Gains, kp: int, ki: int, kd: int, xs: seq<Q15>, m: nat, n: nat)
    requires g.Law().DerivedFrom(kp, ki, kd) && m <= n <= |xs|
    ensures var move := Ideal(kp, ki, kd, xs[..n]) - Ideal(kp, ki, kd, xs[..m]);
            0 <= move - 0x8000 * (Total(g, xs, n) - Total(g, xs, m)) <= (n - m) * 0x7FFF
  {
    TruncationAccumulates(g.Law(), xs, m, n, 0x8000);
    SumTelescopes(g.Law(), kp, ki, kd, xs, m);
    SumTelescopes(g.Law(), kp, ki, kd, xs, n);
  }

  lemma {:induction false} FollowsTotal(g: Gains, xs: seq<Q15>, m: nat, n: nat)
    requires m <= n <= |xs|
    requires forall k: nat :: m <= k <= n ==>
               -0x8000 <= ClampedSum(g, xs, m) + Total(g, xs, k) - Total(g, xs, m) < 0x8000
    ensures ClampedSum(g, xs, n) == ClampedSum(g, xs, m) + Total(g, xs, n) - Total(g, xs, m)
    decreases n
  {
    if m < n {
      FollowsTotal(g, xs, m, n - 1);
      assert Total(g, xs, n) == Total(g, xs, n - 1) + Contribution(g.Law(), xs, n - 1) / 0x8000;
    }
  }

  /**
   From reset: while the ideal value of every prefix fits, the output is the ideal PID value in
   1.15 format, less a truncation of at most one unit per call.
   */
  lemma ScalarRunIsIdealPid(g: Gains, kp: int, ki: int, kd: int, xs: seq<Q15>)
    requires g.Law().DerivedFrom(kp, ki, kd)
    requires forall n: nat :: n <= |xs| ==> 0x8000 * (n - 0x8000) <= Ideal(kp, ki, kd, xs[..n]) < 0x4000_0000
    ensures ScalarRun(g, CLEARED, xs).y1 == Total(g, xs, |xs|)
    ensures 0 <= Ideal(kp, ki, kd, xs) - 0x8000 * ScalarRun(g, CLEARED, xs).y1 <= |xs| * 0x7FFF
  {
    IdealOfNothing(kp, ki, kd);
    assert xs[..0] == [];
    assert ScalarRun(g, CLEARED, xs[..0]).y1 == 0;
    ScalarRunFollowsIdeal(g, kp, ki, kd, xs, 0);
  }

  lemma IdealOfNothing(kp: int, ki: int, kd: int)
    ensures Ideal(kp, ki, kd, []) == 0
  {
    assert kp * 0 == 0 && ki * 0 == 0 && kd * (0 - 0) == 0;
  }

  lemma AddWholeUnits(c: int, y: int)
    ensures (c + y * 0x8000) / 0x8000 == c / 0x8000 + y
  {}

  /** One scalar call saturates the exact quotient; nothing else is lost. */
  lemma ScalarOutput(g: Gains, s: State, x: Q15)
    ensures ScalarStep(g, s, x) == State(x, s.x1, Clamp15(ScalarAccumulator(g, s, x) / 0x8000))
  {
    PackedAccumulatorExcess(g, s, x);
    OutputIsClamp(ScalarAccumulator(g, s, x));
  }

  // ---------------------------------------------------------------------------
  // Packed against scalar
  // ---------------------------------------------------------------------------

  /** The stray product of the two sign halves. */
  function SignProduct(a0: Q15, x: Q15): nat { if a0 < 0 && x < 0 then 1 else 0 }

  /** Nothing wraps in either build; the packed accumulator is larger by exactly the stray product. */
  lemma PackedAccumulatorExcess(g: Gains, s: State, x: Q15)
    ensures PackedAccumulator(g.a0, Pack(g.a1, g.a2), s, x)
            == ScalarAccumulator(g, s, x) + SignProduct(g.a0, x)
    ensures -0x1_0000_0000 <= ScalarAccumulator(g, s, x) <= 0x1_0000_0000
  {
    ProductFits(g.a0, x);
    ProductFits(g.a1, s.x1);
    ProductFits(g.a2, s.x2);
    var first := g.a0 * x + SignProduct(g.a0, x);
    assert Wrap32(Smuad(U32Of(g.a0), U32Of(x))) == first by { SmuadOfExtensions(g.a0, x); }
    SmlaldOfPacks(g.a1, g.a2, s.x1, s.x2, first);
  }

  lemma SmuadOfExtensions(a: Q15, b: Q15)
    ensures Wrap32(Smuad(U32Of(a), U32Of(b))) == a * b + SignProduct(a, b)
  {
    HalvesOfExtension(a);
    HalvesOfExtension(b);
    ProductFits(a, b);
    WordRoundTrip(a * b + SignProduct(a, b));
  }

  lemma SmlaldOfPacks(a: Q15, b: Q15, c: Q15, d: Q15, sum: Q63)
    requires -0x8000_0000 <= sum < 0x8000_0000
    ensures Smlald(U32Of(Pack(a, b)), U32Of(Pack(c, d)), sum) == a * c + b * d + sum
  {
    HalvesOfPack(a, b);
    HalvesOfPack(c, d);
    SmlaldOfHalves(U32Of(Pack(a, b)), U32Of(Pack(c, d)), sum, a, b, c, d);
  }

  lemma SmlaldOfHalves(x: U32, y: U32, sum: Q63, a: Q15, b: Q15, c: Q15, d: Q15)
    requires LowHalf(x) == a && HighHalf(x) == b && LowHalf(y) == c && HighHalf(y) == d
    requires -0x8000_0000 <= sum < 0x8000_0000
    ensures Smlald(x, y, sum) == a * c + b * d + sum
  {
    ProductFits(a, c);
    ProductFits(b, d);
    var p, q := a * c, b * d;
    AccumulatorFits(p + q + sum);
    assert Smlald(x, y, sum) == Wrap64(p + q + sum);
  }

  lemma ProductFits(a: Q15, b: Q15)
    ensures -0x4000_0000 <= a * b <= 0x4000_0000
  {
    ScaleBound(a, 0x8000, b, 0x8000);
  }

  lemma WordRoundTrip(v: int)
    requires -0x8000_0000 <= v < 0x8000_0000
    ensures Wrap32(U32Of(v)) == v
  {}

  lemma AccumulatorFits(v: int)
    requires -0x2_0000_0000 <= v <= 0x2_0000_0000
    ensures Wrap64(v) == v
  {}

  /** No information is lost on the way to the saturation. */
  lemma OutputIsClamp(acc: int)
    requires -0x2_0000_0000 <= acc <= 0x2_0000_0000
    ensures Output(acc) == Clamp15(acc / 0x8000)
  {
    OutputInRange(acc);
    assert Wrap32(acc / 0x8000) == acc / 0x8000;
  }

  /** The packed output is one unit larger when `differ` holds, and equal otherwise. */
  ghost predicate OneUnitApart(scalar: State, packed: State, differ: bool) {
    && packed.x1 == scalar.x1 && packed.x2 == scalar.x2
    && packed.y1 == scalar.y1 + if differ then 1 else 0
  }

  /**
   One call from the same state: the two outputs are equal unless A0 and the input are both
   negative, the scalar accumulator ends one short of a multiple of 2^15 and the output is not
   saturated; then the packed output is one unit larger.
   */
  lemma PackedStepExactness(g: Gains, s: State, x: Q15)
    ensures var acc := ScalarAccumulator(g, s, x);
            OneUnitApart(
              ScalarStep(g, s, x), PackedStep(g.a0, Pack(g.a1, g.a2), s, x),
              g.a0 < 0 && x < 0 && acc % 0x8000 == 0x7FFF && -0x8000 <= acc / 0x8000 < 0x7FFF)
  {
    StepsAreClamped(g, s, x);
    ClampedStates(x, s.x1, ScalarAccumulator(g, s, x), g.a0 < 0 && x < 0);
  }

  /** One call on which the two builds differ: 0 in the scalar one, 1 in the packed one. */
  lemma BuildsDiffer()
    ensures ScalarStep(Gains(-1, 0x7FFE, 0), State(1, 0, 0), -1).y1 == 0
    ensures PackedStep(-1, Pack(0x7FFE, 0), State(1, 0, 0), -1).y1 == 1
  {
    StrayUnit(Gains(-1, 0x7FFE, 0), State(1, 0, 0), -1);
  }

  lemma StrayUnit(g: Gains, s: State, x: Q15)
    requires g.a0 < 0 && x < 0 && ScalarAccumulator(g, s, x) == 0x7FFF
    ensures ScalarStep(g, s, x).y1 == 0 && PackedStep(g.a0, Pack(g.a1, g.a2), s, x).y1 == 1
  {
    StepsAreClamped(g, s, x);
  }

  lemma ClampedStates(x: Q15, x1: Q15, acc: int, stray: bool)
    ensures OneUnitApart(
              State(x, x1, Clamp15(acc / 0x8000)),
              State(x, x1, Clamp15((acc + if stray then 1 else 0) / 0x8000)),
              stray && acc % 0x8000 == 0x7FFF && -0x8000 <= acc / 0x8000 < 0x7FFF)
  {}

  lemma StepsAreClamped(g: Gains, s: State, x: Q15)
    ensures var acc := ScalarAccumulator(g, s, x);
            && ScalarStep(g, s, x) == State(x, s.x1, Clamp15(acc / 0x8000))
            && PackedStep(g.a0, Pack(g.a1, g.a2), s, x)
               == State(x, s.x1, Clamp15((acc + SignProduct(g.a0, x)) / 0x8000))
  {
    var acc := ScalarAccumulator(g, s, x);
    PackedAccumulatorExcess(g, s, x);
    OutputIsClamp(acc);
    OutputIsClamp(acc + SignProduct(g.a0, x));
  }

  function StraySamples(a0: Q15, xs: seq<Q15>): nat {
    if xs == [] then 0 else StraySamples(a0, xs[..|xs| - 1]) + SignProduct(a0, xs[|xs| - 1])
  }

  /**
   Whole runs: feedback and saturation never amplify the difference. Started from the same
   state, the packed output never falls below the scalar one and exceeds it by at most one
   unit per sample at which A0 and the input were both negative.
   */
  lemma {:induction false} PackedRunDrift(g: Gains, s: State, xs: seq<Q15>)
    ensures var scalar := ScalarRun(g, s, xs);
            var packed := PackedRun(g.a0, Pack(g.a1, g.a2), s, xs);
            && packed.x1 == scalar.x1 && packed.x2 == scalar.x2
            && 0 <= packed.y1 - scalar.y1 <= StraySamples(g.a0, xs)
  {
    if xs != [] {
      var init, x := xs[..|xs| - 1], xs[|xs| - 1];
      PackedRunDrift(g, s, init);
      var scalar := ScalarRun(g, s, init);
      var packed := PackedRun(g.a0, Pack(g.a1, g.a2), s, init);
      PackedAccumulatorExcess(g, packed, x);
      PackedAccumulatorExcess(g, scalar, x);
      var acc := ScalarAccumulator(g, scalar, x);
      var extra := SignProduct(g.a0, x);
      var gap := packed.y1 - scalar.y1;
      assert ScalarAccumulator(g, packed, x) == acc + gap * 0x8000;
      OutputIsClamp(acc);
      OutputIsClamp(acc + gap * 0x8000 + extra);
      ClampedGap(acc, gap, extra);
    }
  }

  lemma ClampedGap(acc: int, gap: nat, extra: nat)
    requires extra <= 1
    ensures 0 <= Clamp15((acc + gap * 0x8000 + extra) / 0x8000) - Clamp15(acc / 0x8000) <= gap + extra
  {}

  /** With a nonnegative A0 the two builds are interchangeable over every run. */
  lemma PackedRunExactForNonNegativeGain(g: Gains, s: State, xs: seq<Q15>)
    requires 0 <= g.a0
    ensures PackedRun(g.a0, Pack(g.a1, g.a2), s, xs) == ScalarRun(g, s, xs)
  {
    PackedRunDrift(g, s, xs);
    NoStraySamples(g.a0, xs);
  }

  lemma {:induction false} NoStraySamples(a0: Q15, xs: seq<Q15>)
    requires 0 <= a0
    ensures StraySamples(a0, xs) == 0
  {
    if xs != [] {
      NoStraySamples(a0, xs[..|xs| - 1]);
    }
  }
}
