/**
 `arm_bilinear_interp_q31`. It keeps its sum in 32 bits in 3.29 format and converts it with a
 left shift by 2, which wraps when the sum has been truncated below -2^29.
 */
module BilinearInterpQ31 {
  import opened FixedPoint
  import opened BilinearInterp

  /** The source's `0x7FFFFFFF - fract`. */
  function Rest(fract: int): int { 0x7FFF_FFFF - fract }

  /** One product of the source: `(q31_t) (((q63_t) v * w) >> 32)`. */
  function High(v: Q31, w: int): (r: Q31)
    requires 0 <= w < 0x8000_0000
    ensures -0x4000_0000 <= r < 0x4000_0000
  {
    WeightedRange(v, w);
    (v * w) / 0x1_0000_0000
  }

  lemma WeightedRange(v: Q31, w: int)
    requires 0 <= w < 0x8000_0000
    ensures -0x4000_0000_0000_0000 <= v * w < 0x4000_0000_0000_0000
  {
    ScaleBound(v, 0x8000_0000, w, 0x7FFF_FFFF);
  }

  /** A product of a first-stage value. */
  function Term(v: Q31, w: int, w': int): (t: Q31)
    requires 0 <= w < 0x8000_0000 && 0 <= w' < 0x8000_0000
    ensures -0x2000_0000 <= t < 0x2000_0000
  {
    var out := High(v, w);
    ScaleBound(out, 0x4000_0000, w', 0x7FFF_FFFF);
    High(out, w')
  }

  /** Every partial sum fits in 32 bits. */
  function AccumulateQ31(c: Corners, xfract: int, yfract: int): (acc: Q31)
    requires c.Within(0x8000_0000) && c.Greatest() < 0x8000_0000
    requires 0 <= xfract < 0x8000_0000 && 0 <= yfract < 0x8000_0000
  {
    var acc1: Q31 := Term(c.x1, Rest(xfract), Rest(yfract));
    var acc2: Q31 := acc1 + Term(c.x2, Rest(yfract), xfract);
    var acc3: Q31 := acc2 + Term(c.y1, Rest(xfract), yfract);
    acc3 + Term(c.y2, xfract, yfract)
  }

  function InterpQ31(s: Table<Q31>, x: Q31, y: Q31): Q31
    requires OutsideTable(s, x, y) || ReadsInTable(s, x, y)
  {
    if OutsideTable(s, x, y) then 0 else Wrap32(CellSum(s, x, y) * 4)
  }

  function CellSum(s: Table<Q31>, x: Q31, y: Q31): Q31
    requires ReadsInTable(s, x, y)
  {
    AccumulateQ31(CornersAt(s, x, y), x % 0x10_0000 * 0x800, y % 0x10_0000 * 0x800)
  }

  // ---------------------------------------------------------------------------
  // The sum against the documented formula
  // ---------------------------------------------------------------------------

  /** What the four terms add up to before any truncation, times 2^64. */
  function Weighted(c: Corners, xf: int, yf: int): int {
    c.x1 * Rest(xf) * Rest(yf) + c.x2 * Rest(yf) * xf + c.y1 * Rest(xf) * yf + c.y2 * xf * yf
  }

  lemma TermLoss(v: Q31, w: int, w': int)
    requires 0 <= w < 0x8000_0000 && 0 <= w' < 0x8000_0000
    ensures 0 <= v * w * w' - 0x1_0000_0000_0000_0000 * Term(v, w, w')
               < 0x1_0000_0000_0000_0000 + 0x1_0000_0000 * w'
  {
    var out: int, r := (v * w) / 0x1_0000_0000, (v * w) % 0x1_0000_0000;
    SplitWeight(v * w, out, r, w');
    MulNonNeg(r, w');
    MulMono(r, 0xFFFF_FFFF, w');
    SecondFloor(out * w', Term(v, w, w'));
  }

  lemma SplitWeight(p: int, out: int, r: int, w: int)
    requires p == out * 0x1_0000_0000 + r
    ensures p * w == 0x1_0000_0000 * (out * w) + r * w
  {}

  lemma SecondFloor(q: int, t: int)
    requires t == q / 0x1_0000_0000
    ensures 0 <= 0x1_0000_0000 * q - 0x1_0000_0000_0000_0000 * t <= 0x1_0000_0000 * 0xFFFF_FFFF
  {}

  /** Eight truncations lose less than five and a half units of the sum. */
  lemma SumLoss(c: Corners, xf: int, yf: int)
    requires c.Within(0x8000_0000) && c.Greatest() < 0x8000_0000
    requires 0 <= xf < 0x8000_0000 && 0 <= yf < 0x8000_0000
    ensures 0 <= Weighted(c, xf, yf) - 0x1_0000_0000_0000_0000 * AccumulateQ31(c, xf, yf)
               < 0x5_8000_0000_0000_0000
  {
    TermLoss(c.x1, Rest(xf), Rest(yf));
    TermLoss(c.x2, Rest(yf), xf);
    TermLoss(c.y1, Rest(xf), yf);
    TermLoss(c.y2, xf, yf);
  }

  lemma RowBounds(lo: int, a: int, b: int, hi: int, f: int)
    requires lo <= a <= hi && lo <= b <= hi && 0 <= f < 0x8000_0000
    ensures lo * 0x7FFF_FFFF <= a * Rest(f) + b * f <= hi * 0x7FFF_FFFF
  {
    MulMono(lo, a, Rest(f));
    MulMono(a, hi, Rest(f));
    MulMono(lo, b, f);
    MulMono(b, hi, f);
    RestSum(lo, f);
    RestSum(hi, f);
  }

  lemma RestSum(v: int, f: int)
    ensures v * Rest(f) + v * f == v * 0x7FFF_FFFF
  {}

  /** One row of the cell. */
  function Row(a: int, b: int, xf: int): int { a * Rest(xf) + b * xf }

  lemma WeightedByRows(c: Corners, xf: int, yf: int)
    ensures Weighted(c, xf, yf) == Row(Row(c.x1, c.x2, xf), Row(c.y1, c.y2, xf), yf)
  {
    Distribute(c.x1 * Rest(xf), c.x2 * xf, Rest(yf));
    Distribute(c.y1 * Rest(xf), c.y2 * xf, yf);
    Exchange(c.x2, Rest(yf), xf);
  }

  lemma Distribute(a: int, b: int, w: int)
    ensures (a + b) * w == a * w + b * w
  {}

  lemma Exchange(a: int, b: int, w: int)
    ensures a * b * w == a * w * b
  {}

  lemma WeightedBounds(c: Corners, xf: int, yf: int)
    requires 0 <= xf < 0x8000_0000 && 0 <= yf < 0x8000_0000
    ensures c.Least() * 0x3FFF_FFFF_0000_0001 <= Weighted(c, xf, yf) <= c.Greatest() * 0x3FFF_FFFF_0000_0001
  {
    WeightedByRows(c, xf, yf);
    var lo, hi := c.Least(), c.Greatest();
    RowBounds(lo, c.x1, c.x2, hi, xf);
    RowBounds(lo, c.y1, c.y2, hi, xf);
    RowBounds(lo * 0x7FFF_FFFF, Row(c.x1, c.x2, xf), Row(c.y1, c.y2, xf), hi * 0x7FFF_FFFF, yf);
  }

  /** The weights 2^31 - 1 cost at most half a unit of the sum against the documented formula. */
  lemma WeightedAgainstIdeal(c: Corners, xf: int, yf: int)
    requires c.Within(0x8000_0000) && 0 <= xf < 0x10_0000 && 0 <= yf < 0x10_0000
    ensures Abs(0x40_0000 * Ideal(c, xf, yf) - Weighted(c, xf * 0x800, yf * 0x800)) <= 0x8000_0000_0000_0000
  {
    var x, y := xf * 0x800, yf * 0x800;
    var l0, l1 := Row(c.x1, c.x2, x), Row(c.y1, c.y2, x);
    WeightedByRows(c, x, y);
    ScaledRow(c.x1, c.x2, xf);
    ScaledRow(c.y1, c.y2, xf);
    ScaledCell(c.x1 * (0x10_0000 - xf) + c.x2 * xf, l0 + c.x1, c.y1 * (0x10_0000 - xf) + c.y2 * xf, l1 + c.y1, yf);
    OneMore(l0, c.x1, l1, c.y1, y);
    RowBounds(-0x8000_0000, c.x1, c.x2, 0x8000_0000, x);
    RowBounds(-0x8000_0000, c.x1, c.y1, 0x8000_0000, y);
  }

  lemma ScaledRow(a: int, b: int, f: int)
    ensures 0x800 * (a * (0x10_0000 - f) + b * f) == Row(a, b, f * 0x800) + a
  {}

  lemma ScaledCell(r0: int, s0: int, r1: int, s1: int, f: int)
    requires 0x800 * r0 == s0 && 0x800 * r1 == s1
    ensures 0x40_0000 * (r0 * (0x10_0000 - f) + r1 * f) == s0 * (0x8000_0000 - f * 0x800) + s1 * (f * 0x800)
  {}

  lemma OneMore(l0: int, a: int, l1: int, b: int, y: int)
    ensures (l0 + a) * (0x8000_0000 - y) + (l1 + b) * y == Row(l0, l1, y) + l0 + Row(a, b, y) + a
  {}

  // ---------------------------------------------------------------------------
  // When the final shift fits
  // ---------------------------------------------------------------------------

  /** Never more than 24 units below the documented formula, nor more than 2 above it. */
  predicate AccurateQ31(ideal: int, r: int) { -0x200_0000_0000 <= ideal - 0x100_0000_0000 * r < 0x1800_0000_0000 }

  /**
   The final shift only ever wraps downwards, by exactly 2^32, and an accepted cell is accurate
   exactly when the 3.29 sum has not fallen below -2^29.
   */
  lemma InterpQ31Exactness(s: Table<Q31>, x: Q31, y: Q31)
    requires ReadsInTable(s, x, y)
    ensures var ideal := Ideal(CornersAt(s, x, y), x % 0x10_0000, y % 0x10_0000);
            var acc, r := CellSum(s, x, y), InterpQ31(s, x, y);
            if OutsideTable(s, x, y) then r == 0
            else
              && (AccurateQ31(ideal, r) <==> -0x2000_0000 <= acc)
              && r == (if -0x2000_0000 <= acc then 4 * acc else 4 * acc + 0x1_0000_0000)
  {
    var c := CornersAt(s, x, y);
    var xf, yf := x % 0x10_0000, y % 0x10_0000;
    SumLoss(c, xf * 0x800, yf * 0x800);
    WeightedAgainstIdeal(c, xf, yf);
    WeightedBounds(c, xf * 0x800, yf * 0x800);
    ShiftedSum(CellSum(s, x, y), Weighted(c, xf * 0x800, yf * 0x800), c.Least(), c.Greatest());
  }

  lemma ShiftedSum(acc: int, weighted: int, lo: int, hi: int)
    requires 0 <= weighted - 0x1_0000_0000_0000_0000 * acc < 0x5_8000_0000_0000_0000
    requires lo * 0x3FFF_FFFF_0000_0001 <= weighted <= hi * 0x3FFF_FFFF_0000_0001
    requires -0x8000_0000 <= lo && hi < 0x8000_0000
    ensures -0x2000_0005 <= acc < 0x2000_0000
    ensures Wrap32(acc * 4) == if -0x2000_0000 <= acc then 4 * acc else 4 * acc + 0x1_0000_0000
  {}

  // ---------------------------------------------------------------------------
  // The values for which it always fits
  // ---------------------------------------------------------------------------

  ghost predicate AlwaysAccurate(lowest: Q31) {
    forall s: Table<Q31>, x: Q31, y: Q31 ::
      ReadsInTable(s, x, y) && !OutsideTable(s, x, y) && lowest <= CornersAt(s, x, y).Least() ==>
        AccurateQ31(Ideal(CornersAt(s, x, y), x % 0x10_0000, y % 0x10_0000), InterpQ31(s, x, y))
  }

  /** Cells of values from `lowest` up are accurate at every fraction if and only if it is at least -2^31 + 13. */
  lemma InterpQ31Threshold(lowest: Q31)
    ensures AlwaysAccurate(lowest) <==> -0x7FFF_FFF3 <= lowest
  {
    if -0x7FFF_FFF3 <= lowest {
      forall s: Table<Q31>, x: Q31, y: Q31
        | ReadsInTable(s, x, y) && !OutsideTable(s, x, y) && lowest <= CornersAt(s, x, y).Least()
        ensures AccurateQ31(Ideal(CornersAt(s, x, y), x % 0x10_0000, y % 0x10_0000), InterpQ31(s, x, y))
      {
        InterpQ31Accuracy(s, x, y);
      }
    } else {
      var s := Constant(-0x7FFF_FFF4);
      HigherCell(-0x7FFF_FFF4, 829406, 794109);
      InterpQ31Exactness(s, 829406, 794109);
      assert CornersAt(s, 829406, 794109) == Corners(-0x7FFF_FFF4, -0x7FFF_FFF4, -0x7FFF_FFF4, -0x7FFF_FFF4);
    }
  }

  /** In particular, such a cell is accurate unless it is rejected. */
  lemma InterpQ31Accuracy(s: Table<Q31>, x: Q31, y: Q31)
    requires ReadsInTable(s, x, y)
    requires -0x7FFF_FFF3 <= CornersAt(s, x, y).Least()
    ensures var ideal := Ideal(CornersAt(s, x, y), x % 0x10_0000, y % 0x10_0000);
            AccurateQ31(ideal, InterpQ31(s, x, y)) <==> !OutsideTable(s, x, y) || AccurateQ31(ideal, 0)
  {
    var c := CornersAt(s, x, y);
    var xf, yf := x % 0x10_0000, y % 0x10_0000;
    InterpQ31Exactness(s, x, y);
    SumIsMonotone(c, -0x7FFF_FFF3, xf * 0x800, yf * 0x800);
    ThresholdSum(-0x7FFF_FFF3, xf, yf);
  }

  /** Coordinates outside give 0; all others are accurate exactly when the sum fits, wherever the table is read. */
  lemma ByCoordinatesQ31(s: Table<Q31>, x: Q31, y: Q31)
    requires x < 0 || y < 0 || x >= s.numRows * 0x10_0000 || y >= s.numCols * 0x10_0000 || ReadsInTable(s, x, y)
    ensures OutsideTable(s, x, y) || ReadsInTable(s, x, y)
    ensures if x < 0 || y < 0 || x >= s.numRows * 0x10_0000 || y >= s.numCols * 0x10_0000
            then InterpQ31(s, x, y) == 0
            else
              var c := CornersAt(s, x, y);
              var accurate := AccurateQ31(Ideal(c, x % 0x10_0000, y % 0x10_0000), InterpQ31(s, x, y));
              (accurate <==> -0x2000_0000 <= CellSum(s, x, y)) && (-0x7FFF_FFF3 <= c.Least() ==> accurate)
  {
    OutsideByCoordinates(s, x, y);
    if !OutsideTable(s, x, y) {
      InterpQ31Exactness(s, x, y);
      if -0x7FFF_FFF3 <= CornersAt(s, x, y).Least() {
        InterpQ31Accuracy(s, x, y);
      }
    }
  }

  /** Interior cells of full tables, with the two index tests that decide them. */
  lemma InteriorQ31(s: Table<Q31>, x: Q31, y: Q31)
    requires Interior(s, x, y)
    ensures ReadsInTable(s, x, y)
    ensures var c, r := CornersAt(s, x, y), InterpQ31(s, x, y);
            var accurate := AccurateQ31(Ideal(c, x % 0x10_0000, y % 0x10_0000), r);
            if x / 0x10_0000 < s.numRows && y / 0x10_0000 < s.numCols
            then (accurate <==> -0x2000_0000 <= CellSum(s, x, y)) && (-0x7FFF_FFF3 <= c.Least() ==> accurate)
            else r == 0
  {
    InteriorCell(s, x, y);
    InterpQ31Exactness(s, x, y);
    if -0x7FFF_FFF3 <= CornersAt(s, x, y).Least() {
      InterpQ31Accuracy(s, x, y);
    }
  }

  lemma SumIsMonotone(c: Corners, v: Q31, xf: int, yf: int)
    requires c.Within(0x8000_0000) && c.Greatest() < 0x8000_0000 && v <= c.Least()
    requires 0 <= xf < 0x8000_0000 && 0 <= yf < 0x8000_0000
    ensures AccumulateQ31(Corners(v, v, v, v), xf, yf) <= AccumulateQ31(c, xf, yf)
  {
    TermIsMonotone(v, c.x1, Rest(xf), Rest(yf));
    TermIsMonotone(v, c.x2, Rest(yf), xf);
    TermIsMonotone(v, c.y1, Rest(xf), yf);
    TermIsMonotone(v, c.y2, xf, yf);
  }

  lemma TermIsMonotone(v: Q31, v': Q31, w: int, w': int)
    requires v <= v' && 0 <= w < 0x8000_0000 && 0 <= w' < 0x8000_0000
    ensures Term(v, w, w') <= Term(v', w, w')
  {
    HighIsMonotone(v, v', w);
    HighIsMonotone(High(v, w), High(v', w), w');
  }

  lemma HighIsMonotone(v: Q31, v': Q31, w: int)
    requires v <= v' && 0 <= w < 0x8000_0000
    ensures High(v, w) <= High(v', w)
  {
    MulMono(v, v', w);
  }

  /** The first stage on the value -2^31 + 13: what is left of the 13 is r of 6, or 6 - r. */
  lemma FirstStage(v: Q31, f: int)
    requires v == -0x7FFF_FFF3 && 0 <= f < 0x10_0000
    ensures var r := 13 * f / 0x20_0000;
            && 0 <= r <= 6
            && High(v, f * 0x800) == -0x400 * f + r
            && High(v, Rest(f * 0x800)) == -0x4000_0000 + 0x400 * f + 6 - r
  {}

  /** The second stage, with the product of the fractions split at bit 11 and pg standing for p * g. */
  lemma SecondStage(a: Q31, f: int, g: int, p: int, pg: int, k: int, m: int)
    requires a == -0x4000_0000 + 0x400 * f + p && 0 <= g < 0x10_0000 && f * g == 0x800 * k + m && pg == p * g
    ensures High(a, g * 0x800) == -0x200 * g + k + (0x400 * m + pg) / 0x20_0000
    ensures High(a, Rest(g * 0x800)) == -0x2000_0000 + 0x200 * (f + g) - k
              + (0x4000_0000 - 0x400 * f + p * 0x7FFF_FFFF - 0x800 * pg - 0x20_0000 * m) / 0x1_0000_0000
  {
    assert a * g == -0x4000_0000 * g + 0x400 * (f * g) + p * g;
    assert a * (g * 0x800) == 0x800 * (a * g);
    assert a * Rest(g * 0x800) == a * 0x7FFF_FFFF - 0x800 * (a * g);
  }

  lemma LastTerm(d: Q31, f: int, g: int, r: int, rg: int, k: int, m: int)
    requires d == -0x400 * f + r && 0 <= g < 0x10_0000 && f * g == 0x800 * k + m && rg == r * g
    ensures High(d, g * 0x800) == -k + (-0x400 * m + rg) / 0x20_0000
  {
    assert d * g == -0x400 * (f * g) + r * g;
    assert d * (g * 0x800) == 0x800 * (d * g);
  }

  lemma ThresholdSum(v: Q31, xf: int, yf: int)
    requires v == -0x7FFF_FFF3 && 0 <= xf < 0x10_0000 && 0 <= yf < 0x10_0000
    ensures -0x2000_0000 <= AccumulateQ31(Corners(v, v, v, v), xf * 0x800, yf * 0x800)
  {
    var r, s := 13 * xf / 0x20_0000, 13 * yf / 0x20_0000;
    FirstStage(v, xf);
    FirstStage(v, yf);
    Leftovers(xf, yf, r, s);
    ThresholdTerms(v, xf, yf, r, s, (6 - r) * yf, r * yf, (6 - s) * xf, xf * yf);
  }

  lemma ThresholdTerms(v: Q31, xf: int, yf: int, r: int, s: int, py: int, ry: int, qx: int, n: int)
    requires 0 <= xf < 0x10_0000 && 0 <= yf < 0x10_0000
    requires High(v, xf * 0x800) == -0x400 * xf + r
    requires High(v, Rest(xf * 0x800)) == -0x4000_0000 + 0x400 * xf + 6 - r
    requires High(v, Rest(yf * 0x800)) == -0x4000_0000 + 0x400 * yf + 6 - s
    requires py == (6 - r) * yf && ry == r * yf && qx == (6 - s) * xf && n == xf * yf
    requires 0 <= r <= 6 && 6 * 0x20_0000 * r <= 13 * (ry + qx)
    requires 0 <= ry && 0 <= py <= (6 - r) * 0xF_FFFF && 0 <= qx
    ensures -0x2000_0000 <= AccumulateQ31(Corners(v, v, v, v), xf * 0x800, yf * 0x800)
  {
    FourTerms(v, xf, yf, r, s, py, ry, qx, n / 0x800, n % 0x800);
    FloorsBalance(xf, py, 6 - r, ry, qx, n % 0x800);
  }

  lemma FourTerms(v: Q31, xf: int, yf: int, r: int, s: int, py: int, ry: int, qx: int, k: int, m: int)
    requires 0 <= xf < 0x10_0000 && 0 <= yf < 0x10_0000
    requires High(v, xf * 0x800) == -0x400 * xf + r
    requires High(v, Rest(xf * 0x800)) == -0x4000_0000 + 0x400 * xf + 6 - r
    requires High(v, Rest(yf * 0x800)) == -0x4000_0000 + 0x400 * yf + 6 - s
    requires py == (6 - r) * yf && ry == r * yf && qx == (6 - s) * xf && xf * yf == 0x800 * k + m
    ensures AccumulateQ31(Corners(v, v, v, v), xf * 0x800, yf * 0x800) + 0x2000_0000
            == (0x4000_0000 - 0x400 * xf + (6 - r) * 0x7FFF_FFFF - 0x800 * py - 0x20_0000 * m) / 0x1_0000_0000
             + (0x400 * m + qx) / 0x20_0000 + (0x400 * m + py) / 0x20_0000 + (-0x400 * m + ry) / 0x20_0000
  {
    SecondStage(High(v, Rest(xf * 0x800)), xf, yf, 6 - r, py, k, m);
    Exchange(1, xf, yf);
    SecondStage(High(v, Rest(yf * 0x800)), yf, xf, 6 - s, qx, k, m);
    LastTerm(High(v, xf * 0x800), xf, yf, r, ry, k, m);
  }

  /** The leftovers of the two first stages that the fractions bring back. */
  lemma Leftovers(xf: int, yf: int, r: int, s: int)
    requires 0 <= xf < 0x10_0000 && 0 <= yf < 0x10_0000
    requires r == 13 * xf / 0x20_0000 && s == 13 * yf / 0x20_0000
    ensures 0 <= r <= 6 && 6 * 0x20_0000 * r <= 13 * (r * yf + (6 - s) * xf)
    ensures 0 <= r * yf && 0 <= (6 - r) * yf <= (6 - r) * 0xF_FFFF && 0 <= (6 - s) * xf
  {
    MulMono(0x20_0000 * r, 13 * xf, 6 - s);
    MulMono(6 * 0x20_0000 - 13 * yf, 0x20_0000 * (6 - s), r);
    CrossTerms(xf, yf, r, 6 - s);
    MulNonNeg(r, yf);
    MulNonNeg(6 - r, yf);
    MulNonNeg(6 - s, xf);
    MulMono(yf, 0xF_FFFF, 6 - r);
  }

  lemma CrossTerms(xf: int, yf: int, r: int, q: int)
    requires 0x20_0000 * r * q <= 13 * xf * q
    requires (6 * 0x20_0000 - 13 * yf) * r <= 0x20_0000 * q * r
    ensures 6 * 0x20_0000 * r <= 13 * (r * yf + q * xf)
  {}

  /** What the four last truncations lose is made up for by the leftovers. */
  lemma FloorsBalance(xf: int, py: int, p: int, ry: int, qx: int, m: int)
    requires 0 <= xf < 0x10_0000 && 0 <= p <= 6 && 0 <= m < 0x800
    requires 0 <= py <= p * 0xF_FFFF && 0 <= ry && 0 <= qx && 6 * 0x20_0000 * (6 - p) <= 13 * (ry + qx)
    ensures 0 <= (0x4000_0000 - 0x400 * xf + p * 0x7FFF_FFFF - 0x800 * py - 0x20_0000 * m) / 0x1_0000_0000
                 + (0x400 * m + qx) / 0x20_0000 + (0x400 * m + py) / 0x20_0000 + (-0x400 * m + ry) / 0x20_0000
  {
    var a := (0x4000_0000 - 0x400 * xf + p * 0x7FFF_FFFF - 0x800 * py - 0x20_0000 * m) / 0x1_0000_0000;
    var b, c := (0x400 * m + qx) / 0x20_0000, (0x400 * m + py) / 0x20_0000;
    var d := (-0x400 * m + ry) / 0x20_0000;
    assert -1 <= a && 0 <= b && 0 <= c && -1 <= d;
    if a < 0 {
      assert p <= 2 * c + 1;
    }
    if a <= 0 && c == 0 {
      assert p <= 3;
    }
    if d < 0 {
      assert 6 * (6 - p) <= 13 * b + 12;
    }
    if d <= 0 {
      assert 6 * (6 - p) <= 13 * b + 25;
    }
  }

  function Constant(v: Q31): Table<Q31> { Table(2, 2, seq(4, _ => v)) }

  /** Four corners of -2^31 and both fractions 2^-20: the result is +2147483644. */
  lemma InterpQ31Wraps()
    ensures InterpQ31(Constant(-0x8000_0000), 1, 1) == 0x7FFF_FFFC
  {
    LowestCell(-0x8000_0000);
  }

  lemma LowestCell(v: Q31)
    requires v == -0x8000_0000
    ensures InterpQ31(Constant(v), 1, 1) == 0x7FFF_FFFC
  {
    assert CornersAt(Constant(v), 1, 1) == Corners(v, v, v, v);
  }

  /** A cell of -2^31 + 12 that still wraps. */
  lemma HigherCell(v: Q31, xf: Q31, yf: Q31)
    requires v == -0x7FFF_FFF4 && xf == 829406 && yf == 794109
    ensures ReadsInTable(Constant(v), xf, yf) && !OutsideTable(Constant(v), xf, yf)
    ensures CellSum(Constant(v), xf, yf) < -0x2000_0000
  {
    var x, y := xf * 0x800, yf * 0x800;
    assert CornersAt(Constant(v), xf, yf) == Corners(v, v, v, v);
    HigherTerms(v, x, y);
  }

  lemma HigherTerms(v: Q31, x: int, y: int)
    requires v == -0x7FFF_FFF4 && x == 1698623488 && y == 1626335232
    ensures Term(v, Rest(x), Rest(y)) == -27232194 && Term(v, Rest(y), x) == -103054911
    ensures Term(v, Rest(x), y) == -84982847 && Term(v, x, y) == -321600961
  {
    TermFromStages(v, Rest(x), Rest(y), -224430079, -27232194);
    TermFromStages(v, Rest(y), x, -260574207, -103054911);
    TermFromStages(v, Rest(x), y, -224430079, -84982847);
    TermFromStages(v, x, y, -849311740, -321600961);
  }

  lemma TermFromStages(v: Q31, w: int, w': int, out: int, t: int)
    requires 0 <= w < 0x8000_0000 && 0 <= w' < 0x8000_0000
    requires 0 <= v * w - 0x1_0000_0000 * out < 0x1_0000_0000
    requires 0 <= out * w' - 0x1_0000_0000 * t < 0x1_0000_0000
    ensures Term(v, w, w') == t
  {}
}
