/**
 Bilinear table interpolation `arm_bilinear_interp_q15` and `_q7`: four neighbouring table
 entries weighted by two fractions in 12.20 format.
 */
module BilinearInterp {
  import opened FixedPoint

  /** The instance structure: a table in row order. */
  datatype Table<T> = Table(numRows: nat, numCols: nat, data: seq<T>)

  datatype Corners = Corners(x1: int, x2: int, y1: int, y2: int) {
    function Least(): int { Min(Min(x1, x2), Min(y1, y2)) }

    function Greatest(): int { Max(Max(x1, x2), Max(y1, y2)) }

    ghost predicate Within(bound: int) {
      Abs(x1) <= bound && Abs(x2) <= bound && Abs(y1) <= bound && Abs(y2) <= bound
    }
  }

  /** The early return of the source: column index against rows, row index against columns. */
  predicate OutsideTable<T>(s: Table<T>, x: Q31, y: Q31) {
    var rI, cI := x / 0x10_0000, y / 0x10_0000;
    rI < 0 || rI > s.numRows - 1 || cI < 0 || cI > s.numCols - 1
  }

  /** The four reads of the source: two neighbours, and the two one row length further on. */
  predicate ReadsInTable<T>(s: Table<T>, x: Q31, y: Q31) {
    var rI, cI := x / 0x10_0000, y / 0x10_0000;
    0 <= rI + s.numCols * cI && rI + s.numCols * (cI + 1) + 1 < |s.data|
  }

  function CornersAt(s: Table<int>, x: Q31, y: Q31): Corners
    requires ReadsInTable(s, x, y)
  {
    var rI, cI := x / 0x10_0000, y / 0x10_0000;
    NextRow(s.numCols, cI);
    Corners(s.data[rI + s.numCols * cI], s.data[rI + s.numCols * cI + 1],
            s.data[rI + s.numCols * (cI + 1)], s.data[rI + s.numCols * (cI + 1) + 1])
  }

  lemma NextRow(numCols: nat, cI: int)
    ensures numCols * (cI + 1) == numCols * cI + numCols
  {}

  /** Table entry at column `x` and row `y` of the documented row-order layout. */
  function Entry(s: Table<int>, x: nat, y: nat): int
    requires x + y * s.numCols < |s.data|
  {
    s.data[x + y * s.numCols]
  }

  /** A point of a full table with a column to its right and a row below it. */
  predicate Interior<T>(s: Table<T>, x: Q31, y: Q31) {
    && |s.data| == s.numRows * s.numCols
    && 0 <= x / 0x10_0000 < s.numCols - 1
    && 0 <= y / 0x10_0000 < s.numRows - 1
  }

  /**
   The four reads are the entries (i, j), (i+1, j), (i, j+1) and (i+1, j+1) of the row-order
   layout that the documented formula names, wherever they lie in the table.
   */
  lemma CornersAreEntries(s: Table<int>, x: Q31, y: Q31)
    requires ReadsInTable(s, x, y) && 0 <= x && 0 <= y
    ensures var i, j := x / 0x10_0000, y / 0x10_0000;
            && 0 <= j * s.numCols <= (j + 1) * s.numCols && i + 1 + (j + 1) * s.numCols < |s.data|
            && CornersAt(s, x, y)
               == Corners(s.data[i + j * s.numCols], s.data[i + 1 + j * s.numCols],
                          s.data[i + (j + 1) * s.numCols], s.data[i + 1 + (j + 1) * s.numCols])
  {
    NextRow(s.numCols, y / 0x10_0000);
    MulNonNeg(s.numCols, y / 0x10_0000);
  }

  /** For an interior cell all four reads are in bounds. */
  lemma InteriorCell(s: Table<int>, x: Q31, y: Q31)
    requires Interior(s, x, y)
    ensures ReadsInTable(s, x, y)
    ensures var i, j := x / 0x10_0000, y / 0x10_0000;
            && i + 1 + (j + 1) * s.numCols < |s.data| && j * s.numCols < (j + 1) * s.numCols
            && CornersAt(s, x, y)
               == Corners(Entry(s, i, j), Entry(s, i + 1, j), Entry(s, i, j + 1), Entry(s, i + 1, j + 1))
  {
    var rI, cI := x / 0x10_0000, y / 0x10_0000;
    NextRow(s.numCols, cI);
    NextRow(s.numCols, cI + 1);
    MulMono(cI + 2, s.numRows, s.numCols);
    MulNonNeg(s.numCols, cI);
  }

  /** On the coordinates alone, for every table: outside means left of, above, or beyond the swapped sides. */
  lemma OutsideByCoordinates<T>(s: Table<T>, x: Q31, y: Q31)
    ensures OutsideTable(s, x, y)
            <==> x < 0 || y < 0 || x >= s.numRows * 0x10_0000 || y >= s.numCols * 0x10_0000
  {}

  ghost predicate RejectsNoInteriorCell<T>(s: Table<T>) {
    forall x: Q31, y: Q31 :: Interior(s, x, y) ==> !OutsideTable(s, x, y)
  }

  /**
   An interior cell is rejected exactly when its column index reaches the number of rows, or
   its row index the number of columns. So a full table has no rejected cell exactly when its
   sides differ by at most one, or are so long that 12 bits of index cannot reach the other.
   */
  lemma RejectionExactness<T>(s: Table<T>)
    requires |s.data| == s.numRows * s.numCols && 2 <= s.numRows && 2 <= s.numCols
    ensures forall x: Q31, y: Q31 :: Interior(s, x, y) ==>
              (OutsideTable(s, x, y) <==> x / 0x10_0000 >= s.numRows || y / 0x10_0000 >= s.numCols)
    ensures RejectsNoInteriorCell(s)
            <==> && (s.numCols <= s.numRows + 1 || 0x800 <= s.numRows)
                 && (s.numRows <= s.numCols + 1 || 0x800 <= s.numCols)
  {
    if s.numCols > s.numRows + 1 && s.numRows < 0x800 {
      var x: Q31 := s.numRows * 0x10_0000;
      assert Interior(s, x, 0) && OutsideTable(s, x, 0);
    }
    if s.numRows > s.numCols + 1 && s.numCols < 0x800 {
      var y: Q31 := s.numCols * 0x10_0000;
      assert Interior(s, 0, y) && OutsideTable(s, 0, y);
    }
  }

  // ---------------------------------------------------------------------------
  // The two functions
  // ---------------------------------------------------------------------------

  /** Every typed intermediate is a range obligation: no cast or sum of the source wraps. */
  function AccumulateQ15(c: Corners, xfract: int, yfract: int): (acc: Q63)
    requires c.Within(0x8000) && 0 <= xfract < 0x10_0000 && 0 <= yfract < 0x10_0000
    ensures Abs(acc) <= 4 * 0x8_0000_0000_0000
  {
    Partial(c.x1, 0xF_FFFF - xfract, 0xF_FFFF - yfract);
    Partial(c.x2, 0xF_FFFF - yfract, xfract);
    Partial(c.y1, 0xF_FFFF - xfract, yfract);
    Partial(c.y2, xfract, yfract);
    var out1: Q31 := (c.x1 * (0xF_FFFF - xfract)) / 0x10;
    var acc1: Q63 := out1 * (0xF_FFFF - yfract);
    var out2: Q31 := (c.x2 * (0xF_FFFF - yfract)) / 0x10;
    var acc2: Q63 := acc1 + out2 * xfract;
    var out3: Q31 := (c.y1 * (0xF_FFFF - xfract)) / 0x10;
    var acc3: Q63 := acc2 + out3 * yfract;
    var out4: Q31 := (c.y2 * xfract) / 0x10;
    acc3 + out4 * yfract
  }

  lemma Partial(v: int, w: int, w': int)
    requires Abs(v) <= 0x8000 && 0 <= w < 0x10_0000 && 0 <= w' < 0x10_0000
    ensures -0x8000_0000 <= (v * w) / 0x10 < 0x8000_0000
    ensures Abs((v * w) / 0x10 * w') <= 0x8_0000_0000_0000
  {}

  function InterpQ15(s: Table<Q15>, x: Q31, y: Q31): Q15
    requires OutsideTable(s, x, y) || ReadsInTable(s, x, y)
  {
    if OutsideTable(s, x, y) then 0
    else Wrap16(AccumulateQ15(CornersAt(s, x, y), x % 0x10_0000, y % 0x10_0000) / 0x10_0000_0000)
  }

  function AccumulateQ7(c: Corners, xfract: int, yfract: int): (acc: Q63)
    requires c.Within(0x80) && 0 <= xfract < 0x10_0000 && 0 <= yfract < 0x10_0000
  {
    SmallPartial(c.x1, 0xF_FFFF - xfract, 0xF_FFFF - yfract);
    SmallPartial(c.x2, 0xF_FFFF - yfract, xfract);
    SmallPartial(c.y1, 0xF_FFFF - xfract, yfract);
    SmallPartial(c.y2, yfract, xfract);
    var out1: Q31 := c.x1 * (0xF_FFFF - xfract);
    var acc1: Q63 := out1 * (0xF_FFFF - yfract);
    var out2: Q31 := c.x2 * (0xF_FFFF - yfract);
    var acc2: Q63 := acc1 + out2 * xfract;
    var out3: Q31 := c.y1 * (0xF_FFFF - xfract);
    var acc3: Q63 := acc2 + out3 * yfract;
    var out4: Q31 := c.y2 * yfract;
    acc3 + out4 * xfract
  }

  lemma SmallPartial(v: int, w: int, w': int)
    requires Abs(v) <= 0x80 && 0 <= w < 0x10_0000 && 0 <= w' < 0x10_0000
    ensures Abs(v * w) <= 0x800_0000
    ensures Abs(v * w * w') <= 0x8000_0000_0000
  {
    ScaleBound(v, 0x80, w, 0x10_0000);
    ScaleBound(v * w, 0x800_0000, w', 0x10_0000);
  }

  function InterpQ7(s: Table<Q7>, x: Q31, y: Q31): Q7
    requires OutsideTable(s, x, y) || ReadsInTable(s, x, y)
  {
    if OutsideTable(s, x, y) then 0
    else Wrap8(AccumulateQ7(CornersAt(s, x, y), x % 0x10_0000, y % 0x10_0000) / 0x100_0000_0000)
  }

  // ---------------------------------------------------------------------------
  // Two-step interpolation and the documented formula
  // ---------------------------------------------------------------------------

  /** One linear interpolation with the weights of the source, which add up to 2^20 - 1. */
  function Lerp(a: int, b: int, fract: int): int { a * (0xF_FFFF - fract) + b * fract }

  /** First in the x direction on both rows, then in the y direction between them. */
  function TwoStep(c: Corners, xfract: int, yfract: int): int {
    Lerp(Lerp(c.x1, c.x2, xfract), Lerp(c.y1, c.y2, xfract), yfract)
  }

  /** The documented formula, times 2^40. */
  function Ideal(c: Corners, xfract: int, yfract: int): int {
    (c.x1 * (0x10_0000 - xfract) + c.x2 * xfract) * (0x10_0000 - yfract)
    + (c.y1 * (0x10_0000 - xfract) + c.y2 * xfract) * yfract
  }

  /** It is the one function affine in each fraction that takes the four corner values at its ends. */
  lemma IdealIsBilinear(c: Corners, xf: int, yf: int)
    ensures Ideal(c, 0, 0) == 0x100_0000_0000 * c.x1 && Ideal(c, 0x10_0000, 0) == 0x100_0000_0000 * c.x2
    ensures Ideal(c, 0, 0x10_0000) == 0x100_0000_0000 * c.y1 && Ideal(c, 0x10_0000, 0x10_0000) == 0x100_0000_0000 * c.y2
    ensures 0x10_0000 * Ideal(c, xf, yf) == (0x10_0000 - xf) * Ideal(c, 0, yf) + xf * Ideal(c, 0x10_0000, yf)
    ensures 0x10_0000 * Ideal(c, xf, yf) == (0x10_0000 - yf) * Ideal(c, xf, 0) + yf * Ideal(c, xf, 0x10_0000)
  {}

  /** The Q7 accumulator is exactly the two-step interpolation of the documentation. */
  lemma Q7IsTwoStep(c: Corners, xf: int, yf: int)
    requires c.Within(0x80) && 0 <= xf < 0x10_0000 && 0 <= yf < 0x10_0000
    ensures AccumulateQ7(c, xf, yf) == TwoStep(c, xf, yf)
  {
    TwoStepTerms(c, xf, yf);
  }

  lemma TwoStepTerms(c: Corners, xf: int, yf: int)
    ensures TwoStep(c, xf, yf)
            == c.x1 * (0xF_FFFF - xf) * (0xF_FFFF - yf) + c.x2 * (0xF_FFFF - yf) * xf
             + c.y1 * (0xF_FFFF - xf) * yf + c.y2 * yf * xf
  {}

  lemma SumTimes(a: int, b: int, w: int)
    ensures (a + b) * w == a * w + b * w
  {}

  lemma Swap(a: int, b: int, w: int)
    ensures a * b * w == a * w * b
  {}

  /** The Q15 accumulator is a sixteenth of it, less what four shifts by 4 truncate. */
  lemma Q15IsTwoStepTruncated(c: Corners, xf: int, yf: int)
    requires c.Within(0x8000) && 0 <= xf < 0x10_0000 && 0 <= yf < 0x10_0000
    ensures 0 <= TwoStep(c, xf, yf) - 0x10 * AccumulateQ15(c, xf, yf) <= 15 * (0xF_FFFF + xf + yf)
  {
    TwoStepTerms(c, xf, yf);
    Swap(c.y2, yf, xf);
    TruncatedTerm(c.x1 * (0xF_FFFF - xf), 0xF_FFFF - yf);
    TruncatedTerm(c.x2 * (0xF_FFFF - yf), xf);
    TruncatedTerm(c.y1 * (0xF_FFFF - xf), yf);
    TruncatedTerm(c.y2 * xf, yf);
  }

  lemma TruncatedTerm(p: int, w: int)
    requires 0 <= w
    ensures 0 <= p * w - 0x10 * (p / 0x10 * w) <= 15 * w
  {
    var r := p % 0x10;
    assert p * w == 0x10 * (p / 0x10 * w) + r * w by {
      SumTimes(0x10 * (p / 0x10), r, w);
      Swap(0x10, p / 0x10, w);
      assert 0x10 * (p / 0x10) * w == 0x10 * (p / 0x10 * w);
    }
    MulNonNeg(r, w);
    MulMono(r, 15, w);
  }

  // ---------------------------------------------------------------------------
  // Range and error
  // ---------------------------------------------------------------------------

  lemma LerpRange(lo: int, a: int, b: int, hi: int, fract: int)
    requires lo <= a <= hi && lo <= b <= hi && 0 <= fract < 0x10_0000
    ensures lo * 0xF_FFFF <= Lerp(a, b, fract) <= hi * 0xF_FFFF
  {
    var w := 0xF_FFFF - fract;
    MulMono(lo, a, w);
    MulMono(a, hi, w);
    MulMono(lo, b, fract);
    MulMono(b, hi, fract);
    WeightSum(lo, fract);
    WeightSum(hi, fract);
  }

  lemma WeightSum(v: int, fract: int)
    ensures v * (0xF_FFFF - fract) + v * fract == v * 0xF_FFFF
  {}

  lemma TwoStepRange(c: Corners, xf: int, yf: int)
    requires 0 <= xf < 0x10_0000 && 0 <= yf < 0x10_0000
    ensures c.Least() * 0xFF_FFE0_0001 <= TwoStep(c, xf, yf) <= c.Greatest() * 0xFF_FFE0_0001
  {
    var lo, hi := c.Least(), c.Greatest();
    LerpRange(lo, c.x1, c.x2, hi, xf);
    LerpRange(lo, c.y1, c.y2, hi, xf);
    LerpRange(lo * 0xF_FFFF, Lerp(c.x1, c.x2, xf), Lerp(c.y1, c.y2, xf), hi * 0xF_FFFF, yf);
  }

  /** The shifted accumulator before its narrowing cast, and the cast, for either width. */
  lemma ShiftedRange(lo: int, hi: int, acc40: int, bound: int)
    requires -bound <= lo <= hi < bound && bound <= 0x8000
    requires lo * 0xFF_FFE0_0001 - 0x400_0000 <= acc40 <= hi * 0xFF_FFE0_0001
    ensures lo - 1 <= acc40 / 0x100_0000_0000 <= hi
    ensures lo == -0x8000 ==> lo <= acc40 / 0x100_0000_0000
  {}

  /** An accepted cell stays in [min - 1, max] of its four corners; a rejected one gives 0, which may lie outside. */
  lemma InterpQ15Range(s: Table<Q15>, x: Q31, y: Q31)
    requires ReadsInTable(s, x, y)
    ensures var c, r := CornersAt(s, x, y), InterpQ15(s, x, y);
            && (c.Least() - 1 <= r <= c.Greatest()
                <==> !OutsideTable(s, x, y) || c.Least() - 1 <= 0 <= c.Greatest())
            && (OutsideTable(s, x, y) ==> r == 0)
  {
    if !OutsideTable(s, x, y) {
      var c := CornersAt(s, x, y);
      var xf, yf := x % 0x10_0000, y % 0x10_0000;
      Q15IsTwoStepTruncated(c, xf, yf);
      TwoStepRange(c, xf, yf);
      var acc := AccumulateQ15(c, xf, yf);
      ShiftBySixteen(acc);
      ShiftedRange(c.Least(), c.Greatest(), 0x10 * acc, 0x8000);
      Fits16(acc / 0x10_0000_0000);
    }
  }

  lemma ShiftBySixteen(acc: int)
    ensures acc / 0x10_0000_0000 == (0x10 * acc) / 0x100_0000_0000
  {}

  lemma Fits16(v: int)
    requires -0x8000 <= v < 0x8000
    ensures Wrap16(v) == v
  {}

  /** The same for Q7. */
  lemma InterpQ7Range(s: Table<Q7>, x: Q31, y: Q31)
    requires ReadsInTable(s, x, y)
    ensures var c, r := CornersAt(s, x, y), InterpQ7(s, x, y);
            && (c.Least() - 1 <= r <= c.Greatest()
                <==> !OutsideTable(s, x, y) || c.Least() - 1 <= 0 <= c.Greatest())
            && (OutsideTable(s, x, y) ==> r == 0)
  {
    if !OutsideTable(s, x, y) {
      var c := CornersAt(s, x, y);
      var xf, yf := x % 0x10_0000, y % 0x10_0000;
      Q7IsTwoStep(c, xf, yf);
      TwoStepRange(c, xf, yf);
      ShiftedRange7(c.Least(), c.Greatest(), TwoStep(c, xf, yf));
    }
  }

  lemma ShiftedRange7(lo: int, hi: int, acc: int)
    requires -0x80 <= lo <= hi < 0x80
    requires lo * 0xFF_FFE0_0001 <= acc <= hi * 0xFF_FFE0_0001
    ensures lo - 1 <= Wrap8(acc / 0x100_0000_0000) <= hi
    ensures Wrap8(acc / 0x100_0000_0000) == acc / 0x100_0000_0000
  {}

  /** The weights 2^20 - 1 cost at most the largest entry times 2^21 against the documented formula. */
  lemma TwoStepAgainstIdeal(c: Corners, xf: int, yf: int, bound: int)
    requires c.Within(bound) && 0 <= xf < 0x10_0000 && 0 <= yf < 0x10_0000
    ensures Abs(Ideal(c, xf, yf) - TwoStep(c, xf, yf)) <= bound * 0x20_0000
  {
    var l0, l1 := Lerp(c.x1, c.x2, xf), Lerp(c.y1, c.y2, xf);
    assert c.x1 * (0x10_0000 - xf) + c.x2 * xf == l0 + c.x1;
    assert c.y1 * (0x10_0000 - xf) + c.y2 * xf == l1 + c.y1;
    OneMoreWeight(l0, c.x1, l1, c.y1, yf);
    LerpRange(-bound, c.x1, c.x2, bound, xf);
    LerpRange(-bound, c.x1, c.y1, bound, yf);
  }

  lemma OneMoreWeight(l0: int, a: int, l1: int, b: int, yf: int)
    ensures (l0 + a) * (0x10_0000 - yf) + (l1 + b) * yf == Lerp(l0, l1, yf) + l0 + (Lerp(a, b, yf) + a)
  {}

  /** Against the documented formula, Q15 truncates downwards by one unit, give or take 1/8. */
  predicate AccurateQ15(ideal: int, r: int) { -0x20_0000_0000 <= ideal - 0x100_0000_0000 * r <= 0x120_0000_0000 }

  predicate AccurateQ7(ideal: int, r: int) { -0x1000_0000 <= ideal - 0x100_0000_0000 * r < 0x100_1000_0000 }

  /** An accepted cell is accurate; a rejected one only if the true value is as close to 0. */
  lemma InterpQ15Error(s: Table<Q15>, x: Q31, y: Q31)
    requires ReadsInTable(s, x, y)
    ensures var ideal := Ideal(CornersAt(s, x, y), x % 0x10_0000, y % 0x10_0000);
            AccurateQ15(ideal, InterpQ15(s, x, y)) <==> !OutsideTable(s, x, y) || AccurateQ15(ideal, 0)
  {
    if !OutsideTable(s, x, y) {
      var c := CornersAt(s, x, y);
      var xf, yf := x % 0x10_0000, y % 0x10_0000;
      Q15IsTwoStepTruncated(c, xf, yf);
      TwoStepRange(c, xf, yf);
      TwoStepAgainstIdeal(c, xf, yf, 0x8000);
      var acc := AccumulateQ15(c, xf, yf);
      ShiftBySixteen(acc);
      ShiftedRange(c.Least(), c.Greatest(), 0x10 * acc, 0x8000);
      Fits16(acc / 0x10_0000_0000);
    }
  }

  lemma InterpQ7Error(s: Table<Q7>, x: Q31, y: Q31)
    requires ReadsInTable(s, x, y)
    ensures var ideal := Ideal(CornersAt(s, x, y), x % 0x10_0000, y % 0x10_0000);
            AccurateQ7(ideal, InterpQ7(s, x, y)) <==> !OutsideTable(s, x, y) || AccurateQ7(ideal, 0)
  {
    if !OutsideTable(s, x, y) {
      var c := CornersAt(s, x, y);
      var xf, yf := x % 0x10_0000, y % 0x10_0000;
      Q7IsTwoStep(c, xf, yf);
      TwoStepRange(c, xf, yf);
      TwoStepAgainstIdeal(c, xf, yf, 0x80);
      ShiftedRange7(c.Least(), c.Greatest(), TwoStep(c, xf, yf));
    }
  }

  // ---------------------------------------------------------------------------
  // Every table and every pair of coordinates
  // ---------------------------------------------------------------------------

  /** Coordinates outside give 0; all others are in range and accurate wherever the reads are in the table. */
  lemma ByCoordinatesQ15(s: Table<Q15>, x: Q31, y: Q31)
    requires x < 0 || y < 0 || x >= s.numRows * 0x10_0000 || y >= s.numCols * 0x10_0000 || ReadsInTable(s, x, y)
    ensures OutsideTable(s, x, y) || ReadsInTable(s, x, y)
    ensures if x < 0 || y < 0 || x >= s.numRows * 0x10_0000 || y >= s.numCols * 0x10_0000
            then InterpQ15(s, x, y) == 0
            else
              var c, r := CornersAt(s, x, y), InterpQ15(s, x, y);
              && c.Least() - 1 <= r <= c.Greatest()
              && AccurateQ15(Ideal(c, x % 0x10_0000, y % 0x10_0000), r)
  {
    OutsideByCoordinates(s, x, y);
    if !OutsideTable(s, x, y) {
      InterpQ15Range(s, x, y);
      InterpQ15Error(s, x, y);
    }
  }

  lemma ByCoordinatesQ7(s: Table<Q7>, x: Q31, y: Q31)
    requires x < 0 || y < 0 || x >= s.numRows * 0x10_0000 || y >= s.numCols * 0x10_0000 || ReadsInTable(s, x, y)
    ensures OutsideTable(s, x, y) || ReadsInTable(s, x, y)
    ensures if x < 0 || y < 0 || x >= s.numRows * 0x10_0000 || y >= s.numCols * 0x10_0000
            then InterpQ7(s, x, y) == 0
            else
              var c, r := CornersAt(s, x, y), InterpQ7(s, x, y);
              && c.Least() - 1 <= r <= c.Greatest()
              && AccurateQ7(Ideal(c, x % 0x10_0000, y % 0x10_0000), r)
  {
    OutsideByCoordinates(s, x, y);
    if !OutsideTable(s, x, y) {
      InterpQ7Range(s, x, y);
      InterpQ7Error(s, x, y);
    }
  }

  // ---------------------------------------------------------------------------
  // Interior cells of full tables
  // ---------------------------------------------------------------------------

  /** Range and accuracy of an interior cell, with the two index tests that decide them. */
  lemma InteriorQ15(s: Table<Q15>, x: Q31, y: Q31)
    requires Interior(s, x, y)
    ensures ReadsInTable(s, x, y)
    ensures var c, r := CornersAt(s, x, y), InterpQ15(s, x, y);
            var ideal := Ideal(c, x % 0x10_0000, y % 0x10_0000);
            if x / 0x10_0000 < s.numRows && y / 0x10_0000 < s.numCols
            then c.Least() - 1 <= r <= c.Greatest() && AccurateQ15(ideal, r)
            else r == 0
  {
    InteriorCell(s, x, y);
    InterpQ15Range(s, x, y);
    InterpQ15Error(s, x, y);
  }

  lemma InteriorQ7(s: Table<Q7>, x: Q31, y: Q31)
    requires Interior(s, x, y)
    ensures ReadsInTable(s, x, y)
    ensures var c, r := CornersAt(s, x, y), InterpQ7(s, x, y);
            var ideal := Ideal(c, x % 0x10_0000, y % 0x10_0000);
            if x / 0x10_0000 < s.numRows && y / 0x10_0000 < s.numCols
            then c.Least() - 1 <= r <= c.Greatest() && AccurateQ7(ideal, r)
            else r == 0
  {
    InteriorCell(s, x, y);
    InterpQ7Range(s, x, y);
    InterpQ7Error(s, x, y);
  }

  /** Square tables are interpolated in all their interior cells. */
  lemma SquareTables(s: Table<Q15>, t: Table<Q7>, x: Q31, y: Q31)
    requires s.numRows == s.numCols && t.numRows == t.numCols
    requires Interior(s, x, y) && Interior(t, x, y)
    ensures ReadsInTable(s, x, y) && ReadsInTable(t, x, y)
    ensures var c, d := CornersAt(s, x, y), CornersAt(t, x, y);
            var xf, yf := x % 0x10_0000, y % 0x10_0000;
            && c.Least() - 1 <= InterpQ15(s, x, y) <= c.Greatest()
            && AccurateQ15(Ideal(c, xf, yf), InterpQ15(s, x, y))
            && d.Least() - 1 <= InterpQ7(t, x, y) <= d.Greatest()
            && AccurateQ7(Ideal(d, xf, yf), InterpQ7(t, x, y))
  {
    InteriorQ15(s, x, y);
    InteriorQ7(t, x, y);
  }

  /** Column 5 of a table with two rows and ten columns full of 100s is interpolated as 0. */
  lemma WideTableRejected()
    ensures var hundreds: Table<Q15> := Table(2, 10, seq(20, _ => 100));
            && Interior(hundreds, 0x50_0000, 0)
            && InterpQ15(hundreds, 0x50_0000, 0) == 0
            && ReadsInTable(hundreds, 0x50_0000, 0)
            && CornersAt(hundreds, 0x50_0000, 0) == Corners(100, 100, 100, 100)
  {
    var hundreds: Table<Q15> := Table(2, 10, seq(20, _ => 100));
    assert Interior(hundreds, 0x50_0000, 0);
    InteriorCell(hundreds, 0x50_0000, 0);
  }
}
