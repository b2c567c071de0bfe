/**
 The MPU configuration functions. Registers have the write semantics of section B3.5 of the
 ARMv7-M Architecture Reference Manual: a write to RBAR with VALID set selects the region it
 names, a write to RASR goes to the selected region, and the alias registers RBAR_A1..RASR_A3
 behave as RBAR and RASR themselves.
 */
module Mpu {
  import opened FixedPoint

  datatype Region = Region(base: int, rasr: U32)

  /** The selected region number and the region file; unwritten regions hold their reset value. */
  datatype State = State(rnr: nat, regions: map<nat, Region>) {
    function Get(r: nat): Region {
      if r in regions then regions[r] else Region(0, 0)
    }

    function Put(r: nat, region: Region): State {
      this.(regions := regions[r := region])
    }
  }

  /** Word offsets in `MPU_Type`. */
  const RNR := 2
  const RBAR := 3
  const RASR := 4
  const RASR_A3 := 10

  /** `MPU_TYPE_RALIASES`. A table row is two words: an RBAR value and a RASR value. */
  const RALIASES := 4

  predicate RbarValid(rbar: U32) { rbar / 0x10 % 2 == 1 }

  function RbarRegion(rbar: U32): nat { rbar % 0x10 }

  function RbarBase(rbar: U32): int { rbar - rbar % 0x20 }

  function WriteRbar(s: State, rbar: U32): State {
    var selected := if RbarValid(rbar) then s.(rnr := RbarRegion(rbar)) else s;
    selected.Put(selected.rnr, selected.Get(selected.rnr).(base := RbarBase(rbar)))
  }

  function WriteRasr(s: State, rasr: U32): State {
    s.Put(s.rnr, s.Get(s.rnr).(rasr := rasr))
  }

  /** A store to the register at word offset `w`. */
  function StoreWord(s: State, w: nat, value: U32): State
    requires RNR <= w <= RASR_A3
  {
    if w == RNR then s.(rnr := value % 0x100)
    else if w % 2 == 1 then WriteRbar(s, value)
    else WriteRasr(s, value)
  }

  /** The region that a write of RBAR leaves selected. */
  function Target(selected: nat, rbar: U32): nat { if RbarValid(rbar) then RbarRegion(rbar) else selected }

  /** `ARM_MPU_SetRegion`: both stores go to the primary registers. */
  function SetRegionSpec(s: State, rbar: U32, rasr: U32): State {
    StoreWord(StoreWord(s, RBAR, rbar), RASR, rasr)
  }

  /** `ARM_MPU_SetRegion` on each of the first n rows of a table, in order. */
  function SetRegions(s: State, table: seq<U32>, n: nat): State
    requires 2 * n <= |table|
  {
    if n == 0 then s
    else SetRegionSpec(SetRegions(s, table, n - 1), table[2 * n - 2], table[2 * n - 1])
  }

  /** Words i of `words` stored to register dst + i, in order. */
  function CopyWords(s: State, dst: nat, words: seq<U32>): State
    requires RNR <= dst && dst + |words| <= RASR_A3 + 1
    decreases |words|
  {
    if words == [] then s
    else
      var n := |words| - 1;
      StoreWord(CopyWords(s, dst, words[..n]), dst + n, words[n])
  }

  class MpuRegisters {
    var state: State

    constructor ()
      ensures state == State(0, map[])
    {
      state := State(0, map[]);
    }

    method Store(w: nat, value: U32)
      requires RNR <= w <= RASR_A3
      modifies this
      ensures state == StoreWord(old(state), w, value)
    {
      state := StoreWord(state, w, value);
    }

    /** Disables the region, keeping its base, and changes no other. */
    method ClrRegion(rnr: U32)
      modifies this
      ensures state == WriteRasr(old(state).(rnr := rnr % 0x100), 0)
      ensures state.rnr == rnr % 0x100
      ensures forall r: nat :: state.Get(r) ==
                if r == rnr % 0x100 then Region(old(state).Get(r).base, 0) else old(state).Get(r)
    {
      Store(RNR, rnr);
      Store(RASR, 0);
    }

    /**
     Bit 4 of the value is VALID: set, the region in bits 0..3 is configured; clear, the one
     selected before. Its base is the value without its five low bits. No other region changes.
     */
    method SetRegion(rbar: U32, rasr: U32)
      modifies this
      ensures state == SetRegionSpec(old(state), rbar, rasr)
      ensures state.rnr == if rbar / 0x10 % 2 == 1 then rbar % 0x10 else old(state).rnr
      ensures forall r: nat :: state.Get(r) ==
                if r == state.rnr then Region(rbar - rbar % 0x20, rasr) else old(state).Get(r)
    {
      Store(RBAR, rbar);
      Store(RASR, rasr);
    }

    /** The same with the given number in place of the region selected before. */
    method SetRegionEx(rnr: U32, rbar: U32, rasr: U32)
      modifies this
      ensures state == SetRegionSpec(old(state).(rnr := rnr % 0x100), rbar, rasr)
      ensures state.rnr == if rbar / 0x10 % 2 == 1 then rbar % 0x10 else rnr % 0x100
      ensures forall r: nat :: state.Get(r) ==
                if r == state.rnr then Region(rbar - rbar % 0x20, rasr) else old(state).Get(r)
    {
      Store(RNR, rnr);
      Store(RBAR, rbar);
      Store(RASR, rasr);
    }

    /** Ordered stores of `len` words; each must land on a register of the MPU block. */
    method OrderedCpy(dst: nat, src: array<U32>, srcStart: nat, len: nat)
      requires RBAR <= dst && dst + len <= RASR_A3 + 1
      requires srcStart + len <= src.Length
      modifies this
      ensures state == CopyWords(old(state), dst, src[srcStart..srcStart + len])
    {
      ghost var words := src[srcStart..srcStart + len];
      for i := 0 to len
        invariant state == CopyWords(old(state), dst, words[..i])
      {
        CopyOneMore(old(state), dst, words, i);
        assert words[i] == src[srcStart + i];
        Store(dst + i, src[srcStart + i]);
      }
      assert words[..len] == words;
    }

    /** One pass of the copy: `n` rows from row `row` on, after the rows before it. */
    method CopyRows(table: array<U32>, row: nat, n: nat, ghost s0: State)
      requires n <= RALIASES && 2 * (row + n) <= table.Length
      requires state == SetRegions(s0, table[..], row)
      modifies this
      ensures state == SetRegions(s0, table[..], row + n)
    {
      OrderedCpy(RBAR, table, 2 * row, 2 * n);
      ChunkExtendsRows(s0, table[..], row, n, table[2 * row..2 * row + 2 * n]);
    }

    /**
     Whatever the length of the table, loading it in chunks of four rows through the alias
     registers leaves the state that setting each row in order would leave.
     */
    method Load(table: array<U32>, cnt: nat)
      requires 2 * cnt <= table.Length
      modifies this
      ensures state == SetRegions(old(state), table[..], cnt)
    {
      var row: nat := 0;
      var left: nat := cnt;
      while left > RALIASES
        invariant row + left == cnt
        invariant state == SetRegions(old(state), table[..], row)
      {
        CopyRows(table, row, RALIASES, old(state));
        row := row + RALIASES;
        left := left - RALIASES;
      }
      CopyRows(table, row, left, old(state));
    }
  }

  // ---------------------------------------------------------------------------
  // Chunks through the aliases are rows through the primary registers
  // ---------------------------------------------------------------------------

  /** Rows `row .. row + n` of the table, applied to `s`. */
  function RowsFrom(s: State, table: seq<U32>, row: nat, n: nat): State
    requires 2 * (row + n) <= |table|
  {
    if n == 0 then s
    else SetRegionSpec(RowsFrom(s, table, row, n - 1), table[2 * (row + n) - 2], table[2 * (row + n) - 1])
  }

  lemma {:induction false} ChunkIsRows(s: State, table: seq<U32>, row: nat, n: nat, words: seq<U32>)
    requires n <= RALIASES && 2 * (row + n) <= |table|
    requires words == table[2 * row..2 * row + 2 * n]
    ensures CopyWords(s, RBAR, words) == RowsFrom(s, table, row, n)
    decreases n
  {
    if n > 0 {
      var m := 2 * n - 2;
      LastRowOfChunk(table, row, n);
      ChunkIsRows(s, table, row, n - 1, words[..m]);
      PairIsRow(s, words, m);
    }
  }

  lemma LastRowOfChunk(table: seq<U32>, row: nat, n: nat)
    requires 0 < n && 2 * (row + n) <= |table|
    ensures var words := table[2 * row..2 * row + 2 * n];
            && words[..2 * n - 2] == table[2 * row..2 * row + 2 * (n - 1)]
            && words[2 * n - 2] == table[2 * (row + n) - 2]
            && words[2 * n - 1] == table[2 * (row + n) - 1]
  {}

  lemma PairIsRow(s: State, words: seq<U32>, m: nat)
    requires m % 2 == 0 && |words| == m + 2 && RASR + m <= RASR_A3
    ensures CopyWords(s, RBAR, words) == SetRegionSpec(CopyWords(s, RBAR, words[..m]), words[m], words[m + 1])
  {
    var before := CopyWords(s, RBAR, words[..m]);
    var half := StoreWord(before, RBAR + m, words[m]);
    CopyOneMore(s, RBAR, words, m);
    assert half == CopyWords(s, RBAR, words[..m + 1]);
    assert CopyWords(s, RBAR, words) == StoreWord(half, RASR + m, words[m + 1]);
    AliasesAct(before, m, words[m]);
    AliasesAct(half, m, words[m + 1]);
  }

  lemma CopyOneMore(s: State, dst: nat, words: seq<U32>, i: nat)
    requires RNR <= dst && dst + |words| <= RASR_A3 + 1 && i < |words|
    ensures CopyWords(s, dst, words[..i + 1]) == StoreWord(CopyWords(s, dst, words[..i]), dst + i, words[i])
  {
    assert words[..i + 1][..i] == words[..i];
  }

  lemma ChunkExtendsRows(s: State, table: seq<U32>, row: nat, n: nat, words: seq<U32>)
    requires n <= RALIASES && 2 * (row + n) <= |table|
    requires words == table[2 * row..2 * row + 2 * n]
    ensures CopyWords(SetRegions(s, table, row), RBAR, words) == SetRegions(s, table, row + n)
  {
    ChunkIsRows(SetRegions(s, table, row), table, row, n, words);
    SetRegionsSplit(s, table, row, n);
  }

  /** An alias register behaves as the primary register of the same parity. */
  lemma AliasesAct(s: State, k: nat, value: U32)
    requires k % 2 == 0 && RASR + k <= RASR_A3
    ensures StoreWord(s, RBAR + k, value) == StoreWord(s, RBAR, value)
    ensures StoreWord(s, RASR + k, value) == StoreWord(s, RASR, value)
  {}

  lemma {:induction false} SetRegionsSplit(s: State, table: seq<U32>, row: nat, n: nat)
    requires 2 * (row + n) <= |table|
    ensures RowsFrom(SetRegions(s, table, row), table, row, n) == SetRegions(s, table, row + n)
    decreases n
  {
    if n > 0 {
      SetRegionsSplit(s, table, row, n - 1);
    }
  }

  // ---------------------------------------------------------------------------
  // What a loaded table means
  // ---------------------------------------------------------------------------

  /** Every row of the table names its region, as `ARM_MPU_RBAR` makes it. */
  ghost predicate AllValid(table: seq<U32>, n: nat)
    requires 2 * n <= |table|
  {
    forall k: nat :: k < n ==> RbarValid(table[2 * k])
  }

  /** Index of the last of the first n rows that names region r, or -1. */
  function LastRowFor(table: seq<U32>, n: nat, r: nat): (k: int)
    requires 2 * n <= |table|
    ensures -1 <= k < n
    ensures 0 <= k ==> RbarRegion(table[2 * k]) == r
    ensures forall j: nat :: k < j < n ==> RbarRegion(table[2 * j]) != r
  {
    if n == 0 then -1
    else if RbarRegion(table[2 * n - 2]) == r then n - 1
    else LastRowFor(table, n - 1, r)
  }

  /**
   With VALID set in every row, each region ends up with the last row that names it, and a
   region that no row names keeps what it held.
   */
  lemma {:induction false} LastRowWins(s: State, table: seq<U32>, n: nat, r: nat)
    requires 2 * n <= |table| && AllValid(table, n)
    ensures var k := LastRowFor(table, n, r);
            SetRegions(s, table, n).Get(r)
            == if k < 0 then s.Get(r) else Region(RbarBase(table[2 * k]), table[2 * k + 1])
  {
    if n > 0 {
      LastRowWins(s, table, n - 1, r);
      assert RbarValid(table[2 * (n - 1)]);
      RowEffect(SetRegions(s, table, n - 1), table[2 * n - 2], table[2 * n - 1], r);
    }
  }

  lemma RowEffect(s: State, rbar: U32, rasr: U32, r: nat)
    ensures SetRegionSpec(s, rbar, rasr).Get(r)
            == if r == Target(s.rnr, rbar) then Region(RbarBase(rbar), rasr) else s.Get(r)
  {}

  /** Loading the same table again changes no region. */
  lemma ReloadChangesNothing(s: State, table: seq<U32>, n: nat, r: nat)
    requires 2 * n <= |table| && AllValid(table, n)
    ensures SetRegions(SetRegions(s, table, n), table, n).Get(r) == SetRegions(s, table, n).Get(r)
  {
    LastRowWins(s, table, n, r);
    LastRowWins(SetRegions(s, table, n), table, n, r);
  }

  /** `ARM_MPU_RBAR(Region, BaseAddress)`: the three masked fields do not overlap. */
  function RbarMacro(region: U32, baseAddress: U32): (v: U32)
    ensures RbarValid(v)
    ensures RbarRegion(v) == region % 0x10
    ensures RbarBase(v) == baseAddress - baseAddress % 0x20
  {
    baseAddress - baseAddress % 0x20 + region % 0x10 + 0x10
  }

  /**
   The three fields of an RBAR value, put together without naming them: with VALID clear the
   selected region is configured whatever the low bits say, with VALID set the one they say.
   */
  lemma ValidSelects(s: State, base: U32, region: nat, rasr: U32, r: nat)
    ensures var aligned := base - base % 0x20;
            SetRegionSpec(s, aligned + region % 0x10, rasr).Get(r)
            == if r == s.rnr then Region(aligned, rasr) else s.Get(r)
    ensures var aligned := base - base % 0x20;
            SetRegionSpec(s, aligned + region % 0x10 + 0x10, rasr).Get(r)
            == if r == region % 0x10 then Region(aligned, rasr) else s.Get(r)
  {
    var aligned: int := base - base % 0x20;
    RbarFields(aligned, region % 0x10, 0);
    RbarFields(aligned, region % 0x10, 1);
    RowEffect(s, aligned + region % 0x10, rasr, r);
    RowEffect(s, aligned + region % 0x10 + 0x10, rasr, r);
  }

  lemma RbarFields(aligned: int, region: int, valid: int)
    requires aligned % 0x20 == 0 && 0 <= region < 0x10 && 0 <= valid <= 1
    ensures var v := aligned + region + 0x10 * valid;
            v % 0x20 == region + 0x10 * valid && v % 0x10 == region && v / 0x10 % 2 == valid
  {
    var v, k := aligned + region + 0x10 * valid, aligned / 0x20;
    DivUnique(v, 0x20, k, region + 0x10 * valid);
    DivUnique(v, 0x10, 2 * k + valid, region);
    DivUnique(2 * k + valid, 2, k, valid);
  }

  /**
   `ARM_MPU_SetRegionEx` configures the region it is given exactly when the RBAR value either
   leaves VALID clear or names that same region; otherwise the given region keeps its content.
   */
  lemma SetRegionExExactness(s: State, rnr: nat, rbar: U32, rasr: U32)
    requires rnr < 0x100 && s.Get(rnr) != Region(RbarBase(rbar), rasr)
    ensures var after := SetRegionSpec(s.(rnr := rnr), rbar, rasr);
            && (after.Get(rnr) == Region(RbarBase(rbar), rasr) <==> !RbarValid(rbar) || RbarRegion(rbar) == rnr)
            && (after.Get(rnr) == s.Get(rnr) <==> RbarValid(rbar) && RbarRegion(rbar) != rnr)
  {}

  /** Clearing disables one region and keeps its base and every other region. */
  lemma ClearedRegion(s: State, rnr: nat, r: nat)
    ensures var after := WriteRasr(s.(rnr := rnr), 0);
            after.Get(r) == if r == rnr then Region(s.Get(r).base, 0) else s.Get(r)
  {}
}
