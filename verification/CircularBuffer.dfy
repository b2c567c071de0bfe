/**
 The circular delay lines `arm_circularWrite_*` and `arm_circularRead_*`, in one version for
 every sample type: loops that move a block between a flat buffer and a ring of length L,
 updating the ring offset in place.
 */
module CircularBuffer {
  import FixedPoint

  // ---------------------------------------------------------------------------
  // Positions
  // ---------------------------------------------------------------------------

  /** One circular step: a single subtraction of L, as the loops do it. */
  function Advance(offset: int, inc: int, L: int): int {
    if offset + inc >= L then offset + inc - L else offset + inc
  }

  /** The ring index used for sample `k` of a block. */
  function Position(offset: int, inc: int, L: int, k: nat): (p: int)
    requires 0 <= offset < L && 0 <= inc <= L
    ensures 0 <= p < L
  {
    if k == 0 then offset else Advance(Position(offset, inc, L, k - 1), inc, L)
  }

  /** The destination index used for sample `k`: a step, then a wrap only on hitting the end exactly. */
  function DstPosition(start: int, inc: int, base: int, length: int, k: nat): int {
    if k == 0 then start
    else
      var next := DstPosition(start, inc, base, length, k - 1) + inc;
      if next == base + length then base else next
  }

  function SrcPosition(start: int, inc: int, k: nat): int { start + k * inc }

  ghost predicate GatherFits(length: nat, start: int, inc: int, n: nat) {
    forall k: nat :: k < n ==> 0 <= SrcPosition(start, inc, k) < length
  }

  /** The strided samples that a block takes from the source. */
  ghost function Gather<T>(src: seq<T>, start: int, inc: int, n: nat): (items: seq<T>)
    requires GatherFits(|src|, start, inc, n)
    ensures |items| == n
    ensures forall k: nat :: k < n ==> items[k] == src[SrcPosition(start, inc, k)]
  {
    seq(n, k requires 0 <= k < n => src[SrcPosition(start, inc, k)])
  }

  lemma SrcStep(start: int, inc: int, k: nat)
    ensures SrcPosition(start, inc, k + 1) == SrcPosition(start, inc, k) + inc
    ensures SrcPosition(start, inc, 0) == start
  {}

  // ---------------------------------------------------------------------------
  // What the loops compute
  // ---------------------------------------------------------------------------

  function Written<T>(buf: seq<T>, offset: int, inc: int, L: int, items: seq<T>): (r: seq<T>)
    requires 0 <= offset < L <= |buf| && 0 <= inc <= L
    ensures |r| == |buf|
    decreases |items|
  {
    if items == [] then buf
    else
      var n := |items| - 1;
      Written(buf, offset, inc, L, items[..n])[Position(offset, inc, L, n) := items[n]]
  }

  /** Everything a read needs about its destination and its ring. */
  ghost predicate ReadFits<T>(dst: seq<T>, start: int, dstInc: int, base: int, length: int, n: nat) {
    forall k: nat :: k < n ==> 0 <= DstPosition(start, dstInc, base, length, k) < |dst|
  }

  ghost function ReadInto<T>(dst: seq<T>, start: int, dstInc: int, base: int, length: int,
                             buf: seq<T>, offset: int, inc: int, L: int, n: nat): (r: seq<T>)
    requires 0 <= offset < L <= |buf| && 0 <= inc <= L
    requires ReadFits(dst, start, dstInc, base, length, n)
    ensures |r| == |dst|
    decreases n
  {
    if n == 0 then dst
    else
      ReadInto(dst, start, dstInc, base, length, buf, offset, inc, L, n - 1)
      [DstPosition(start, dstInc, base, length, n - 1) := buf[Position(offset, inc, L, n - 1)]]
  }

  lemma WrittenOneMore<T>(buf: seq<T>, offset: int, inc: int, L: int, items: seq<T>, n: nat)
    requires 0 <= offset < L <= |buf| && 0 <= inc <= L && n < |items|
    ensures Written(buf, offset, inc, L, items[..n + 1])
            == Written(buf, offset, inc, L, items[..n])[Position(offset, inc, L, n) := items[n]]
  {
    assert items[..n + 1][..n] == items[..n];
  }

  method CircularWrite<T>(circBuffer: array<T>, L: int, writeOffset: int, bufferInc: int,
                          src: array<T>, srcStart: int, srcInc: int, blockSize: nat)
    returns (newOffset: int)
    requires 0 <= writeOffset < L <= circBuffer.Length && L <= 0x1_0000
    requires 0 <= bufferInc <= L
    requires src != circBuffer
    requires GatherFits(src.Length, srcStart, srcInc, blockSize)
    modifies circBuffer
    ensures circBuffer[..] == Written(old(circBuffer[..]), writeOffset, bufferInc, L,
                                      Gather(src[..], srcStart, srcInc, blockSize))
    ensures newOffset == (writeOffset + blockSize * bufferInc) % L
  {
    var wOffset := writeOffset;
    var s := srcStart;
    var i := blockSize;
    ghost var before, items := circBuffer[..], Gather(src[..], srcStart, srcInc, blockSize);
    SrcStep(srcStart, srcInc, 0);
    while i > 0
      invariant 0 <= i <= blockSize
      invariant s == SrcPosition(srcStart, srcInc, blockSize - i)
      invariant wOffset == Position(writeOffset, bufferInc, L, blockSize - i)
      invariant circBuffer[..] == Written(before, writeOffset, bufferInc, L, items[..blockSize - i])
    {
      ghost var n := blockSize - i;
      WrittenOneMore(before, writeOffset, bufferInc, L, items, n);
      SrcStep(srcStart, srcInc, n);
      circBuffer[wOffset] := src[s];
      s := s + srcInc;
      wOffset := wOffset + bufferInc;
      if wOffset >= L {
        wOffset := wOffset - L;
      }
      i := i - 1;
    }
    assert items[..blockSize] == items;
    newOffset := wOffset % 0x1_0000;
    StoredOffset(writeOffset, bufferInc, L, blockSize);
  }

  /** The 16 bits that the offset is stored in are enough. */
  lemma StoredOffset(offset: int, inc: int, L: int, k: nat)
    requires 0 <= offset < L <= 0x1_0000 && 0 <= inc <= L
    ensures Position(offset, inc, L, k) % 0x1_0000 == (offset + k * inc) % L
  {
    PositionIsModular(offset, inc, L, k);
  }

  method CircularRead<T>(circBuffer: array<T>, L: int, readOffset: int, bufferInc: int,
                         dst: array<T>, dstStart: int, dstBase: int, dstLength: int, dstInc: int,
                         blockSize: nat)
    returns (newOffset: int)
    requires 0 <= readOffset < L <= circBuffer.Length
    requires 0 <= bufferInc <= L
    requires dst != circBuffer
    requires ReadFits(dst[..], dstStart, dstInc, dstBase, dstLength, blockSize)
    modifies dst
    ensures dst[..] == ReadInto(old(dst[..]), dstStart, dstInc, dstBase, dstLength,
                                circBuffer[..], readOffset, bufferInc, L, blockSize)
    ensures newOffset == (readOffset + blockSize * bufferInc) % L
  {
    var rOffset := readOffset;
    var dstEnd := dstBase + dstLength;
    var d := dstStart;
    var i := blockSize;
    while i > 0
      invariant 0 <= i <= blockSize
      invariant rOffset == Position(readOffset, bufferInc, L, blockSize - i)
      invariant d == DstPosition(dstStart, dstInc, dstBase, dstLength, blockSize - i)
      invariant dst[..] == ReadInto(old(dst[..]), dstStart, dstInc, dstBase, dstLength,
                                    circBuffer[..], readOffset, bufferInc, L, blockSize - i)
    {
      dst[d] := circBuffer[rOffset];
      d := d + dstInc;
      if d == dstEnd {
        d := dstBase;
      }
      rOffset := rOffset + bufferInc;
      if rOffset >= L {
        rOffset := rOffset - L;
      }
      i := i - 1;
    }
    PositionIsModular(readOffset, bufferInc, L, blockSize);
    newOffset := rOffset;
  }

  /** Repeated single subtraction is reduction modulo L, for every increment in 0..L. */
  lemma {:induction false} PositionIsModular(offset: int, inc: int, L: int, k: nat)
    requires 0 <= offset < L && 0 <= inc <= L
    ensures Position(offset, inc, L, k) == (offset + k * inc) % L
    decreases k
  {
    if k == 0 {
      FixedPoint.DivUnique(offset, L, 0, offset);
    } else {
      PositionIsModular(offset, inc, L, k - 1);
      NextPosition(offset, inc, L, k, SrcPosition(offset, inc, k - 1));
      SrcStep(offset, inc, k - 1);
    }
  }

  lemma NextPosition(offset: int, inc: int, L: int, k: nat, x: int)
    requires 0 <= offset < L && 0 <= inc <= L && 0 < k && Position(offset, inc, L, k - 1) == x % L
    ensures Position(offset, inc, L, k) == (x + inc) % L
  {
    AdvanceIsModular(x, inc, L);
  }

  lemma AdvanceIsModular(x: int, inc: int, L: int)
    requires 0 < L && 0 <= inc <= L
    ensures Advance(x % L, inc, L) == (x + inc) % L
  {
    var q, p := x / L, x % L;
    if p + inc >= L {
      OneMoreTurn(q, L);
      FixedPoint.DivUnique(x + inc, L, q + 1, p + inc - L);
    } else {
      FixedPoint.DivUnique(x + inc, L, q, p + inc);
    }
  }

  lemma OneMoreTurn(q: int, L: int)
    ensures (q + 1) * L == q * L + L
  {}

  // ---------------------------------------------------------------------------
  // Blocks compose
  // ---------------------------------------------------------------------------

  lemma {:induction false} PositionSplit(offset: int, inc: int, L: int, m: nat, k: nat)
    requires 0 <= offset < L && 0 <= inc <= L
    ensures Position(offset, inc, L, m + k) == Position(Position(offset, inc, L, m), inc, L, k)
    decreases k
  {
    if k > 0 {
      PositionSplit(offset, inc, L, m, k - 1);
    }
  }

  /** Writing block a and then block b from where a ended is writing a ++ b. */
  lemma {:induction false} WritesCompose<T>(buf: seq<T>, offset: int, inc: int, L: int, a: seq<T>, b: seq<T>)
    requires 0 <= offset < L <= |buf| && 0 <= inc <= L
    ensures Written(Written(buf, offset, inc, L, a), Position(offset, inc, L, |a|), inc, L, b)
            == Written(buf, offset, inc, L, a + b)
    decreases |b|
  {
    if b == [] {
      assert a + b == a;
    } else {
      var n := |b| - 1;
      WritesCompose(buf, offset, inc, L, a, b[..n]);
      assert (a + b)[..|a + b| - 1] == a + b[..n];
      PositionSplit(offset, inc, L, |a|, n);
    }
  }

  // ---------------------------------------------------------------------------
  // Whole runs of block writes
  // ---------------------------------------------------------------------------

  datatype Ring<T> = Ring(buf: seq<T>, offset: int) {
    ghost predicate Valid(L: int) { 0 <= offset < L <= |buf| }

    /** The ring read cyclically from the write offset. */
    function View(L: int): (v: seq<T>)
      requires 0 <= offset < L <= |buf|
      ensures |v| == L
    {
      buf[offset..L] + buf[..offset]
    }
  }

  function WriteBlock<T>(r: Ring<T>, L: int, items: seq<T>): (r': Ring<T>)
    requires r.Valid(L)
    ensures r'.Valid(L)
  {
    Ring(Written(r.buf, r.offset, 1, L, items), Position(r.offset, 1, L, |items|))
  }

  function WriteBlocks<T>(r: Ring<T>, L: int, blocks: seq<seq<T>>): (r': Ring<T>)
    requires r.Valid(L)
    ensures r'.Valid(L)
  {
    if blocks == [] then r
    else WriteBlock(WriteBlocks(r, L, blocks[..|blocks| - 1]), L, blocks[|blocks| - 1])
  }

  function Flatten<T>(blocks: seq<seq<T>>): seq<T> {
    if blocks == [] then [] else Flatten(blocks[..|blocks| - 1]) + blocks[|blocks| - 1]
  }

  function Last<T>(s: seq<T>, n: int): seq<T>
    requires 0 <= n <= |s|
  {
    s[|s| - n..]
  }

  /**
   After any sequence of block writes, of any sizes including larger than the ring, the ring
   read from its write offset is exactly the last L of (old content ++ everything written):
   the offset always marks the oldest sample.
   */
  lemma {:induction false} RunKeepsNewestSamples<T>(r: Ring<T>, L: int, blocks: seq<seq<T>>)
    requires r.Valid(L)
    ensures WriteBlocks(r, L, blocks).View(L) == Last(r.View(L) + Flatten(blocks), L)
  {
    if blocks == [] {
      assert r.View(L) + Flatten(blocks) == r.View(L);
    } else {
      var init, block := blocks[..|blocks| - 1], blocks[|blocks| - 1];
      RunKeepsNewestSamples(r, L, init);
      BlockKeepsNewestSamples(WriteBlocks(r, L, init), L, block);
      LastOfLast(r.View(L) + Flatten(init), block, L);
      assert r.View(L) + Flatten(blocks) == r.View(L) + Flatten(init) + block;
    }
  }

  lemma LastOfLast<T>(s: seq<T>, t: seq<T>, n: int)
    requires 0 <= n <= |s|
    ensures Last(Last(s, n) + t, n) == Last(s + t, n)
  {}

  lemma {:induction false} BlockKeepsNewestSamples<T>(r: Ring<T>, L: int, items: seq<T>)
    requires r.Valid(L)
    ensures WriteBlock(r, L, items).View(L) == Last(r.View(L) + items, L)
    decreases |items|
  {
    if items == [] {
      assert r.View(L) + items == r.View(L);
    } else {
      var n := |items| - 1;
      var before := WriteBlock(r, L, items[..n]);
      BlockKeepsNewestSamples(r, L, items[..n]);
      SampleReplacesOldest(before.buf, before.offset, L, items[n]);
      LastOfLast(r.View(L) + items[..n], [items[n]], L);
      assert r.View(L) + items == r.View(L) + items[..n] + [items[n]];
    }
  }

  lemma SampleReplacesOldest<T>(buf: seq<T>, offset: int, L: int, x: T)
    requires 0 <= offset < L <= |buf|
    ensures Ring(buf[offset := x], Advance(offset, 1, L)).View(L)
            == Last(Ring(buf, offset).View(L) + [x], L)
  {
    var after := buf[offset := x];
    assert after[..offset + 1] == buf[..offset] + [x];
    assert after[offset + 1..L] == buf[offset + 1..L];
    var rest := buf[offset + 1..L] + buf[..offset] + [x];
    assert Last(Ring(buf, offset).View(L) + [x], L) == rest;
    if offset + 1 < L {
      assert Ring(after, offset + 1).View(L) == rest;
    } else {
      assert Ring(after, 0).View(L) == rest;
    }
  }

  // ---------------------------------------------------------------------------
  // Reading back
  // ---------------------------------------------------------------------------

  /** For any increment: a cell holds the last sample that was written to its position. */
  lemma {:induction false} LastWriteWins<T>(buf: seq<T>, offset: int, inc: int, L: int, items: seq<T>, k: nat)
    requires 0 <= offset < L <= |buf| && 0 <= inc <= L && k < |items|
    requires forall j: nat :: k < j < |items| ==> Position(offset, inc, L, j) != Position(offset, inc, L, k)
    ensures Written(buf, offset, inc, L, items)[Position(offset, inc, L, k)] == items[k]
    decreases |items|
  {
    var n := |items| - 1;
    if k < n {
      LastWriteWins(buf, offset, inc, L, items[..n], k);
    }
  }

  /** A cell that no sample's position hits, inside or beyond the ring, keeps its content. */
  lemma {:induction false} OtherCellsUnchanged<T>(buf: seq<T>, offset: int, inc: int, L: int, items: seq<T>, p: nat)
    requires 0 <= offset < L <= |buf| && 0 <= inc <= L && p < |buf|
    requires forall k: nat :: k < |items| ==> Position(offset, inc, L, k) != p
    ensures Written(buf, offset, inc, L, items)[p] == buf[p]
    decreases |items|
  {
    if items != [] {
      OtherCellsUnchanged(buf, offset, inc, L, items[..|items| - 1], p);
    }
  }

  /** With increment 1 and at most L samples no position repeats, so every sample survives the block. */
  lemma WrittenAt<T>(buf: seq<T>, offset: int, L: int, items: seq<T>, k: nat)
    requires 0 <= offset < L <= |buf| && k < |items| <= L
    ensures Written(buf, offset, 1, L, items)[Position(offset, 1, L, k)] == items[k]
  {
    forall j: nat | k < j < |items|
      ensures Position(offset, 1, L, j) != Position(offset, 1, L, k)
    {
      UnitPosition(offset, L, k);
      UnitPosition(offset, L, j);
    }
    LastWriteWins(buf, offset, 1, L, items, k);
  }

  lemma {:induction false} UnitPosition(offset: int, L: int, k: nat)
    requires 0 <= offset < L && k < L
    ensures Position(offset, 1, L, k) == if offset + k < L then offset + k else offset + k - L
    decreases k
  {
    if k > 0 {
      UnitPosition(offset, L, k - 1);
    }
  }

  lemma {:induction false} UnitDstPosition(start: int, base: int, length: int, k: nat)
    requires base <= start < base + length && k < length
    ensures DstPosition(start, 1, base, length, k)
            == if start + k < base + length then start + k else start + k - length
    decreases k
  {
    if k > 0 {
      UnitDstPosition(start, base, length, k - 1);
    }
  }

  /** A unit-stride destination region of at least n entries gets sample k at its k-th position. */
  lemma {:induction false} ReadAt<T>(dst: seq<T>, start: int, base: int, length: int,
                                     buf: seq<T>, offset: int, inc: int, L: int, n: nat, k: nat)
    requires 0 <= offset < L <= |buf| && 0 <= inc <= L
    requires base <= start < base + length && k < n <= length
    requires ReadFits(dst, start, 1, base, length, n)
    ensures ReadInto(dst, start, 1, base, length, buf, offset, inc, L, n)[DstPosition(start, 1, base, length, k)]
            == buf[Position(offset, inc, L, k)]
    decreases n
  {
    if k < n - 1 {
      ReadAt(dst, start, base, length, buf, offset, inc, L, n - 1, k);
      UnitDstPosition(start, base, length, k);
      UnitDstPosition(start, base, length, n - 1);
    }
  }

  /** Destination cells that no sample's position hits keep their content. */
  lemma {:induction false} OtherDstCellsUnchanged<T>(dst: seq<T>, start: int, dstInc: int, base: int, length: int,
                                                     buf: seq<T>, offset: int, inc: int, L: int, n: nat, p: nat)
    requires 0 <= offset < L <= |buf| && 0 <= inc <= L && p < |dst|
    requires ReadFits(dst, start, dstInc, base, length, n)
    requires forall k: nat :: k < n ==> DstPosition(start, dstInc, base, length, k) != p
    ensures ReadInto(dst, start, dstInc, base, length, buf, offset, inc, L, n)[p] == dst[p]
    decreases n
  {
    if n > 0 {
      OtherDstCellsUnchanged(dst, start, dstInc, base, length, buf, offset, inc, L, n - 1, p);
    }
  }

  // ---------------------------------------------------------------------------
  // Where a strided destination puts the samples
  // ---------------------------------------------------------------------------

  /** For every stride: as long as no step hits the end exactly, sample k goes to start + k * inc. */
  lemma {:induction false} DstIsStraight(start: int, inc: int, base: int, length: int, k: nat)
    requires forall j: nat :: 0 < j <= k ==> SrcPosition(start, inc, j) != base + length
    ensures DstPosition(start, inc, base, length, k) == start + k * inc
    decreases k
  {
    SrcStep(start, inc, 0);
    if k > 0 {
      DstIsStraight(start, inc, base, length, k - 1);
      SrcStep(start, inc, k - 1);
    }
  }

  /** The first step that hits the end exactly goes to the base, and the walk starts again from there. */
  lemma DstRestarts(start: int, inc: int, base: int, length: int, m: nat, k: nat)
    requires 0 < m && start + m * inc == base + length
    requires forall j: nat :: 0 < j < m ==> SrcPosition(start, inc, j) != base + length
    ensures DstPosition(start, inc, base, length, m) == base
    ensures DstPosition(start, inc, base, length, m + k) == DstPosition(base, inc, base, length, k)
  {
    DstIsStraight(start, inc, base, length, m - 1);
    SrcStep(start, inc, m - 1);
    DstSplit(start, inc, base, length, m, k);
  }

  lemma {:induction false} DstSplit(start: int, inc: int, base: int, length: int, m: nat, k: nat)
    ensures DstPosition(start, inc, base, length, m + k)
            == DstPosition(DstPosition(start, inc, base, length, m), inc, base, length, k)
    decreases k
  {
    if k > 0 {
      DstSplit(start, inc, base, length, m, k - 1);
    }
  }

  /** When the stride divides the region and the distance to its base, the walk is modular, over any number of turns. */
  lemma {:induction false} DstIsModular(start: int, inc: int, base: int, length: int, k: nat)
    requires 0 < inc && length % inc == 0 && (start - base) % inc == 0 && base <= start < base + length
    ensures DstPosition(start, inc, base, length, k) == base + (start - base + k * inc) % length
    ensures (DstPosition(start, inc, base, length, k) - base) % inc == 0
    decreases k
  {
    SrcStep(start - base, inc, 0);
    if k == 0 {
      FixedPoint.DivUnique(start - base, length, 0, start - base);
    } else {
      DstIsModular(start, inc, base, length, k - 1);
      SrcStep(start - base, inc, k - 1);
      StrideStep(SrcPosition(start - base, inc, k - 1), inc, length);
    }
  }

  lemma StrideStep(x: int, inc: int, length: int)
    requires 0 < inc && 0 < length && length % inc == 0 && x % length % inc == 0
    ensures (x + inc) % length == if x % length + inc == length then 0 else x % length + inc
    ensures (x + inc) % length % inc == 0
  {
    var m, p := x % length / inc, x % length;
    StrideFits(length, inc, p);
    FixedPoint.DivUnique(0, inc, 0, 0);
    if p + inc == length {
      OneMoreTurn(x / length, length);
      FixedPoint.DivUnique(x + inc, length, x / length + 1, 0);
    } else {
      FixedPoint.DivUnique(x + inc, length, x / length, p + inc);
      OneMoreTurn(m, inc);
      FixedPoint.DivUnique(p + inc, inc, m + 1, 0);
    }
  }

  /** Below a multiple of the stride, a smaller multiple has room for one more stride. */
  lemma StrideFits(length: int, inc: int, p: int)
    requires 0 < inc && length % inc == 0 && p % inc == 0 && p < length
    ensures p + inc <= length
  {
    var q, m := length / inc, p / inc;
    if m < q {
      FixedPoint.MulMono(m + 1, q, inc);
      OneMoreTurn(m, inc);
    } else {
      FixedPoint.MulMono(q, m, inc);
    }
  }

  /** For any strides: the last sample sent to a destination cell is the ring sample of that call. */
  lemma {:induction false} LastReadWins<T>(dst: seq<T>, start: int, dstInc: int, base: int, length: int,
                                           buf: seq<T>, offset: int, inc: int, L: int, n: nat, k: nat)
    requires 0 <= offset < L <= |buf| && 0 <= inc <= L && k < n
    requires ReadFits(dst, start, dstInc, base, length, n)
    requires forall j: nat :: k < j < n ==>
               DstPosition(start, dstInc, base, length, j) != DstPosition(start, dstInc, base, length, k)
    ensures 0 <= (offset + k * inc) % L < L
    ensures ReadInto(dst, start, dstInc, base, length, buf, offset, inc, L, n)
            [DstPosition(start, dstInc, base, length, k)] == buf[(offset + k * inc) % L]
    decreases n
  {
    PositionIsModular(offset, inc, L, k);
    if k < n - 1 {
      LastReadWins(dst, start, dstInc, base, length, buf, offset, inc, L, n - 1, k);
    }
  }

  /**
   With a stride that divides the region, by index alone and over any number of turns: of the
   samples that go to one cell, the last one, within a turn of the end of the block, remains.
   */
  lemma StridedRead<T>(dst: seq<T>, start: int, dstInc: int, base: int, length: int,
                       buf: seq<T>, offset: int, inc: int, L: int, n: nat, k: nat)
    requires 0 <= offset < L <= |buf| && 0 <= inc <= L && k < n
    requires 0 < dstInc && length % dstInc == 0 && (start - base) % dstInc == 0
    requires 0 <= base <= start < base + length <= |dst| && (n - k) * dstInc <= length
    ensures ReadFits(dst, start, dstInc, base, length, n)
    ensures 0 <= (start - base + k * dstInc) % length < length && 0 <= (offset + k * inc) % L < L
    ensures ReadInto(dst, start, dstInc, base, length, buf, offset, inc, L, n)
            [base + (start - base + k * dstInc) % length] == buf[(offset + k * inc) % L]
  {
    forall j: nat
      ensures DstPosition(start, dstInc, base, length, j) == base + SrcPosition(start - base, dstInc, j) % length
    {
      DstIsModular(start, dstInc, base, length, j);
    }
    forall j: nat | k < j < n
      ensures DstPosition(start, dstInc, base, length, j) != DstPosition(start, dstInc, base, length, k)
    {
      FixedPoint.MulMono(1, j - k, dstInc);
      FixedPoint.MulMono(j - k + 1, n - k, dstInc);
      OneMoreTurn(j - k, dstInc);
      StridesDiffer(start - base, dstInc, j, k);
      WithinOneTurn(SrcPosition(start - base, dstInc, k), (j - k) * dstInc, length);
    }
    LastReadWins(dst, start, dstInc, base, length, buf, offset, inc, L, n, k);
  }

  lemma StridesDiffer(start: int, inc: int, j: nat, k: nat)
    ensures SrcPosition(start, inc, j) == SrcPosition(start, inc, k) + (j - k) * inc
  {}

  lemma WithinOneTurn(x: int, d: int, length: int)
    requires 0 < d < length
    ensures (x + d) % length != x % length
  {
    var q, r := x / length, x % length;
    if r + d < length {
      FixedPoint.DivUnique(x + d, length, q, r + d);
    } else {
      OneMoreTurn(q, length);
      FixedPoint.DivUnique(x + d, length, q + 1, r + d - length);
    }
  }

  /**
   Reading from the write's start offset gives the block back, in order, even when the ring
   and the destination region both wrap in the middle of it.
   */
  lemma ReadBack<T>(buf: seq<T>, offset: int, L: int, items: seq<T>, dst: seq<T>, start: int, base: int, length: int)
    requires 0 <= offset < L <= |buf| && |items| <= L
    requires 0 <= base <= start < base + length <= |dst| && |items| <= length
    ensures ReadFits(dst, start, 1, base, length, |items|)
    ensures var got := ReadInto(dst, start, 1, base, length,
                                Written(buf, offset, 1, L, items), offset, 1, L, |items|);
            forall k: nat :: k < |items| ==>
              got[if start + k < base + length then start + k else start + k - length] == items[k]
  {
    forall k: nat | k < |items|
      ensures 0 <= DstPosition(start, 1, base, length, k) < |dst|
    {
      UnitDstPosition(start, base, length, k);
    }
    var after := Written(buf, offset, 1, L, items);
    var got := ReadInto(dst, start, 1, base, length, after, offset, 1, L, |items|);
    forall k: nat | k < |items|
      ensures got[if start + k < base + length then start + k else start + k - length] == items[k]
    {
      ReadAt(dst, start, base, length, after, offset, 1, L, |items|, k);
      UnitDstPosition(start, base, length, k);
      WrittenAt(buf, offset, L, items, k);
    }
  }
}
