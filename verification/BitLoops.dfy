/**
 The software fallbacks of `__CLZ` and `__RBIT`: two loops over a 32-bit word, each proved
 against a bit-level definition, and the identities that tie the two together.
 */
module BitLoops {
  import opened FixedPoint

  /** `v >> k` on an unsigned word. */
  function ShiftRight(v: nat, k: nat): nat {
    if k == 0 then v else ShiftRight(v, k - 1) / 2
  }

  function Bit(v: nat, k: nat): nat { ShiftRight(v, k) % 2 }

  /** The low `n` bits of `v` in the opposite order. */
  function Reversed(v: nat, n: nat): nat {
    if n == 0 then 0 else 2 * Reversed(v, n - 1) + Bit(v, n - 1)
  }

  /** Position of the highest set bit. */
  function Msb(v: nat): nat
    requires 0 < v
  {
    if v == 1 then 0 else 1 + Msb(v / 2)
  }

  function LeadingZeros(v: U32): (c: nat)
    ensures c <= 32
    ensures c == 32 <==> v == 0
    ensures v != 0 ==> Pow2(31 - c) <= v < Pow2(32 - c)
  {
    if v == 0 then 32
    else
      Pow2At31And32();
      MsbBound(v, 32);
      31 - Msb(v)
  }

  function TrailingZeros(v: nat): nat
    requires 0 < v
  {
    if v % 2 == 1 then 0 else 1 + TrailingZeros(v / 2)
  }

  // ---------------------------------------------------------------------------
  // The loops
  // ---------------------------------------------------------------------------

  method Clz(data: U32) returns (count: nat)
    ensures count == LeadingZeros(data)
  {
    if data == 0 { return 32; }
    count := 0;
    var mask: U32 := 0x8000_0000;
    Pow2At31And32();
    MsbBound(data, 32);
    MsbBits(data);
    ShiftRightIsDiv(data, 31);
    // data & mask is nonzero exactly when the bit that mask selects is set
    while (data / mask) % 2 == 0
      invariant count <= 31 - Msb(data)
      invariant mask == Pow2(31 - count)
      invariant data / mask == ShiftRight(data, 31 - count)
      decreases 31 - count
    {
      count := count + 1;
      mask := mask / 2;
      ShiftRightIsDiv(data, 31 - count);
    }
  }

  method Rbit(value: U32) returns (result: U32)
    ensures result == Reversed(value, 32)
  {
    var s: nat := 31;
    result := value;
    var v: U32 := value / 2;
    ghost var junk := v as int;  // the bits of the first copy that are still to be shifted out
    RbitStart(value);
    while v != 0
      invariant s <= 31
      invariant v == ShiftRight(value, 32 - s)
      invariant result == Reversed(value, 32 - s) + junk * Pow2(32 - s)
      decreases v
    {
      StillHasBits(value, 32 - s);
      ghost var carry := (result * 2) / 0x1_0000_0000;
      RbitStep(value, s, result, junk, carry);
      result := U32Of(result * 2);
      result := result + v % 2;  // the low bit is clear after the shift, so | is +
      s := s - 1;
      junk := junk - carry * Pow2(s);
      v := v / 2;
    }
    RbitFinish(value, s, result, junk);
    result := U32Of(result * Pow2(s));
  }

  /** The first copy holds one reversed bit, with the rest of the word above it. */
  lemma RbitStart(value: U32)
    ensures value / 2 == ShiftRight(value, 1)
    ensures value == Reversed(value, 1) + value / 2 * Pow2(1)
  {
    assert ShiftRight(value, 0) == value && Reversed(value, 0) == 0 && Pow2(1) == 2 * Pow2(0);
  }

  /** The last shift pads the reversed bits and pushes what is left of the copy out. */
  lemma RbitFinish(value: U32, s: nat, result: U32, junk: int)
    requires s <= 31 && ShiftRight(value, 32 - s) == 0
    requires result == Reversed(value, 32 - s) + junk * Pow2(32 - s)
    ensures U32Of(result * Pow2(s)) == Reversed(value, 32)
  {
    Pow2At31And32();
    Pow2Add(32 - s, s);
    ReversedPadded(value, 32 - s, s);
    ReversedBelow(value, 32);
    FinalShift(Reversed(value, 32 - s), junk, Pow2(32 - s), Pow2(s));
  }

  /** One pass of the loop: the next bit is appended and the carry leaves the word. */
  lemma RbitStep(value: U32, s: nat, result: U32, junk: int, carry: int)
    requires 1 <= s <= 31 && carry == (result * 2) / 0x1_0000_0000
    requires result == Reversed(value, 32 - s) + junk * Pow2(32 - s)
    ensures U32Of(result * 2) + Bit(value, 32 - s)
            == Reversed(value, 33 - s) + (junk - carry * Pow2(s - 1)) * Pow2(33 - s)
    ensures U32Of(result * 2) < 0xFFFF_FFFF
  {
    Pow2At31And32();
    Pow2Add(33 - s, s - 1);
    ReassociateCarry(result, Reversed(value, 32 - s), junk, Pow2(32 - s), Pow2(s - 1), carry);
  }

  lemma ReassociateCarry(r: int, rev: int, junk: int, p: int, q: int, carry: int)
    requires r == rev + junk * p
    requires (2 * p) * q == 0x1_0000_0000
    requires carry == (r * 2) / 0x1_0000_0000
    ensures U32Of(r * 2) == 2 * rev + (junk - carry * q) * (2 * p)
  {}

  lemma FinalShift(rev: int, junk: int, p: int, q: int)
    requires p * q == 0x1_0000_0000
    requires 0 <= rev * q < 0x1_0000_0000
    ensures U32Of((rev + junk * p) * q) == rev * q
  {
    assert (rev + junk * p) * q == rev * q + junk * (p * q);
    DivUnique((rev + junk * p) * q, 0x1_0000_0000, junk, rev * q);
  }

  // ---------------------------------------------------------------------------
  // What the words mean
  // ---------------------------------------------------------------------------

  /** Bit i of the reversal of the low n bits is bit n-1-i of the word. */
  lemma {:induction false} ReversedBit(v: nat, n: nat, i: nat)
    requires i < n
    ensures Bit(Reversed(v, n), i) == Bit(v, n - 1 - i)
  {
    ShiftRightAppend(Reversed(v, n - 1), Bit(v, n - 1), i);
    if i > 0 {
      ReversedBit(v, n - 1, i - 1);
    }
  }

  /** Reversing twice gives the word back. */
  lemma ReversedInvolution(v: U32)
    ensures Reversed(v, 32) < 0x1_0000_0000
    ensures Reversed(Reversed(v, 32), 32) == v
  {
    Pow2At31And32();
    ReversedBelow(v, 32);
    ReversedBelow(Reversed(v, 32), 32);
    forall i: nat | i < 32
      ensures Bit(Reversed(Reversed(v, 32), 32), i) == Bit(v, i)
    {
      ReversedBit(Reversed(v, 32), 32, i);
      ReversedBit(v, 32, 31 - i);
    }
    BitsDetermine(Reversed(Reversed(v, 32), 32), v, 32);
  }

  /** Leading zeros of a word are the trailing zeros of its reversal. */
  lemma LeadingIsTrailingOfReversed(v: U32)
    requires v != 0
    ensures Reversed(v, 32) != 0
    ensures LeadingZeros(v) == TrailingZeros(Reversed(v, 32))
  {
    var m := Msb(v);
    Pow2At31And32();
    MsbBound(v, 32);
    MsbBits(v);
    var w := Reversed(v, 32);
    ReversedBit(v, 32, 31 - m);
    forall i: nat | i < 31 - m
      ensures Bit(w, i) == 0
    {
      ReversedBit(v, 32, i);
    }
    LowestSetBit(w, 31 - m);
  }

  // ---------------------------------------------------------------------------
  // Supporting facts
  // ---------------------------------------------------------------------------

  lemma {:induction false} ShiftRightIsDiv(v: nat, k: nat)
    ensures ShiftRight(v, k) == v / Pow2(k)
  {
    if k > 0 {
      ShiftRightIsDiv(v, k - 1);
      HalvedQuotient(v, Pow2(k - 1));
    }
  }

  lemma HalvedQuotient(v: nat, p: int)
    requires 0 < p
    ensures (v / p) / 2 == v / (2 * p)
  {
    var q, r := v / p, v % p;
    var h := q / 2;
    DoubleFactor(h, p);
    if q % 2 == 0 {
      HalvedEven(v, p, h, r);
    } else {
      assert (2 * h + 1) * p == 2 * (h * p) + p;
      DivUnique(v, 2 * p, h, p + r);
    }
  }

  lemma HalvedEven(v: nat, p: int, h: int, r: int)
    requires 0 <= r < p && v == 2 * h * p + r
    ensures v / (2 * p) == h
  {
    DoubleFactor(h, p);
    assert 2 * h * p == 2 * (h * p);
    DivUnique(v, 2 * p, h, r);
  }

  lemma {:induction false} ShiftRightAppend(a: nat, b: nat, i: nat)
    requires b < 2
    ensures Bit(2 * a + b, i) == if i == 0 then b else Bit(a, i - 1)
    ensures i > 0 ==> ShiftRight(2 * a + b, i) == ShiftRight(a, i - 1)
  {
    if i == 0 {
      assert (2 * a + b) % 2 == b;
    } else if i == 1 {
      assert ShiftRight(2 * a + b, 0) == 2 * a + b;
    } else {
      ShiftRightAppend(a, b, i - 1);
    }
  }

  lemma {:induction false} ReversedBelow(v: nat, n: nat)
    ensures Reversed(v, n) < Pow2(n)
  {
    if n > 0 {
      ReversedBelow(v, n - 1);
    }
  }

  lemma ShiftedOut(v: nat, n: nat)
    requires v < Pow2(n)
    ensures forall k :: n <= k ==> ShiftRight(v, k) == 0
  {
    ShiftRightIsDiv(v, n);
    DivUnique(v, Pow2(n), 0, v);
    forall k | n <= k
      ensures ShiftRight(v, k) == 0
    {
      StaysZero(v, n, k);
    }
  }

  lemma {:induction false} StaysZero(v: nat, n: nat, k: nat)
    requires n <= k && ShiftRight(v, n) == 0
    ensures ShiftRight(v, k) == 0
    decreases k
  {
    if n < k {
      StaysZero(v, n, k - 1);
    }
  }

  lemma StillHasBits(v: U32, k: nat)
    requires ShiftRight(v, k) != 0
    ensures k < 32
  {
    Pow2At31And32();
    ShiftedOut(v, 32);
  }

  lemma {:induction false} ReversedPadded(v: nat, n: nat, m: nat)
    requires ShiftRight(v, n) == 0
    ensures Reversed(v, n + m) == Reversed(v, n) * Pow2(m)
    decreases m
  {
    if m > 0 {
      ReversedPadded(v, n, m - 1);
      StaysZero(v, n, n + m - 1);
      ReversedZeroBit(v, n + m - 1);
      assert n + m == n + m - 1 + 1;
      DoubleFactor(Reversed(v, n), Pow2(m - 1));
    }
  }

  lemma ReversedZeroBit(v: nat, k: nat)
    requires ShiftRight(v, k) == 0
    ensures Reversed(v, k + 1) == 2 * Reversed(v, k)
  {}

  lemma {:induction false} BitsDetermine(v: nat, w: nat, n: nat)
    requires v < Pow2(n) && w < Pow2(n)
    requires forall i: nat :: i < n ==> Bit(v, i) == Bit(w, i)
    ensures v == w
    decreases n
  {
    if n > 0 {
      assert Bit(v, 0) == Bit(w, 0);
      forall i: nat | i < n - 1
        ensures Bit(v / 2, i) == Bit(w / 2, i)
      {
        ShiftRightAppend(v / 2, v % 2, i + 1);
        ShiftRightAppend(w / 2, w % 2, i + 1);
        assert Bit(v, i + 1) == Bit(w, i + 1);
      }
      BitsDetermine(v / 2, w / 2, n - 1);
    }
  }

  lemma {:induction false} MsbBound(v: nat, n: nat)
    requires 0 < v < Pow2(n)
    ensures Msb(v) < n
    ensures Pow2(Msb(v)) <= v < Pow2(Msb(v) + 1)
    decreases v
  {
    if v > 1 {
      MsbBound(v / 2, n - 1);
    }
  }

  /** The highest set bit is set, and every bit above it is clear. */
  lemma {:induction false} MsbBits(v: nat)
    requires 0 < v
    ensures ShiftRight(v, Msb(v)) == 1
    ensures forall k :: Msb(v) < k ==> ShiftRight(v, k) == 0
    decreases v
  {
    if v > 1 {
      MsbBits(v / 2);
      var m := Msb(v / 2);
      ShiftRightAppend(v / 2, v % 2, m + 1);
    }
    var m := Msb(v);
    assert ShiftRight(v, m) == 1;
    forall k | m < k
      ensures ShiftRight(v, k) == 0
    {
      assert ShiftRight(v, m + 1) == 0;
      StaysZero(v, m + 1, k);
    }
  }

  lemma {:induction false} LowestSetBit(w: nat, t: nat)
    requires Bit(w, t) == 1
    requires forall i: nat :: i < t ==> Bit(w, i) == 0
    ensures w != 0 && TrailingZeros(w) == t
    decreases t
  {
    if t == 0 {
    } else {
      assert Bit(w, 0) == 0;
      ShiftRightAppend(w / 2, w % 2, t);
      forall i: nat | i < t - 1
        ensures Bit(w / 2, i) == 0
      {
        ShiftRightAppend(w / 2, w % 2, i + 1);
        assert Bit(w, i + 1) == 0;
      }
      LowestSetBit(w / 2, t - 1);
    }
  }
}
