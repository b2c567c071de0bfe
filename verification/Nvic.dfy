/**
 Interrupt priorities: the codec that packs a preemption priority and a subpriority into the
 implemented bits, and the priority bytes of the NVIC and of the system handlers. The number
 of implemented bits, `__NVIC_PRIO_BITS`, is a parameter in 1..8.
 */
module Nvic {
  import opened FixedPoint

  type U8 = x: int | 0 <= x < 0x100

  predicate Width(prioBits: nat) { 1 <= prioBits <= 8 }

  function PreemptBits(group: U32, prioBits: nat): nat {
    var g := group % 8;
    if 7 - g > prioBits then prioBits else 7 - g
  }

  function SubBits(group: U32, prioBits: nat): nat {
    var g := group % 8;
    if g + prioBits < 7 then 0 else g - 7 + prioBits
  }

  /** `x & ((1 << bits) - 1)`. */
  function LowBits(x: nat, bits: nat): nat { x % Pow2(bits) }

  /** `NVIC_EncodePriority`; the two fields do not overlap, so | is +. */
  function Encode(group: U32, preempt: U32, sub: U32, prioBits: nat): nat {
    var pb, sb := PreemptBits(group, prioBits), SubBits(group, prioBits);
    MulNonNeg(LowBits(preempt, pb), Pow2(sb));
    LowBits(preempt, pb) * Pow2(sb) + LowBits(sub, sb)
  }

  /**
   `NVIC_DecodePriority`, which writes its two results through pointers. For every priority,
   grouping and width the results fill their fields, and encode to the implemented bits of the
   priority.
   */
  method DecodePriority(priority: U32, group: U32, prioBits: nat) returns (preempt: U32, sub: U32)
    ensures preempt < Pow2(PreemptBits(group, prioBits)) && sub < Pow2(SubBits(group, prioBits))
    ensures Encode(group, preempt, sub, prioBits) == LowBits(priority, prioBits)
    ensures preempt == DecodePreempt(priority, group, prioBits) && sub == DecodeSub(priority, group, prioBits)
  {
    DecodedFields(priority, group, prioBits);
    var preemptBits := PreemptBits(group, prioBits);
    var subBits := SubBits(group, prioBits);
    preempt := LowBits(priority / Pow2(subBits), preemptBits);
    sub := LowBits(priority, subBits);
  }

  function DecodePreempt(priority: U32, group: U32, prioBits: nat): nat {
    ShiftNonNeg(priority, Pow2(SubBits(group, prioBits)));
    LowBits(priority / Pow2(SubBits(group, prioBits)), PreemptBits(group, prioBits))
  }

  function DecodeSub(priority: U32, group: U32, prioBits: nat): nat {
    LowBits(priority, SubBits(group, prioBits))
  }

  lemma ShiftNonNeg(x: nat, d: int)
    requires 0 < d
    ensures 0 <= x / d
  {}

  // ---------------------------------------------------------------------------
  // The codec
  // ---------------------------------------------------------------------------

  /** The two fields always use exactly the implemented bits. */
  lemma FieldsFillTheWidth(group: U32, prioBits: nat)
    ensures PreemptBits(group, prioBits) + SubBits(group, prioBits) == prioBits
    ensures Pow2(PreemptBits(group, prioBits)) * Pow2(SubBits(group, prioBits)) == Pow2(prioBits)
  {
    Pow2Add(PreemptBits(group, prioBits), SubBits(group, prioBits));
  }

  lemma LowBitsRange(x: nat, bits: nat)
    ensures 0 <= LowBits(x, bits) < Pow2(bits)
    ensures x < Pow2(bits) ==> LowBits(x, bits) == x
  {
    if x < Pow2(bits) {
      DivUnique(x, Pow2(bits), 0, x);
    }
  }

  lemma PackedBelow(q: int, r: int, a: int, b: int)
    requires 0 <= q < b && 0 <= r < a
    ensures 0 <= q * a + r < b * a
  {
    MulNonNeg(q, a);
    MulMono(q, b - 1, a);
    assert (b - 1) * a == b * a - a;
  }

  lemma EncodedBelow(group: U32, preempt: U32, sub: U32, prioBits: nat)
    requires Width(prioBits)
    ensures Encode(group, preempt, sub, prioBits) < Pow2(prioBits)
  {
    var pb, sb := PreemptBits(group, prioBits), SubBits(group, prioBits);
    FieldsFillTheWidth(group, prioBits);
    LowBitsRange(preempt, pb);
    LowBitsRange(sub, sb);
    PackedBelow(LowBits(preempt, pb), LowBits(sub, sb), Pow2(sb), Pow2(pb));
  }

  lemma EncodedIsWord(group: U32, preempt: U32, sub: U32, prioBits: nat)
    requires Width(prioBits)
    ensures Encode(group, preempt, sub, prioBits) < 0x100
  {
    EncodedBelow(group, preempt, sub, prioBits);
    WidthsAreSmall(prioBits);
  }

  /** Decoding an encoded priority gives both fields back, truncated to their widths. */
  lemma DecodeOfEncode(group: U32, preempt: U32, sub: U32, prioBits: nat)
    requires Width(prioBits)
    ensures Encode(group, preempt, sub, prioBits) < 0x100
    ensures DecodePreempt(Encode(group, preempt, sub, prioBits), group, prioBits)
            == LowBits(preempt, PreemptBits(group, prioBits))
    ensures DecodeSub(Encode(group, preempt, sub, prioBits), group, prioBits)
            == LowBits(sub, SubBits(group, prioBits))
  {
    var pb, sb := PreemptBits(group, prioBits), SubBits(group, prioBits);
    var q, r := LowBits(preempt, pb), LowBits(sub, sb);
    EncodedIsWord(group, preempt, sub, prioBits);
    LowBitsRange(preempt, pb);
    LowBitsRange(sub, sb);
    DivUnique(q * Pow2(sb) + r, Pow2(sb), q, r);
    LowBitsRange(q, pb);
  }

  /** Encoding the decoded fields of any word gives its implemented bits back. */
  lemma DecodedFields(priority: U32, group: U32, prioBits: nat)
    ensures DecodePreempt(priority, group, prioBits) < Pow2(PreemptBits(group, prioBits))
    ensures DecodeSub(priority, group, prioBits) < Pow2(SubBits(group, prioBits))
    ensures 0 <= priority / Pow2(SubBits(group, prioBits))
    ensures DecodePreempt(priority, group, prioBits) <= priority && DecodeSub(priority, group, prioBits) <= priority
    ensures Encode(group, DecodePreempt(priority, group, prioBits), DecodeSub(priority, group, prioBits), prioBits)
            == LowBits(priority, prioBits)
  {
    var pb, sb := PreemptBits(group, prioBits), SubBits(group, prioBits);
    FieldsFillTheWidth(group, prioBits);
    QuotientShrinks(priority, Pow2(sb));
    RemainderShrinks(priority, Pow2(sb));
    RemainderShrinks(priority / Pow2(sb), Pow2(pb));
    LowBitsRange(priority / Pow2(sb), pb);
    LowBitsRange(priority, sb);
    LowBitsRange(LowBits(priority / Pow2(sb), pb), pb);
    LowBitsRange(LowBits(priority, sb), sb);
    NestedRemainders(priority, Pow2(sb), Pow2(pb));
  }

  lemma QuotientShrinks(v: nat, d: int)
    requires 0 < d
    ensures 0 <= v / d <= v
  {
    ShiftNonNeg(v, d);
    MulMono(1, d, v / d);
    assert v == v / d * d + v % d;
  }

  lemma RemainderShrinks(v: nat, d: int)
    requires 0 < d
    ensures 0 <= v % d <= v
  {
    QuotientShrinks(v, d);
    MulNonNeg(v / d, d);
  }

  lemma NestedRemainders(v: nat, a: int, b: int)
    requires 0 < a && 0 < b
    ensures 0 < b * a && v / a % b * a + v % a == v % (b * a)
  {
    var q := v / a;
    PackedBelow(q % b, v % a, a, b);
    RegroupQuotient(q / b, q % b, v % a, a, b);
    DivUnique(v, b * a, q / b, q % b * a + v % a);
  }

  lemma RegroupQuotient(c: int, d: int, r: int, a: int, b: int)
    ensures (c * b + d) * a + r == c * (b * a) + (d * a + r)
  {}

  /** Every implemented priority value is the encoding of its own fields. */
  lemma EncodeOfDecode(priority: U32, group: U32, prioBits: nat)
    requires priority < Pow2(prioBits)
    ensures DecodePreempt(priority, group, prioBits) <= priority && DecodeSub(priority, group, prioBits) <= priority
    ensures Encode(group, DecodePreempt(priority, group, prioBits), DecodeSub(priority, group, prioBits), prioBits)
            == priority
  {
    DecodedFields(priority, group, prioBits);
    LowBitsRange(priority, prioBits);
  }

  lemma WidthsAreSmall(bits: nat)
    requires bits <= 8
    ensures Pow2(bits) <= 0x100
  {
    Pow2Mono(bits, 8);
    Pow2At8();
  }

  /** The order of encoded values is the lexicographic order of the truncated fields. */
  lemma EncodedOrder(group: U32, p: U32, s: U32, p': U32, s': U32, prioBits: nat)
    ensures var pb, sb := PreemptBits(group, prioBits), SubBits(group, prioBits);
            Encode(group, p, s, prioBits) < Encode(group, p', s', prioBits)
            <==> LowBits(p, pb) < LowBits(p', pb)
                 || (LowBits(p, pb) == LowBits(p', pb) && LowBits(s, sb) < LowBits(s', sb))
  {
    var pb, sb := PreemptBits(group, prioBits), SubBits(group, prioBits);
    LowBitsRange(s, sb);
    LowBitsRange(s', sb);
    PackedOrder(LowBits(p, pb), LowBits(s, sb), LowBits(p', pb), LowBits(s', sb), Pow2(sb));
  }

  lemma PackedOrder(q: int, r: int, q': int, r': int, a: int)
    requires 0 <= r < a && 0 <= r' < a
    ensures q * a + r < q' * a + r' <==> q < q' || (q == q' && r < r')
  {
    if q < q' {
      MulMono(q + 1, q', a);
      assert (q + 1) * a == q * a + a;
    } else if q' < q {
      MulMono(q' + 1, q, a);
      assert (q' + 1) * a == q' * a + a;
    }
  }

  // ---------------------------------------------------------------------------
  // Priority bytes
  // ---------------------------------------------------------------------------

  /** `(uint8_t)((priority << (8 - bits)) & 0xFF)`. */
  function PriorityByte(priority: U32, prioBits: nat): U8
    requires Width(prioBits)
  {
    priority * Pow2(8 - prioBits) % 0x100
  }

  function ByteToPriority(b: U8, prioBits: nat): int
    requires Width(prioBits)
  {
    b / Pow2(8 - prioBits)
  }

  /** A priority survives the byte exactly when it uses only the implemented bits. */
  lemma ByteRoundTrip(priority: U32, prioBits: nat)
    requires Width(prioBits)
    ensures ByteToPriority(PriorityByte(priority, prioBits), prioBits) == LowBits(priority, prioBits)
    ensures ByteToPriority(PriorityByte(priority, prioBits), prioBits) == priority
            <==> priority < Pow2(prioBits)
  {
    var c, w := Pow2(8 - prioBits), Pow2(prioBits);
    Pow2At8();
    Pow2Add(8 - prioBits, prioBits);
    LowBitsRange(priority, prioBits);
    ShiftThereAndBack(priority, w, c);
  }

  /** The implemented bits end up at the top of the byte, above zeros. */
  lemma ByteIsShifted(priority: U32, prioBits: nat)
    requires Width(prioBits)
    ensures PriorityByte(priority, prioBits) == priority % Pow2(prioBits) * Pow2(8 - prioBits)
  {
    var c, w := Pow2(8 - prioBits), Pow2(prioBits);
    Pow2At8();
    Pow2Add(8 - prioBits, prioBits);
    ShiftedResidue(priority, priority / w, priority % w, w, c);
  }

  lemma ShiftThereAndBack(x: int, w: int, c: int)
    requires 0 < w && 0 < c && c * w == 0x100
    ensures x * c % 0x100 / c == x % w
  {
    var q, r := x / w, x % w;
    ShiftedResidue(x, q, r, w, c);
    DivUnique(r * c, c, r, 0);
  }

  lemma ShiftedResidue(x: int, q: int, r: int, w: int, c: int)
    requires x == q * w + r && 0 <= r < w && 0 < c && c * w == 0x100
    ensures 0 <= r * c < w * c == 0x100
    ensures x * c % 0x100 == r * c
  {
    MulNonNeg(r, c);
    MulMono(r, w - 1, c);
    assert (w - 1) * c == w * c - c;
    assert x * c == q * (w * c) + r * c by {
      assert (q * w + r) * c == q * (w * c) + r * c;
    }
    DivUnique(x * c, 0x100, q, r * c);
  }

  /** `(((uint32_t)irqn) & 0xF) - 4`: the system handlers -12..-1 use bytes 0..11. */
  lemma HandlerIndex(irqn: int)
    requires -12 <= irqn < 0
    ensures U32Of(irqn) % 0x10 - 4 == irqn + 12
  {}

  class PriorityRegisters {
    const prioBits: nat
    const IP: array<U8>
    const SHP: array<U8>

    ghost predicate Valid() {
      Width(prioBits) && SHP.Length == 12 && IP != SHP
    }

    /** Device interrupts are numbered from 0; configurable system exceptions are -12..-1. */
    ghost predicate HasPriority(irqn: int)
    {
      -12 <= irqn < IP.Length
    }

    ghost function ByteOf(irqn: int): U8
      requires Valid() && HasPriority(irqn)
      reads IP, SHP
    {
      if irqn >= 0 then IP[irqn] else SHP[irqn + 12]
    }

    constructor (bits: nat, interrupts: nat)
      requires Width(bits)
      ensures Valid() && fresh(IP) && fresh(SHP)
      ensures prioBits == bits && IP.Length == interrupts
    {
      prioBits := bits;
      IP := new U8[interrupts](_ => 0);
      SHP := new U8[12](_ => 0);
    }

    /**
     Interrupt n has byte n of IP; the exception numbered 16 + irqn has byte (16 + irqn) - 4 of
     SHP, so that MemManage, number 4, comes first and SysTick, number 15, last. The upper bits
     of that byte receive the implemented bits of the priority and its other bits are cleared;
     every other byte of both arrays is kept.
     */
    method SetPriority(irqn: int, priority: U32)
      requires Valid() && HasPriority(irqn)
      modifies IP, SHP
      ensures var b := PriorityByte(priority, prioBits);
              if irqn >= 0 then IP[..] == old(IP[..])[irqn := b] && SHP[..] == old(SHP[..])
              else SHP[..] == old(SHP[..])[(16 + irqn) - 4 := b] && IP[..] == old(IP[..])
      ensures PriorityByte(priority, prioBits) == priority % Pow2(prioBits) * Pow2(8 - prioBits)
      ensures ByteOf(irqn) == PriorityByte(priority, prioBits)
      ensures forall other :: HasPriority(other) && other != irqn ==> ByteOf(other) == old(ByteOf(other))
    {
      if irqn >= 0 {
        IP[irqn] := PriorityByte(priority, prioBits);
      } else {
        HandlerIndex(irqn);
        SHP[U32Of(irqn) % 0x10 - 4] := PriorityByte(priority, prioBits);
      }
      ByteIsShifted(priority, prioBits);
    }

    method GetPriority(irqn: int) returns (priority: int)
      requires Valid() && HasPriority(irqn)
      ensures priority == ByteToPriority(ByteOf(irqn), prioBits)
      ensures priority == (if irqn >= 0 then IP[irqn] else SHP[(16 + irqn) - 4]) / Pow2(8 - prioBits)
    {
      if irqn >= 0 {
        priority := IP[irqn] / Pow2(8 - prioBits);
      } else {
        HandlerIndex(irqn);
        priority := SHP[U32Of(irqn) % 0x10 - 4] / Pow2(8 - prioBits);
      }
    }

    /** What is set is read back, for interrupts and system exceptions alike. */
    method SetThenGet(irqn: int, group: U32, preempt: U32, sub: U32) returns (priority: int)
      requires Valid() && HasPriority(irqn)
      modifies IP, SHP
      ensures priority == Encode(group, preempt, sub, prioBits)
    {
      EncodedIsWord(group, preempt, sub, prioBits);
      EncodedBelow(group, preempt, sub, prioBits);
      ByteRoundTrip(Encode(group, preempt, sub, prioBits), prioBits);
      SetPriority(irqn, Encode(group, preempt, sub, prioBits));
      priority := GetPriority(irqn);
    }
  }

  // ---------------------------------------------------------------------------
  // What the processor sees
  // ---------------------------------------------------------------------------

  /** The group priority of a priority byte: bits 7 down to PRIGROUP + 1 (ARMv7-M, section B1.5.4). */
  function GroupPriority(b: U8, group: U32): int { b / Pow2(group % 8 + 1) }

  /**
   One configured interrupt preempts another exactly when its truncated preemption priority is
   lower: the subpriority never decides preemption, for any grouping and any width.
   */
  lemma PreemptionIsPreemptPriority(group: U32, p: U32, s: U32, p': U32, s': U32, prioBits: nat)
    requires Width(prioBits)
    ensures Encode(group, p, s, prioBits) < 0x100 && Encode(group, p', s', prioBits) < 0x100
    ensures GroupPriority(PriorityByte(Encode(group, p, s, prioBits), prioBits), group)
            < GroupPriority(PriorityByte(Encode(group, p', s', prioBits), prioBits), group)
            <==> LowBits(p, PreemptBits(group, prioBits)) < LowBits(p', PreemptBits(group, prioBits))
  {
    GroupOfByte(group, p, s, prioBits);
    GroupOfByte(group, p', s', prioBits);
    var pb := PreemptBits(group, prioBits);
    var unused := 8 - group % 8 - 1 - pb;
    ScaledOrder(LowBits(p, pb), LowBits(p', pb), Pow2(unused));
  }

  lemma ScaledOrder(q: int, q': int, c: int)
    requires 0 < c
    ensures q * c < q' * c <==> q < q'
  {}

  /** The group field holds the preemption priority, above whatever bits of it are not implemented. */
  lemma GroupOfByte(group: U32, p: U32, s: U32, prioBits: nat)
    requires Width(prioBits)
    ensures Encode(group, p, s, prioBits) < 0x100
    ensures group % 8 + 1 + PreemptBits(group, prioBits) <= 8
    ensures GroupPriority(PriorityByte(Encode(group, p, s, prioBits), prioBits), group)
            == LowBits(p, PreemptBits(group, prioBits))
               * Pow2(8 - group % 8 - 1 - PreemptBits(group, prioBits))
  {
    var pb, sb := PreemptBits(group, prioBits), SubBits(group, prioBits);
    EncodedIsWord(group, p, s, prioBits);
    ByteOfEncoded(group, p, s, prioBits);
    LowBitsRange(s, sb);
    GroupQuotient(LowBits(p, pb), LowBits(s, sb), group % 8, pb, sb, prioBits);
  }

  lemma GroupQuotient(q: int, r: int, g: nat, pb: nat, sb: nat, prioBits: nat)
    requires 0 <= r < Pow2(sb) && g < 8 && prioBits <= 8
    requires if 7 - g > prioBits then pb == prioBits && sb == 0 else pb == 7 - g && sb == g - 7 + prioBits
    ensures g + 1 + pb <= 8
    ensures (q * Pow2(sb) + r) * Pow2(8 - prioBits) / Pow2(g + 1) == q * Pow2(8 - g - 1 - pb)
  {
    assert Pow2(0) == 1;
    if 7 - g > prioBits {
      NarrowQuotient(q, g, prioBits);
    } else {
      WideQuotient(q, r, sb, 8 - prioBits);
    }
  }

  lemma NarrowQuotient(q: int, g: nat, prioBits: nat)
    requires prioBits < 7 - g
    ensures q * Pow2(8 - prioBits) / Pow2(g + 1) == q * Pow2(7 - g - prioBits)
  {
    Pow2Add(7 - g - prioBits, g + 1);
    UnusedAbove(q, Pow2(7 - g - prioBits), Pow2(g + 1));
  }

  lemma WideQuotient(q: int, r: int, sb: nat, shift: nat)
    requires 0 <= r < Pow2(sb)
    ensures (q * Pow2(sb) + r) * Pow2(shift) / Pow2(sb + shift) == q
  {
    Pow2Add(sb, shift);
    FieldAbove(q, r, Pow2(sb), Pow2(shift));
  }

  lemma ByteOfEncoded(group: U32, p: U32, s: U32, prioBits: nat)
    requires Width(prioBits)
    ensures Encode(group, p, s, prioBits) < 0x100
    ensures PriorityByte(Encode(group, p, s, prioBits), prioBits)
            == Encode(group, p, s, prioBits) * Pow2(8 - prioBits)
  {
    var v := Encode(group, p, s, prioBits);
    EncodedIsWord(group, p, s, prioBits);
    EncodedBelow(group, p, s, prioBits);
    Pow2At8();
    Pow2Add(8 - prioBits, prioBits);
    ShiftedResidue(v, 0, v, Pow2(prioBits), Pow2(8 - prioBits));
  }

  lemma UnusedAbove(q: int, u: int, low: int)
    requires 0 < low
    ensures q * (u * low) / low == q * u
  {
    assert q * (u * low) == q * u * low;
    DivUnique(q * (u * low), low, q * u, 0);
  }

  lemma FieldAbove(q: int, r: int, a: int, c: int)
    requires 0 <= r < a && 0 < c
    ensures 0 < a * c
    ensures (q * a + r) * c / (a * c) == q
  {
    MulNonNeg(r, c);
    MulMono(r, a - 1, c);
    assert (a - 1) * c == a * c - c;
    assert (q * a + r) * c == q * (a * c) + r * c;
    DivUnique((q * a + r) * c, a * c, q, r * c);
  }
}
