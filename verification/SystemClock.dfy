/**
 Clock setup: the compile-time choice of PLL factors, the PLL part of SetSysClock that encodes
 them into RCC registers, and SystemCoreClockUpdate, which decodes the registers again.

 A register is the set of its set bit positions, so `&` is `*`, `|` is `+` and `& ~mask` is `-`.
 */
module SystemClock {
  import opened FixedPoint

  type Register = set<nat>

  const SCLKSW: Register := {0, 1}
  const SCLKSTS: Register := {2, 3}
  const AHBPRES: Register := {4, 5, 6, 7}
  const APBPRES: Register := {8, 9, 10, 11, 12, 13}
  const PLLSRC: Register := {16}
  const PLLHSEPRES: Register := {17}
  const PLLMULFCT: Register := {18, 19, 20, 21, 27}

  /** In PLLHSIPRE: the HSI divider and the PLL source divider. */
  const HSI_DIV2: Register := {0}
  const SRCDIV: Register := {1}

  const AHB_PRESC_TABLE: seq<nat> := [0, 0, 0, 0, 0, 0, 0, 0, 1, 2, 3, 4, 6, 7, 8, 9]
  const MSI_CLOCK_TABLE: seq<U32> := [100000, 200000, 400000, 800000, 1000000, 2000000, 4000000]

  predicate Between(lo: nat, b: nat, end: nat) { lo <= b < end }

  /** Bits lo to end - 1 of a register. */
  function Bits(lo: nat, end: nat): Register { set b: nat | b < end && Between(lo, b, end) }

  function Flag(reg: Register, bit: nat): nat { if bit in reg then 1 else 0 }

  /** Four register bits as a number. */
  function Nibble(reg: Register, low: nat): (n: nat)
    ensures n < 16
  {
    Flag(reg, low) + 2 * Flag(reg, low + 1) + 4 * Flag(reg, low + 2) + 8 * Flag(reg, low + 3)
  }

  /** `n << low` for a number below 16. */
  function NibbleBits(n: nat, low: nat): (r: Register)
    requires n < 16
    ensures Nibble(r, low) == n
    ensures r <= {low, low + 1, low + 2, low + 3}
  {
    (if n % 2 == 1 then {low} else {}) + (if n / 2 % 2 == 1 then {low + 1} else {})
    + (if n / 4 % 2 == 1 then {low + 2} else {}) + (if n / 8 % 2 == 1 then {low + 3} else {})
  }

  // ---------------------------------------------------------------------------
  // Factors
  // ---------------------------------------------------------------------------

  datatype Source = Hsi | Hse

  datatype Option<T> = None | Some(value: T)

  /** PLLSRC_DIV, PLL_DIV and PLL_MUL. */
  datatype Factors = Factors(sourceDiv: nat, div2: bool, mul: nat)

  predicate MulInRange(freq: nat, unit: nat)
    requires 0 < unit
  {
    freq % unit == 0 && 2 <= freq / unit <= 32
  }

  /** The preprocessor's choice; `None` is an #error. */
  function SelectFactors(freq: nat, osc: nat): Option<Factors>
    requires 4 <= osc
  {
    if freq < 32000000 then None
    else if MulInRange(freq, osc / 2) then Some(Factors(2, false, freq / (osc / 2)))
    else if MulInRange(freq, osc) then Some(Factors(1, false, freq / osc))
    else if MulInRange(freq, osc / 4) then Some(Factors(2, true, freq / (osc / 4)))
    else None
  }

  /** The PLL multiplier field: multipliers up to 16 as mul - 2, the others as mul - 17 with bit 27. */
  function EncodeMul(mul: nat): (r: Register)
    requires 2 <= mul <= 32
    ensures r <= PLLMULFCT
  {
    if mul <= 16 then NibbleBits(mul - 2, 18) else NibbleBits(mul - 17, 18) + {27}
  }

  /** The decoder works on the masked register shifted right by 18, where bit 27 weighs 512. */
  function DecodeMul(cfg: Register): int {
    var field := cfg * PLLMULFCT;
    var pllmull := Nibble(field, 18) + 512 * Flag(field, 27);
    if field * {27} == {} then pllmull + 2 else pllmull - 496 + 1
  }

  /** Only the bits of the field matter. */
  lemma DecodeMulOfField(cfg: Register, field: Register)
    requires cfg * PLLMULFCT == field * PLLMULFCT
    ensures DecodeMul(cfg) == DecodeMul(field)
  {}

  /** Every multiplier comes back, whatever the other bits of the register hold. */
  lemma MulRoundTrip(mul: nat, rest: Register)
    requires 2 <= mul <= 32 && rest * PLLMULFCT == {}
    ensures DecodeMul(rest + EncodeMul(mul)) == mul
  {
    var code := EncodeMul(mul);
    assert (rest + code) * PLLMULFCT == code;
    if mul > 16 {
      var low := NibbleBits(mul - 17, 18);
      forall b | b in {18, 19, 20, 21}
        ensures Flag(code, b) == Flag(low, b)
      {}
    }
  }

  /**
   The other direction fails for one code: with the four low bits set and bit 27 clear the
   decoder says 17, which the encoder writes with bit 27 (the device header lists that code as
   a second x16). Every other code is the encoding of what it decodes to.
   */
  lemma MulCodecExactness(code: Register)
    requires code <= PLLMULFCT
    ensures 2 <= DecodeMul(code) <= 32
    ensures EncodeMul(DecodeMul(code)) == code <==> code != {18, 19, 20, 21}
  {
    var low := code - {27};
    assert code * PLLMULFCT == code;
    forall b | b in {18, 19, 20, 21}
      ensures Flag(code, b) == Flag(low, b)
    {}
    NibbleDetermines(low, Nibble(low, 18));
    assert 27 in code ==> code == low + {27};
    assert 27 !in code ==> code == low;
    if low == {18, 19, 20, 21} && 27 !in code {
      assert 27 in EncodeMul(DecodeMul(code));
    }
  }

  lemma NibbleDetermines(r: Register, n: nat)
    requires r <= {18, 19, 20, 21} && n < 16 && Nibble(r, 18) == n
    ensures NibbleBits(n, 18) == r
    ensures n == 15 <==> r == {18, 19, 20, 21}
  {}

  // ---------------------------------------------------------------------------
  // The registers and the two functions
  // ---------------------------------------------------------------------------

  /** PLL output as the decoder computes it, in 32-bit arithmetic. */
  function PllClock(mul: int, base: nat, halved: bool): U32 {
    var product := U32Of(base * mul);
    if halved then product / 2 else product
  }

  /** Neither status bit is set. */
  predicate MsiSelected(cfg: Register) { 2 !in cfg && 3 !in cfg }

  /** The table of MSI frequencies has no entry for range 7, which matters only while MSI is selected. */
  function SystemClockOf(cfg: Register, pllhsipre: Register, msiRange: nat, hsi: U32, hse: U32): U32
    requires MsiSelected(cfg) ==> msiRange < 7
  {
    match (Flag(cfg, 3), Flag(cfg, 2))
    case (0, 1) => hsi
    case (1, 0) => hse
    case (1, 1) =>
      var base :=
        if cfg * PLLSRC == {} then (if pllhsipre * HSI_DIV2 != {} then hsi / 2 else hsi)
        else (if cfg * PLLHSEPRES != {} then hse / 2 else hse);
      PllClock(DecodeMul(cfg), base, pllhsipre * SRCDIV == SRCDIV)
    case _ => MSI_CLOCK_TABLE[msiRange]
  }

  /** The core clock after the AHB prescaler. */
  function CoreClock(cfg: Register, pllhsipre: Register, msiRange: nat, hsi: U32, hse: U32): int
    requires MsiSelected(cfg) ==> msiRange < 7
  {
    SystemClockOf(cfg, pllhsipre, msiRange, hsi, hse) / Pow2(AHB_PRESC_TABLE[Nibble(cfg, 4)])
  }

  // ---------------------------------------------------------------------------
  // What the decoder makes of arbitrary register contents
  // ---------------------------------------------------------------------------

  /** AHB field values below 8 do not divide; 8 + k divides by 2^(k+1) up to 16 and by 2^(k+2) from 64 on. */
  lemma AhbDivisors(n: nat)
    requires n < 16
    ensures Pow2(AHB_PRESC_TABLE[n])
            == if n < 8 then 1
               else if n == 8 then 2 else if n == 9 then 4 else if n == 10 then 8 else if n == 11 then 16
               else if n == 12 then 64 else if n == 13 then 128 else if n == 14 then 256 else 512
  {
    Pow2At8();
  }

  /** The four MSI ranges from 100 kHz and the three from 1 MHz double from one to the next. */
  lemma MsiFrequencies(r: nat)
    requires r < 7
    ensures MSI_CLOCK_TABLE[r] == if r < 4 then 100000 * Pow2(r) else 1000000 * Pow2(r - 4)
  {}

  /** Bits 18 to 21 count from 2 while bit 27 is clear and from 17 while it is set. */
  lemma DecodedMultiplierOfBits(cfg: Register)
    ensures DecodeMul(cfg)
            == (if 27 in cfg then 17 else 2)
             + (if 18 in cfg then 1 else 0) + (if 19 in cfg then 2 else 0)
             + (if 20 in cfg then 4 else 0) + (if 21 in cfg then 8 else 0)
  {
    SingleBit(cfg * PLLMULFCT, 27);
  }

  /** The encoder writes the binary digits of mul - 2 or mul - 17 to bits 18 to 21, and bit 27 for the latter. */
  lemma EncodedMultiplierBits(mul: nat)
    requires 2 <= mul <= 32
    ensures var code, n := EncodeMul(mul), if mul <= 16 then mul - 2 else mul - 17;
            && (27 in code <==> mul > 16)
            && (18 in code <==> n % 2 == 1) && (19 in code <==> n / 2 % 2 == 1)
            && (20 in code <==> n / 4 % 2 == 1) && (21 in code <==> n / 8 % 2 == 1)
            && code <= {18, 19, 20, 21, 27}
  {}

  /**
   The decoded clock for arbitrary register contents, bit by bit: status 01 is HSI, 10 is HSE,
   00 is MSI, and 11 is the PLL, fed by HSI or HSE, whole or halved, and possibly halved again.
   */
  lemma ClockByBits(cfg: Register, pllhsipre: Register, msiRange: nat, hsi: U32, hse: U32)
    requires 2 in cfg || 3 in cfg || msiRange < 7
    ensures MsiSelected(cfg) ==> msiRange < 7
    ensures var clock := SystemClockOf(cfg, pllhsipre, msiRange, hsi, hse);
            var mul :=
              (if 27 in cfg then 17 else 2)
              + (if 18 in cfg then 1 else 0) + (if 19 in cfg then 2 else 0)
              + (if 20 in cfg then 4 else 0) + (if 21 in cfg then 8 else 0);
            var base: nat :=
              if 16 in cfg then (if 17 in cfg then hse / 2 else hse)
              else (if 0 in pllhsipre then hsi / 2 else hsi);
            && (2 in cfg && 3 !in cfg ==> clock == hsi)
            && (2 !in cfg && 3 in cfg ==> clock == hse)
            && (2 !in cfg && 3 !in cfg ==>
                  clock == if msiRange < 4 then 100000 * Pow2(msiRange) else 1000000 * Pow2(msiRange - 4))
            && (2 in cfg && 3 in cfg ==>
                  clock == if 1 in pllhsipre then base * mul % 0x1_0000_0000 / 2 else base * mul % 0x1_0000_0000)
  {
    if 2 in cfg || 3 in cfg {
      DecodedMultiplierOfBits(cfg);
      SingleBit(cfg, 16);
      SingleBit(cfg, 17);
      SingleBit(pllhsipre, 0);
      SingleBit(pllhsipre, 1);
    } else {
      MsiFrequencies(msiRange);
    }
  }

  /** The four bits of the AHB field, and what the clock is divided by. */
  lemma CoreClockByBits(cfg: Register, pllhsipre: Register, msiRange: nat, hsi: U32, hse: U32)
    requires MsiSelected(cfg) ==> msiRange < 7
    ensures var n := (if 4 in cfg then 1 else 0) + (if 5 in cfg then 2 else 0)
                   + (if 6 in cfg then 4 else 0) + (if 7 in cfg then 8 else 0);
            var divisor :=
              if n < 8 then 1 else if n == 8 then 2 else if n == 9 then 4 else if n == 10 then 8
              else if n == 11 then 16 else if n == 12 then 64 else if n == 13 then 128
              else if n == 14 then 256 else 512;
            CoreClock(cfg, pllhsipre, msiRange, hsi, hse)
            == SystemClockOf(cfg, pllhsipre, msiRange, hsi, hse) / divisor
  {
    AhbDivisors(Nibble(cfg, 4));
  }

  class Rcc {
    const hsiValue: U32
    const hseValue: U32
    var cfg: Register
    var pllhsipre: Register
    var ctrlsts: Register
    var systemCoreClock: int

    function MsiRange(): nat
      reads this
    {
      Flag(ctrlsts, 4) + 2 * Flag(ctrlsts, 5) + 4 * Flag(ctrlsts, 6)
    }

    function Oscillator(src: Source): U32 {
      if src.Hsi? then hsiValue else hseValue
    }

    constructor (hsi: U32, hse: U32)
      ensures hsiValue == hsi && hseValue == hse
    {
      hsiValue, hseValue := hsi, hse;
      cfg, pllhsipre, ctrlsts, systemCoreClock := {}, {}, {}, 0;
    }

    /** The clock part of SystemInit: its two masks keep only bits 14 and 15 of CFG. */
    method ResetClockConfiguration()
      modifies this
      ensures cfg == old(cfg) * {14, 15}
      ensures pllhsipre == {}
      ensures ctrlsts == old(ctrlsts) + {2} && systemCoreClock == old(systemCoreClock)
    {
      ctrlsts := ctrlsts + {2};
      TwoMasks(cfg);
      cfg := cfg * (Bits(14, 24) + Bits(27, 32));
      cfg := cfg * (Bits(0, 16) + Bits(24, 27));
      pllhsipre := {};
    }

    /**
     SetSysClock for a PLL source, given the factors chosen at compile time: what every bit of
     the two registers holds afterwards.
     */
    method SetSysClock(src: Source, freq: nat, factors: Factors)
      requires 2 <= factors.mul <= 32
      modifies this
      ensures CfgAfter(old(cfg), cfg, src, freq, factors)
      ensures PllhsipreAfter(old(pllhsipre), pllhsipre, src, factors)
      ensures DecodeMul(cfg) == factors.mul
      ensures ctrlsts == old(ctrlsts) && systemCoreClock == old(systemCoreClock)
    {
      ghost var before, beforePre := cfg, pllhsipre;
      cfg := cfg + Apb2Divider(freq);
      cfg := cfg + Apb1Divider(freq);
      cfg := cfg - (PLLSRC + PLLHSEPRES + PLLMULFCT);
      pllhsipre := pllhsipre - (HSI_DIV2 + SRCDIV);
      var rccCfg := cfg + PllSource(src);
      var rccPllhsipre := pllhsipre;
      if src.Hsi? {
        rccPllhsipre := rccPllhsipre + SourceDivider(factors, HSI_DIV2);
      } else {
        rccCfg := rccCfg + SourceDivider(factors, PLLHSEPRES);
      }
      rccPllhsipre := rccPllhsipre + if factors.div2 then SRCDIV else {};
      rccCfg := rccCfg + EncodeMul(factors.mul);
      cfg := rccCfg;
      pllhsipre := rccPllhsipre;
      cfg := cfg - SCLKSW;
      cfg := cfg + SCLKSW;
      cfg := cfg + SCLKSTS;  // the hardware reports the switch; the function waits for it
      assert cfg == ConfiguredCfg(before, src, freq, factors);
      assert pllhsipre == ConfiguredPllhsipre(beforePre, src, factors);
      ConfiguredFields(before, beforePre, src, freq, factors);
    }

    method SystemCoreClockUpdate()
      requires MsiSelected(cfg) ==> MsiRange() < 7
      modifies this
      ensures cfg == old(cfg) && pllhsipre == old(pllhsipre) && ctrlsts == old(ctrlsts)
      ensures systemCoreClock == CoreClock(cfg, pllhsipre, MsiRange(), hsiValue, hseValue)
      ensures MsiRange() == (if 4 in ctrlsts then 1 else 0) + (if 5 in ctrlsts then 2 else 0)
                          + (if 6 in ctrlsts then 4 else 0)
    {
      var tmp := cfg * SCLKSTS;
      var msiClk := MsiRange();
      StatusFlags(cfg);
      if tmp == {2} {
        systemCoreClock := hsiValue;
      } else if tmp == {3} {
        systemCoreClock := hseValue;
      } else if tmp == {2, 3} {
        var field := cfg * PLLMULFCT;
        var pllmull: int := Nibble(field, 18) + 512 * Flag(field, 27);
        if field * {27} == {} {
          pllmull := pllmull + 2;
        } else {
          pllmull := pllmull - 496 + 1;
        }
        if cfg * PLLSRC == {} {
          if pllhsipre * HSI_DIV2 != {} {
            systemCoreClock := U32Of((hsiValue / 2) * pllmull);
          } else {
            systemCoreClock := U32Of(hsiValue * pllmull);
          }
        } else {
          if cfg * PLLHSEPRES != {} {
            systemCoreClock := U32Of((hseValue / 2) * pllmull);
          } else {
            systemCoreClock := U32Of(hseValue * pllmull);
          }
        }
        if pllhsipre * SRCDIV == SRCDIV {
          systemCoreClock := systemCoreClock / 2;
        }
      } else {
        systemCoreClock := MSI_CLOCK_TABLE[msiClk];
      }
      systemCoreClock := systemCoreClock / Pow2(AHB_PRESC_TABLE[Nibble(cfg, 4)]);
    }

    /**
     From any register contents: initialise, set the clock up for an accepted request, and
     decode. The variable then holds the requested frequency exactly under the condition of
     `FactorsAreExact`, which the caller can check on the two constants, and the two bus
     dividers hold exactly what that frequency asks for.
     */
    method Boot(src: Source, freq: U32)
      requires 4 <= Oscillator(src) && SelectFactors(freq, Oscillator(src)).Some?
      modifies this
      ensures systemCoreClock == freq <==> FactorsAreExact(freq, Oscillator(src))
      ensures cfg * APBPRES == Apb1Divider(freq) + Apb2Divider(freq)
    {
      var factors := SelectFactors(freq, Oscillator(src)).value;
      ResetClockConfiguration();
      ghost var reset := cfg;
      SetSysClock(src, freq, factors);
      NoAhbBits(reset, cfg, src, freq, factors);
      BusDividers(reset, cfg, src, freq, factors);
      DecodedFrequency(freq, Oscillator(src));
      ClockOfConfiguration(reset, cfg, {}, pllhsipre, src, freq, factors, MsiRange(), hsiValue, hseValue);
      SystemCoreClockUpdate();
    }
  }

  // ---------------------------------------------------------------------------
  // What SetSysClock leaves in the registers
  // ---------------------------------------------------------------------------

  /** APB2 runs at half the core clock above 32 MHz. */
  function Apb2Divider(freq: nat): Register { if freq > 32000000 then {13} else {} }

  /** APB1 runs at a quarter above 32 MHz and at half above 16 MHz. */
  function Apb1Divider(freq: nat): Register {
    if freq > 32000000 then {8, 10} else if freq > 16000000 then {10} else {}
  }

  function PllSource(src: Source): Register { if src.Hsi? then {} else PLLSRC }

  function SourceDivider(factors: Factors, by2: Register): Register {
    if factors.sourceDiv == 1 then {} else by2
  }

  function ConfiguredCfg(cfg: Register, src: Source, freq: nat, factors: Factors): Register
    requires 2 <= factors.mul <= 32
  {
    ConfiguredWith(cfg, src, freq, factors, EncodeMul(factors.mul))
  }

  function ConfiguredWith(cfg: Register, src: Source, freq: nat, factors: Factors, code: Register): Register {
    var cleared := cfg + Apb2Divider(freq) + Apb1Divider(freq) - (PLLSRC + PLLHSEPRES + PLLMULFCT);
    var sourced := cleared + PllSource(src);
    var divided := if src.Hsi? then sourced else sourced + SourceDivider(factors, PLLHSEPRES);
    divided + code - SCLKSW + SCLKSW + SCLKSTS
  }

  function ConfiguredPllhsipre(pllhsipre: Register, src: Source, factors: Factors): Register {
    var cleared := pllhsipre - (HSI_DIV2 + SRCDIV);
    (if src.Hsi? then cleared + SourceDivider(factors, HSI_DIV2) else cleared)
    + if factors.div2 then SRCDIV else {}
  }

  /**
   Every PLL and switch field holds what was asked for, the bits of the bus dividers are added to
   what those fields held, no field disturbs another, and all other bits are kept.
   */
  ghost predicate CfgAfter(before: Register, after: Register, src: Source, freq: nat, factors: Factors)
    requires 2 <= factors.mul <= 32
  {
    && Bits(0, 4) <= after
    && (8 in after <==> 8 in before || freq > 32000000)
    && (10 in after <==> 10 in before || freq > 16000000)
    && (13 in after <==> 13 in before || freq > 32000000)
    && (16 in after <==> src.Hse?)
    && (17 in after <==> src.Hse? && factors.sourceDiv != 1)
    && after * PLLMULFCT == EncodeMul(factors.mul)
    && forall b: nat ::
         4 <= b && b != 8 && b != 10 && b != 13 && !(16 <= b < 22) && b != 27 ==> (b in after <==> b in before)
  }

  ghost predicate PllhsipreAfter(before: Register, after: Register, src: Source, factors: Factors) {
    && (0 in after <==> src.Hsi? && factors.sourceDiv != 1)
    && (1 in after <==> factors.div2)
    && forall b: nat :: 2 <= b ==> (b in after <==> b in before)
  }

  lemma ConfiguredFields(cfg: Register, pllhsipre: Register, src: Source, freq: nat, factors: Factors)
    requires 2 <= factors.mul <= 32
    ensures CfgAfter(cfg, ConfiguredCfg(cfg, src, freq, factors), src, freq, factors)
    ensures PllhsipreAfter(pllhsipre, ConfiguredPllhsipre(pllhsipre, src, factors), src, factors)
    ensures DecodeMul(ConfiguredCfg(cfg, src, freq, factors)) == factors.mul
  {
    var after, code := ConfiguredCfg(cfg, src, freq, factors), EncodeMul(factors.mul);
    forall b: nat
      ensures b in after <==> ConfiguredBit(cfg, src, freq, factors, code, b)
    {
      BitOfConfiguration(cfg, src, freq, factors, code, b);
    }
    FieldsFromBits(cfg, after, src, freq, factors, code);
    PrescalerFields(pllhsipre, src, factors);
    DecodedMultiplier(after, factors.mul);
  }

  lemma PrescalerFields(pllhsipre: Register, src: Source, factors: Factors)
    ensures PllhsipreAfter(pllhsipre, ConfiguredPllhsipre(pllhsipre, src, factors), src, factors)
  {}

  lemma DecodedMultiplier(after: Register, mul: nat)
    requires 2 <= mul <= 32 && after * PLLMULFCT == EncodeMul(mul)
    ensures DecodeMul(after) == mul
  {
    var code := EncodeMul(mul);
    MulRoundTrip(mul, {});
    assert {} + code == code;
    assert code * PLLMULFCT == code;
    DecodeMulOfField(after, code);
  }

  /** Where a bit of the new configuration comes from. */
  ghost predicate ConfiguredBit(cfg: Register, src: Source, freq: nat, factors: Factors, code: Register, b: nat) {
    || b < 4
    || b in code
    || (b == 16 && src.Hse?)
    || (b == 17 && src.Hse? && factors.sourceDiv != 1)
    || (!(16 <= b < 22 || b == 27) && (b in cfg || b in Apb2Divider(freq) || b in Apb1Divider(freq)))
  }

  lemma BitOfConfiguration(cfg: Register, src: Source, freq: nat, factors: Factors, code: Register, b: nat)
    ensures b in ConfiguredWith(cfg, src, freq, factors, code)
            <==> ConfiguredBit(cfg, src, freq, factors, code, b)
  {}

  lemma FieldsFromBits(cfg: Register, after: Register, src: Source, freq: nat, factors: Factors, code: Register)
    requires 2 <= factors.mul <= 32 && code == EncodeMul(factors.mul)
    requires forall b: nat :: b in after <==> ConfiguredBit(cfg, src, freq, factors, code, b)
    ensures CfgAfter(cfg, after, src, freq, factors)
  {
    assert after * PLLMULFCT == code;
  }

  /** After the reset no stale divider bit is left to be combined with the requested ones. */
  lemma BusDividers(before: Register, after: Register, src: Source, freq: nat, factors: Factors)
    requires 2 <= factors.mul <= 32 && before <= {14, 15} && CfgAfter(before, after, src, freq, factors)
    ensures after * APBPRES == Apb1Divider(freq) + Apb2Divider(freq)
  {
    assert 9 !in before && 11 !in before && 12 !in before;
  }

  lemma NoAhbBits(before: Register, after: Register, src: Source, freq: nat, factors: Factors)
    requires 2 <= factors.mul <= 32 && before <= {14, 15} && CfgAfter(before, after, src, freq, factors)
    ensures after * AHBPRES == {}
  {}

  lemma TwoMasks(cfg: Register)
    ensures cfg * (Bits(14, 24) + Bits(27, 32)) * (Bits(0, 16) + Bits(24, 27)) == cfg * {14, 15}
  {}

  lemma SingleBit(reg: Register, b: nat)
    ensures reg * {b} == {} <==> b !in reg
    ensures reg * {b} == {b} <==> b in reg
  {
    assert b in reg <==> b in reg * {b};
  }

  lemma ClockOfConfiguration(before: Register, cfg: Register, beforePre: Register, pllhsipre: Register,
                             src: Source, freq: nat, factors: Factors, msiRange: nat, hsi: U32, hse: U32)
    requires 2 <= factors.mul <= 32 && CfgAfter(before, cfg, src, freq, factors) && cfg * AHBPRES == {}
    requires PllhsipreAfter(beforePre, pllhsipre, src, factors) && DecodeMul(cfg) == factors.mul
    ensures 2 in cfg
    ensures var osc := if src.Hsi? then hsi else hse;
            CoreClock(cfg, pllhsipre, msiRange, hsi, hse)
            == PllClock(factors.mul, if factors.sourceDiv == 1 then osc else osc / 2, factors.div2)
  {
    AhbNotDivided(cfg);
    assert 2 in Bits(0, 4) && 3 in Bits(0, 4);
    SingleBit(cfg, 16);
    SingleBit(cfg, 17);
    SingleBit(pllhsipre, 0);
    SingleBit(pllhsipre, 1);
  }

  lemma StatusFlags(cfg: Register)
    ensures cfg * SCLKSTS == {2} <==> Flag(cfg, 3) == 0 && Flag(cfg, 2) == 1
    ensures cfg * SCLKSTS == {3} <==> Flag(cfg, 3) == 1 && Flag(cfg, 2) == 0
    ensures cfg * SCLKSTS == {2, 3} <==> Flag(cfg, 3) == 1 && Flag(cfg, 2) == 1
  {
    assert cfg * SCLKSTS == (if 2 in cfg then {2} else {}) + (if 3 in cfg then {3} else {});
  }

  lemma AhbNotDivided(cfg: Register)
    requires cfg * AHBPRES == {}
    ensures Nibble(cfg, 4) == 0 && Pow2(AHB_PRESC_TABLE[Nibble(cfg, 4)]) == 1
  {
    forall b | b in AHBPRES
      ensures b !in cfg
    {
      assert b in cfg ==> b in cfg * AHBPRES;
    }
    assert 4 !in cfg && 5 !in cfg && 6 !in cfg && 7 !in cfg;
  }

  // ---------------------------------------------------------------------------
  // Decoding gives the request back
  // ---------------------------------------------------------------------------

  /**
   The third choice multiplies osc/4, while the decoder halves osc/2 afterwards: the two agree
   exactly when osc/2 is even and the doubled frequency still fits 32 bits.
   */
  predicate FactorsAreExact(freq: nat, osc: nat)
    requires 4 <= osc
  {
    MulInRange(freq, osc / 2) || MulInRange(freq, osc) || (osc % 4 < 2 && freq < 0x8000_0000)
  }

  /** `m` is a multiplier that makes `freq` from `unit`. */
  predicate Makes(m: nat, unit: nat, freq: nat) { 2 <= m <= 32 && m * unit == freq }

  /**
   The compile-time choice: half the oscillator is preferred to the whole, and the whole to a
   quarter; there is a choice exactly when one of them makes a frequency of at least 32 MHz.
   */
  lemma SelectFactorsExactness(freq: nat, osc: nat, m: nat)
    requires 4 <= osc
    ensures 32000000 <= freq && Makes(m, osc / 2, freq) ==> SelectFactors(freq, osc) == Some(Factors(2, false, m))
    ensures 32000000 <= freq && Makes(m, osc, freq) && (forall k: nat :: !Makes(k, osc / 2, freq)) ==>
              SelectFactors(freq, osc) == Some(Factors(1, false, m))
    ensures 32000000 <= freq && Makes(m, osc / 4, freq)
            && (forall k: nat :: !Makes(k, osc / 2, freq) && !Makes(k, osc, freq)) ==>
              SelectFactors(freq, osc) == Some(Factors(2, true, m))
    ensures SelectFactors(freq, osc).Some?
            <==> && 32000000 <= freq
                 && exists k: nat :: Makes(k, osc / 2, freq) || Makes(k, osc, freq) || Makes(k, osc / 4, freq)
  {
    InRangeMakes(freq, osc / 2, m);
    InRangeMakes(freq, osc, m);
    InRangeMakes(freq, osc / 4, m);
  }

  lemma InRangeMakes(freq: nat, unit: nat, m: nat)
    requires 0 < unit
    ensures MulInRange(freq, unit) <==> exists k: nat :: Makes(k, unit, freq)
    ensures Makes(m, unit, freq) ==> freq / unit == m
  {
    forall k: nat | Makes(k, unit, freq)
      ensures freq / unit == k && freq % unit == 0
    {
      DivUnique(freq, unit, k, 0);
    }
    if MulInRange(freq, unit) {
      ExactQuotient(freq, unit);
      assert Makes(freq / unit, unit, freq) by {
        assert freq / unit * unit == unit * (freq / unit);
      }
    }
  }

  lemma DecodedFrequency(freq: U32, osc: U32)
    requires 4 <= osc && SelectFactors(freq, osc).Some?
    ensures var f := SelectFactors(freq, osc).value;
            PllClock(f.mul, if f.sourceDiv == 1 then osc else osc / 2, f.div2) == freq
            <==> FactorsAreExact(freq, osc)
  {
    var f := SelectFactors(freq, osc).value;
    if MulInRange(freq, osc / 2) {
      ExactQuotient(freq, osc / 2);
    } else if MulInRange(freq, osc) {
      ExactQuotient(freq, osc);
    } else {
      ExactQuotient(freq, osc / 4);
      assert osc / 2 == 2 * (osc / 4) + (if osc % 4 < 2 then 0 else 1);
      HalvedProduct(osc / 4, f.mul, freq, osc % 4 < 2);
    }
  }

  /** 34 MHz from a crystal of 8000002 Hz is accepted, but decoded as 34 MHz and 8 Hz. */
  lemma ThirdBranchFails()
    ensures SelectFactors(34000000, 8000002) == Some(Factors(2, true, 17))
    ensures !FactorsAreExact(34000000, 8000002)
    ensures PllClock(17, 8000002 / 2, true) == 34000008
  {
    DivUnique(34000000, 4000001, 8, 1999992);
    DivUnique(34000000, 8000002, 4, 1999992);
    DivUnique(34000000, 2000000, 17, 0);
  }

  lemma ExactQuotient(freq: nat, unit: nat)
    requires 0 < unit && freq % unit == 0
    ensures unit * (freq / unit) == freq
  {}

  lemma HalvedProduct(q: nat, mul: nat, freq: U32, even: bool)
    requires q * mul == freq && 2 <= mul <= 32
    ensures U32Of((2 * q + if even then 0 else 1) * mul) / 2 == freq <==> even && freq < 0x8000_0000
  {
    assert (2 * q) * mul == 2 * freq;
    assert (2 * q + 1) * mul == 2 * freq + mul;
  }
}
