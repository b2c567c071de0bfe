# Verified model of the CMSIS fixed-point and device helpers

This project models the parts of the N32L40x firmware tree that contain algorithms rather than
declarations: the fixed-point functions of the DSP header `arm_math.h`, the software fallbacks for
bit operations, the MPU and NVIC helpers, and the clock setup. It proves what those functions
guarantee for every input and over whole runs.

| file | models |
|---|---|
| `FixedPoint.dfy` | two's-complement casts, saturating helpers, shared arithmetic |
| `BitLoops.dfy` | the `__CLZ` and `__RBIT` loops |
| `Reciprocal.dfy` | `arm_recip_q31`, `arm_recip_q15` (Newton-Raphson) |
| `PidLaw.dfy`, `PidQ31.dfy`, `PidQ15.dfy` | the PID law and the two PID controllers, with state, over whole runs |
| `Clarke.dfy`, `Park.dfy`, `FieldOriented.dfy` | the motor transforms, their inverses, and the chain of all four |
| `LinearInterp.dfy`, `InterpQ31Monotone.dfy` | linear table interpolation, and when its Q31 version is monotone |
| `BilinearInterp.dfy`, `BilinearInterpQ31.dfy` | bilinear table interpolation |
| `CircularBuffer.dfy` | circular delay lines, one generic version of the f32/q15/q7 triplets |
| `Mpu.dfy` | region setup and the table loader, with register write semantics |
| `Nvic.dfy` | the priority codec, the priority bytes and group priority |
| `SystemClock.dfy` | PLL factor selection, register encoding, clock decoding |

`dafny verify dfyconfig.toml` checks the whole project.

## Conventions

Values are unbounded integers. Every C cast that can lose information is written out (`Wrap8` to
`Wrap64`, `U32Of`), and `x >> n` on a signed value is floor division. Where the source assigns to a
typed intermediate that provably never overflows, the model gives that intermediate a range type
instead, so that the absence of wrap-around is itself checked. Signed overflow, which C leaves
undefined, is modelled as the two's-complement wrap the target performs. MPU registers follow
section B3.5 and group priority section B1.5.4 of the ARMv7-M Architecture Reference Manual. RCC
masks are those of `firmware/CMSIS/device/n32l40x.h:1181-1292` and `1756-1765`.

## Where the code and its documentation differ

- `arm_pid_q31` is documented to saturate its output (`firmware/CMSIS/core/arm_math.h:4806-4808`);
  the code wraps. `SaturationExactness` gives the exact condition under which the two agree.
- The Clarke and Park transforms are documented to have no risk of overflow because the final
  addition saturates; the casts before it can wrap. `RoundTripFailsOutsideRange`,
  `SecondProductExactness` and `ProductExactness` give the exact ranges. When the sine or cosine is
  exactly -1, some vectors close to the rim of the unit disc are not recovered, even by the nearest
  pair of an angle (`RimVectorFails`); `RoundTripExactness` gives the exact condition for the Park
  pair and `ChainAccuracy` for all four transforms.
- `arm_recip_q31` has a branch for nonpositive inputs, but the iteration only works for positive
  ones: `RecipQ31SignExactness`.
- `arm_linear_interp_q15` and `_q7` are monotone over nonnegative inputs. Over all inputs they are
  monotone exactly when the first table value is not positive or the table has one entry:
  `InterpQ15MonotoneExactness`, `InterpQ7MonotoneExactness`.
- `arm_linear_interp_q31` is not monotone even on a constant table: `InterpQ31NotMonotone`, bounded
  by `InterpQ31BoundedDip`. It is monotone over nonnegative inputs exactly when each segment is;
  a segment always is when it starts on a multiple of 2^21 or reaches another one, and otherwise
  under the exact conditions of `SegmentExactness` and, in closed form for constant segments,
  `FlatSegmentExactness`. `TableExactness` combines them for every nondecreasing table.
- The bilinear functions compare the column index with the number of rows and the row index with the
  number of columns (`firmware/CMSIS/core/arm_math.h:6898-6901`), so interior cells of a table whose
  sides differ by more than one give 0: `RejectionExactness`, `WideTableRejected`.
- `arm_bilinear_interp_q31` shifts its 32-bit sum left by 2, which wraps for cells near -2^31:
  `InterpQ31Exactness`, `InterpQ31Wraps`. It never does when all four values are at least -2^31 + 13,
  and that is the exact limit: `InterpQ31Threshold`.
- `clip_q63_to_q15` does not saturate in two bands of inputs, and `clip_q31_to_q7` leaves most values
  between 8 and 24 bits unsaturated: `ClipQ63ToQ15Exactness`, `ClipQ31ToQ7Exactness`.
- In the third PLL branch the clock is decoded wrongly when the oscillator frequency leaves a
  remainder of 2 or 3 modulo 4, or when twice the requested frequency does not fit 32 bits:
  `DecodedFrequency`, with an accepted request that fails in `ThirdBranchFails`.
- The device header lists multiplier code 15 as a second x16; the decoder reads it as x17:
  `MulCodecExactness`.

## Model

| member | source | states |
|---|---|---|
| `FixedPoint.ClipQ63ToQ31` | firmware/CMSIS/core/arm_math.h:520-525 | the word test and sign flip are saturation to 32 bits, for every 64-bit input |
| `FixedPoint.ClipQ31ToQ15` | firmware/CMSIS/core/arm_math.h:550-555 | saturation to 16 bits, for every 32-bit input |
| `FixedPoint.ClipQ63ToQ15Exactness` | firmware/CMSIS/core/arm_math.h:530-535 | saturates the shifted value if and only if the input is outside [2^30, 2^31) and [-2^31, -2^30), where it is 2^16 off |
| `FixedPoint.ClipQ31ToQ7Exactness` | firmware/CMSIS/core/arm_math.h:540-545 | saturates to 8 bits if and only if the input fits them, exceeds 24 bits, or has the limit as its low byte; below 24 bits it is the low byte |
| `FixedPoint.Mult32x64` | firmware/CMSIS/core/arm_math.h:561-567 | the two partial products fit 64 bits and add up to floor(x*y / 2^32) |
| `FixedPoint.Ssat` | firmware/CMSIS/core/cmsis_gcc.h:1299-1315 | clamps to the signed range of widths 1 to 32, and returns the value for others |
| `FixedPoint.Qadd` | firmware/CMSIS/core/arm_math.h:868-873 | saturating addition |
| `FixedPoint.Qsub` | firmware/CMSIS/core/arm_math.h:879-884 | saturating subtraction |
| `BitLoops.LeadingZeros` | firmware/CMSIS/core/cmsis_iccarm.h:496-509 | a nonzero word with c leading zeros lies in [2^(31-c), 2^(32-c)) |
| `BitLoops.Clz` | firmware/CMSIS/core/cmsis_iccarm.h:496-509 | the mask loop terminates and counts the leading zeros, 32 for zero |
| `BitLoops.Rbit` | firmware/CMSIS/core/cmsis_gcc.h:989-1001 | the loop starts from a copy of the whole word, never lets its shift counter go below zero, and ends with the reversal of all 32 bits |
| `BitLoops.ReversedBit` | firmware/CMSIS/core/cmsis_gcc.h:974-1001 | bit i of the result is bit n-1-i of the word |
| `BitLoops.ReversedInvolution` | firmware/CMSIS/core/cmsis_gcc.h:974-1001 | reversing twice is the identity on 32-bit words |
| `BitLoops.LeadingIsTrailingOfReversed` | firmware/CMSIS/core/cmsis_iccarm.h:496-522 | leading zeros of a nonzero word are the trailing zeros of its reversal |
| `Reciprocal.NewtonResidual` | firmware/CMSIS/core/arm_math.h:604-611 | exact residual recurrence of one truncated Newton step, at any width |
| `Reciprocal.IterationIsClipped31` | firmware/CMSIS/core/arm_math.h:604-611 | for every input and estimate except two -2^31, only the final clip does anything to the Newton step |
| `Reciprocal.IterationQ31` | firmware/CMSIS/core/arm_math.h:604-611 | for a normalised input and any nonnegative estimate the clip never saturates, the estimate never overshoots, and the residual is at most its square over 2^61 plus 3x |
| `Reciprocal.NewtonLoopQ31` | firmware/CMSIS/core/arm_math.h:602-611 | the loop applies the iteration twice to the seed; both 64-bit products of each pass are range-typed, so they fit for every input and estimate |
| `Reciprocal.NormalisesPositive31` | firmware/CMSIS/core/arm_math.h:583-599 | a positive input is scaled exactly into [2^30, 2^31) and the table index is its upper seven bits less 64 |
| `Reciprocal.NormalisesNonPositive31` | firmware/CMSIS/core/arm_math.h:583-599 | negative inputs are scaled exactly into (-2^31, -2^30] and zero to zero, with their table index |
| `Reciprocal.RecipQ31Accuracy` | firmware/CMSIS/core/arm_math.h:573-617 | with a seed within 2^-7, the result is less than 12 units below the true reciprocal and the returned exponent undoes the normalisation |
| `Reciprocal.RecipQ31` | firmware/CMSIS/core/arm_math.h:573-617 | the whole function computes two iterations from the table seed, with the accuracy above for every positive input |
| `Reciprocal.RecipQ31MidpointTable` | firmware/CMSIS/core/arm_math.h:597-611 | a table of cell midpoints meets the seed hypothesis, so the bound is unconditional for it |
| `Reciprocal.RecipQ31SignExactness` | firmware/CMSIS/core/arm_math.h:583-611 | for every input and every table without negative seeds, the result is nonnegative, and input times result is positive if and only if the input is positive and its seed is not 0 |
| `Reciprocal.IterationIsWrapped15` | firmware/CMSIS/core/arm_math.h:655-662 | for every input and estimate all the casts amount to one 16-bit wrap of the Newton step |
| `Reciprocal.IterationQ15` | firmware/CMSIS/core/arm_math.h:655-662 | neither the unsigned product nor the unclipped cast wraps, so the commented-out clip would change nothing; same residual bound at scale 2^29 |
| `Reciprocal.NewtonLoopQ15` | firmware/CMSIS/core/arm_math.h:653-662 | the loop applies the iteration twice to the seed |
| `Reciprocal.NormalisesPositive15` | firmware/CMSIS/core/arm_math.h:634-650 | a positive input is scaled exactly into [2^14, 2^15) and the table index is in 0..63 |
| `Reciprocal.NormalisesNonPositive15` | firmware/CMSIS/core/arm_math.h:634-650 | the same for other inputs, down to -2^14 and zero |
| `Reciprocal.RecipQ15Accuracy` | firmware/CMSIS/core/arm_math.h:624-669 | with a seed within 2^-7, the result is less than 4 units below the true reciprocal |
| `Reciprocal.RecipQ15` | firmware/CMSIS/core/arm_math.h:624-669 | the whole function, with that accuracy for every positive input |
| `Reciprocal.RecipQ15MidpointTable` | firmware/CMSIS/core/arm_math.h:648-662 | unconditional bound for the table of cell midpoints |
| `PidLaw.TruncatedSumFollowsLaw` | firmware/CMSIS/core/arm_math.h:4721-4729 | with the derived gains, the recurrence with truncated contributions is the Kp/Ki/Kd law less at most one unit per call, at any scale |
| `PidQ31.PidInstance.Process` | firmware/CMSIS/core/arm_math.h:4810-4839 | one call performs one step of the recurrence on the instance state: state[0] and state[1] hold the last two inputs, state[2] the last output |
| `PidQ31.PidInstance.ProcessBlock` | firmware/CMSIS/core/arm_math.h:4810-4839 | repeated calls perform the run, output by output |
| `PidQ31.RunIsIdealPid` | firmware/CMSIS/core/arm_math.h:4721-4726 | for all gains and all runs from reset, the output is the ideal Kp/Ki/Kd value less a truncation of at most one unit per call, reduced to 32 bits once: intermediate overflow leaves no trace |
| `PidQ31.RunIsAccurateWhenIdealFits` | firmware/CMSIS/core/arm_math.h:4721-4726 | when the ideal value fits the output word, the output is that value truncated by fewer than n units |
| `PidQ31.ScaledInputsDoNotOverflow` | firmware/CMSIS/core/arm_math.h:4801-4807 | inputs scaled down by two bits never overflow the 64-bit accumulator |
| `PidQ31.ScaledRunDoesNotOverflow` | firmware/CMSIS/core/arm_math.h:4801-4807 | no call of any run from reset on such inputs overflows it |
| `PidQ31.SaturationExactness` | firmware/CMSIS/core/arm_math.h:4806-4830 | the output is the saturated one if and only if the unbounded value fits, or is one of two values whose wrap lands on the limit |
| `PidQ15.ScalarInstance.Process` | firmware/CMSIS/core/arm_math.h:4876-4896 | one call of the scalar build, with the same layout of the state |
| `PidQ15.PackedInstance.Process` | firmware/CMSIS/core/arm_math.h:4864-4896 | one call of the packed build, with the same layout of the state |
| `PidQ15.ScalarRunIsClampedSum` | firmware/CMSIS/core/arm_math.h:4876-4896 | for all gains and all runs from reset nothing wraps: the output is the truncated recurrence clamped to 16 bits after every call, and a saturated output is what the next call continues from |
| `PidQ15.ScalarRunFollowsIdeal` | firmware/CMSIS/core/arm_math.h:4721-4726 | from any call on, also a saturated one, the output moves as the ideal Kp/Ki/Kd value does, less at most one unit per call, while that movement fits the output word |
| `PidQ15.ScalarRunIsIdealPid` | firmware/CMSIS/core/arm_math.h:4721-4726 | from reset, while the ideal value of every prefix fits, the output is the ideal value less at most one unit per call |
| `PidQ15.HalvesOfPack` | firmware/CMSIS/core/arm_math.h:936-938 | the first halfword is the low half of a packed word and the second the high half, and sign-extending both gives them back |
| `PidQ15.PackedAccumulatorExcess` | firmware/CMSIS/core/arm_math.h:932-968 | nothing wraps in either build, and the packed accumulator is larger by one exactly when A0 and the input are both negative |
| `PidQ15.PackedStepExactness` | firmware/CMSIS/core/arm_math.h:4857-4897 | the two outputs of one call differ, then by one unit, if and only if both are negative, the accumulator is one short of a multiple of 2^15 and the output is unsaturated |
| `PidQ15.BuildsDiffer` | firmware/CMSIS/core/arm_math.h:4857-4897 | a call with outputs 0 and 1 |
| `PidQ15.PackedRunDrift` | firmware/CMSIS/core/arm_math.h:4857-4897 | over any run the packed output exceeds the scalar one by between 0 and the number of samples with both negative |
| `PidQ15.PackedRunExactForNonNegativeGain` | firmware/CMSIS/core/arm_math.h:4857-4897 | with a nonnegative A0 the two builds agree over every run |
| `Clarke.ConstantsAreRounded` | firmware/CMSIS/core/arm_math.h:5006-5010 | c is the 30-bit rounding of 1/sqrt(3), and the literals are c, 2c and 3c |
| `Clarke.BetaError` | firmware/CMSIS/core/arm_math.h:5006-5013 | Ibeta is (Ia + 2*Ib)*c/2^30 truncated by less than two units |
| `Clarke.ForwardValue` | firmware/CMSIS/core/arm_math.h:4995-5013 | Ialpha is Ia and Ibeta that value saturated, wherever the cast keeps its value |
| `Clarke.ForwardOutsideRange` | firmware/CMSIS/core/arm_math.h:4995-5013 | elsewhere the second product enters the saturating sum 2^32 away, on the other side |
| `Clarke.InverseValue` | firmware/CMSIS/core/arm_math.h:5092-5111 | no cast of the inverse wraps; only its subtraction can saturate |
| `Clarke.SecondProductExactness` | firmware/CMSIS/core/arm_math.h:5009-5010 | the cast keeps its value if and only if the magnitude of Ib is at most 0x6ED9EBA1 |
| `Clarke.RoundTripAccuracy` | firmware/CMSIS/core/arm_math.h:4995-5111 | Ia comes back exactly and Ib within 3 units when nothing wraps or saturates |
| `Clarke.RoundTripUnderSaturation` | firmware/CMSIS/core/arm_math.h:4995-5111 | when Ibeta saturates, the error of Ib is the clipped amount times 3c/2^31, within 5 units |
| `Clarke.RoundTripFailsOutsideRange` | firmware/CMSIS/core/arm_math.h:4995-5111 | when the cast wraps, Ib is off by more than 2^31 |
| `Park.ProductExactness` | firmware/CMSIS/core/arm_math.h:5218-5228 | a product cast loses its value only for (-1)*(-1), which gives -1 |
| `Park.RotationLength` | firmware/CMSIS/core/arm_math.h:5203-5235 | the exact rotation scales the squared length by sin^2 + cos^2 |
| `Park.ForwardInDisc` | firmware/CMSIS/core/arm_math.h:5206-5235 | Id and Iq are the exact rotated coordinates truncated by less than two and one units, even where they saturate |
| `Park.ForwardForAllInputs` | firmware/CMSIS/core/arm_math.h:5206-5235 | for every input, inside the disc or far outside it and wrapped products included, Id and Iq are the rotated coordinates to within one unit, saturated to the word |
| `Park.InverseForAllInputs` | firmware/CMSIS/core/arm_math.h:5319-5348 | the same for Ialpha and Ibeta |
| `Park.RoundTripOnUnitDisc` | firmware/CMSIS/core/arm_math.h:5206-5348 | for every vector in the open unit disc and every sine/cosine pair in the closed one, the round trip is within 4 and 5 units plus the amplitude error, with no assumption on wrapping or saturation |
| `Park.RoundTripExactness` | firmware/CMSIS/core/arm_math.h:5206-5348 | for every vector in the open disc and every sine/cosine pair within rounding of the circle, inside or outside it, that bound holds if and only if `Fits` does: four comparisons on the inputs, which concern pairs with a component of -1 only |
| `Park.RimVectorFails` | firmware/CMSIS/core/arm_math.h:5206-5348 | a vector and the nearest pair of an angle for which it fails, with a result of the opposite sign |
| `Park.RoundedPairIsNear` | firmware/CMSIS/core/arm_math.h:5203-5235 | the nearest fixed-point sine and cosine of every angle, +1 clipped, are within rounding of the circle in that sense |
| `Park.RoundTripUnsaturated` | firmware/CMSIS/core/arm_math.h:5206-5348 | the same bound for all other inputs when no cast wraps and the forward sums do not saturate |
| `FieldOriented.ChainAccuracy` | firmware/CMSIS/core/arm_math.h:4995-5348 | through Clarke, Park, inverse Park and inverse Clarke, for every operating point and every pair within rounding of the circle: Ia moves by at most 6 units and Ib by at most 14 if and only if `Fits` holds |
| `FieldOriented.ChainAccuracyAtEveryAngle` | firmware/CMSIS/core/arm_math.h:4995-5348 | the same if-and-only-if for the nearest sine and cosine of every angle |
| `LinearInterp.BlendQ31Fits` | firmware/CMSIS/core/arm_math.h:5496-5511 | no cast, sum or shift of the interior branch overflows |
| `LinearInterp.InterpQ31Error` | firmware/CMSIS/core/arm_math.h:5471-5513 | for any table and any x, true value minus result is in [-1, 5) units |
| `InterpQ31Monotone.InterpQ31BoundedDip` | firmware/CMSIS/core/arm_math.h:5471-5513 | on a nondecreasing table the result never falls by more than 2 units over x >= 0, nor by more than 4 over all x |
| `InterpQ31Monotone.InterpQ31NotMonotone` | firmware/CMSIS/core/arm_math.h:5471-5513 | a constant table that attains both bounds |
| `InterpQ31Monotone.MonotoneBySegments` | firmware/CMSIS/core/arm_math.h:5471-5513 | on a nondecreasing table the function is monotone over x >= 0 if and only if every segment that x can reach is: joins and the clamped end never dip |
| `InterpQ31Monotone.MonotoneEverywhereExactness` | firmware/CMSIS/core/arm_math.h:5471-5513 | and over all x if and only if in addition the first value is even and not positive, or alone in the table |
| `InterpQ31Monotone.SegmentExactness` | firmware/CMSIS/core/arm_math.h:5496-5511 | a nondecreasing segment is monotone if and only if it starts on a multiple of 2^21 or reaches another one, or every fraction at which the first product loses a unit is one at which the second gains one |
| `InterpQ31Monotone.SmallRiseFails` | firmware/CMSIS/core/arm_math.h:5496-5511 | the segment from 4095 to 4096 is not monotone |
| `InterpQ31Monotone.BlockTableMonotone` | firmware/CMSIS/core/arm_math.h:5471-5513 | monotone over x >= 0 on every table whose segments all start on a multiple of 2^21 or reach another one, in particular when entries rise by at least 2^21 |
| `InterpQ31Monotone.FlatSegmentExactness` | firmware/CMSIS/core/arm_math.h:5496-5511 | a constant segment is monotone if and only if its value is a multiple of 2^21, or even, positive and at most 2^11 times its lowest set bit, or odd with (y + 2^31)/2^11 at most the first gap of its inverse modulo 2^21 |
| `InterpQ31Monotone.FlatOddValues` | firmware/CMSIS/core/arm_math.h:5496-5511 | among positive odd values only 1 is monotone; negative odd ones can be, as all that are 1 modulo 2^21 are |
| `InterpQ31Monotone.TableExactness` | firmware/CMSIS/core/arm_math.h:5471-5513 | every nondecreasing table is monotone over x >= 0 if and only if each reachable segment meets its condition |
| `LinearInterp.InterpQ15Fits` | firmware/CMSIS/core/arm_math.h:5529-5571 | no cast wraps, for any table and any x |
| `LinearInterp.InterpQ7Fits` | firmware/CMSIS/core/arm_math.h:5586-5628 | no 32-bit sum wraps, and the different branch tests decide as in the Q15 version |
| `LinearInterp.BlendRange` | firmware/CMSIS/core/arm_math.h:5558-5569 | a segment's result lies in [min - 1, max] of its ends, sharper by sign |
| `LinearInterp.TruncatedError` | firmware/CMSIS/core/arm_math.h:5529-5571 | the result is the true value truncated downwards, to within 1/32 of a unit |
| `LinearInterp.SegmentsJoin` | firmware/CMSIS/core/arm_math.h:5529-5571 | the last fraction of a segment gives exactly the value at the start of the next |
| `LinearInterp.InterpQ15Monotone` | firmware/CMSIS/core/arm_math.h:5529-5571 | nondecreasing tables give nondecreasing results over all x >= 0, into the clamped end |
| `LinearInterp.InterpQ7Monotone` | firmware/CMSIS/core/arm_math.h:5586-5628 | the same for Q7 |
| `LinearInterp.InterpQ15MonotoneExactness` | firmware/CMSIS/core/arm_math.h:5529-5571 | monotone over all x if and only if the first value is not positive or the table has one entry |
| `LinearInterp.InterpQ7MonotoneExactness` | firmware/CMSIS/core/arm_math.h:5586-5628 | the same for Q7 |
| `BilinearInterp.CornersAreEntries` | firmware/CMSIS/core/arm_math.h:6694-6710 | wherever the four reads lie in the table, they are the documented entries of its row-order layout |
| `BilinearInterp.InteriorCell` | firmware/CMSIS/core/arm_math.h:6694-6710 | for every interior cell of a full table the four reads are in bounds and are those entries |
| `BilinearInterp.OutsideByCoordinates` | firmware/CMSIS/core/arm_math.h:6898-6901 | the early return is taken if and only if x or y is negative, x is at least numRows * 2^20 or y at least numCols * 2^20 |
| `BilinearInterp.ByCoordinatesQ15` | firmware/CMSIS/core/arm_math.h:6873-6941 | for every table and all coordinates: 0 there, in range and accurate everywhere else |
| `BilinearInterp.ByCoordinatesQ7` | firmware/CMSIS/core/arm_math.h:6951-7015 | the same for Q7 |
| `BilinearInterp.IdealIsBilinear` | firmware/CMSIS/core/arm_math.h:6705-6710 | the formula the results are compared with is affine in each fraction and takes the four table values at the corners |
| `BilinearInterp.RejectionExactness` | firmware/CMSIS/core/arm_math.h:6898-6901 | an interior cell is rejected if and only if its column index reaches the number of rows or its row index the number of columns; a full table has no such cell if and only if its sides differ by at most one, or the index cannot reach that far |
| `BilinearInterp.WideTableRejected` | firmware/CMSIS/core/arm_math.h:6898-6901 | a table of 100s, two rows by ten columns, is interpolated as 0 in column 5 |
| `BilinearInterp.Q7IsTwoStep` | firmware/CMSIS/core/arm_math.h:6997-7011 | the accumulator equals the two-step interpolation, first in x then in y, exactly |
| `BilinearInterp.Q15IsTwoStepTruncated` | firmware/CMSIS/core/arm_math.h:6918-6936 | the accumulator is a sixteenth of it, less an exactly bounded truncation |
| `BilinearInterp.InterpQ15Range` | firmware/CMSIS/core/arm_math.h:6873-6941 | the result lies in [min - 1, max] of the four corners if and only if the cell is accepted or 0 lies there; no intermediate overflows |
| `BilinearInterp.InterpQ7Range` | firmware/CMSIS/core/arm_math.h:6951-7015 | the same for Q7 |
| `BilinearInterp.InterpQ15Error` | firmware/CMSIS/core/arm_math.h:6705-6710 | the result is the documented formula truncated by one unit, give or take 1/8, if and only if the cell is accepted or 0 is that accurate |
| `BilinearInterp.InterpQ7Error` | firmware/CMSIS/core/arm_math.h:6705-6710 | the same for Q7, give or take 2^-12 of a unit |
| `BilinearInterp.InteriorQ15` | firmware/CMSIS/core/arm_math.h:6873-6941 | interior cells of full tables: range and accuracy under the two index comparisons, 0 otherwise |
| `BilinearInterp.InteriorQ7` | firmware/CMSIS/core/arm_math.h:6951-7015 | the same for Q7 |
| `BilinearInterp.SquareTables` | firmware/CMSIS/core/arm_math.h:6873-7015 | all interior cells of square tables are in range and accurate |
| `BilinearInterpQ31.InterpQ31Exactness` | firmware/CMSIS/core/arm_math.h:6799-6863 | an accepted cell is within [-2, 24) units of the documented formula if and only if the 3.29 sum is at least -2^29; otherwise the last shift wraps by exactly 2^32; no other operation wraps |
| `BilinearInterpQ31.ByCoordinatesQ31` | firmware/CMSIS/core/arm_math.h:6799-6863 | for every table and all coordinates: 0 outside, accurate if and only if the sum fits everywhere else |
| `BilinearInterpQ31.InterpQ31Threshold` | firmware/CMSIS/core/arm_math.h:6799-6863 | cells of values from v up are all accurate, at every fraction, if and only if v is at least -2^31 + 13 |
| `BilinearInterpQ31.InterpQ31Accuracy` | firmware/CMSIS/core/arm_math.h:6799-6863 | a cell of such values is accurate if and only if it is accepted or 0 is that accurate |
| `BilinearInterpQ31.InteriorQ31` | firmware/CMSIS/core/arm_math.h:6799-6863 | interior cells of full tables: both of these under the two index comparisons, 0 otherwise |
| `BilinearInterpQ31.InterpQ31Wraps` | firmware/CMSIS/core/arm_math.h:6862 | a cell of -2^31 gives +2147483644 |
| `CircularBuffer.CircularWrite` | firmware/CMSIS/core/arm_math.h:5886-5924 | every access is in bounds, the ring holds the written block, the new offset is (start + n*inc) mod L |
| `CircularBuffer.CircularRead` | firmware/CMSIS/core/arm_math.h:5930-5980 | the destination holds the block read, with its own stride and wrap, and the ring is unchanged |
| `CircularBuffer.DstIsStraight` | firmware/CMSIS/core/arm_math.h:5955-5964 | for every stride, until a step hits the end exactly, sample k goes to start + k * stride |
| `CircularBuffer.DstRestarts` | firmware/CMSIS/core/arm_math.h:5955-5964 | the first step that hits it goes to the base, and the walk starts again from there |
| `CircularBuffer.DstIsModular` | firmware/CMSIS/core/arm_math.h:5955-5964 | a stride that divides the region walks it modulo its length, over any number of turns |
| `CircularBuffer.LastReadWins` | firmware/CMSIS/core/arm_math.h:5930-5980 | for all strides the last sample sent to a destination cell is ring[(start + k * inc) mod L] |
| `CircularBuffer.StridedRead` | firmware/CMSIS/core/arm_math.h:5930-5980 | the same by index alone for strides that divide the region, over any number of turns |
| `CircularBuffer.PositionIsModular` | firmware/CMSIS/core/arm_math.h:5913-5916 | one subtraction per step is reduction modulo L for every increment in 0..L |
| `CircularBuffer.LastWriteWins` | firmware/CMSIS/core/arm_math.h:5904-5920 | a ring cell holds the last sample written to its position |
| `CircularBuffer.OtherCellsUnchanged` | firmware/CMSIS/core/arm_math.h:5904-5920 | cells that no sample hits keep their content |
| `CircularBuffer.OtherDstCellsUnchanged` | firmware/CMSIS/core/arm_math.h:5954-5976 | destination cells that no sample hits keep their content |
| `CircularBuffer.WritesCompose` | firmware/CMSIS/core/arm_math.h:5886-5924 | writing a then b is writing a ++ b |
| `CircularBuffer.RunKeepsNewestSamples` | firmware/CMSIS/core/arm_math.h:5886-5924 | after any sequence of block writes of any sizes, the ring read from its offset is the last L of old content ++ everything written |
| `CircularBuffer.ReadBack` | firmware/CMSIS/core/arm_math.h:5886-5980 | reading from the write's start gives the block back, through both wraps |
| `Mpu.MpuRegisters.OrderedCpy` | firmware/CMSIS/core/mpu_armv7.h:246-253 | ordered stores, each of which lands on RBAR..RASR_A3 |
| `Mpu.MpuRegisters.Load` | firmware/CMSIS/core/mpu_armv7.h:259-268 | loading any table through the aliases in chunks of four leaves the state that setting each row in order leaves |
| `Mpu.MpuRegisters.SetRegion` | firmware/CMSIS/core/mpu_armv7.h:223-227 | the region in bits 0 to 3 of the value, or with bit 4 clear the selected one, ends with the value's base and the attributes given, and every other region is unchanged |
| `Mpu.MpuRegisters.SetRegionEx` | firmware/CMSIS/core/mpu_armv7.h:234-239 | the same with the given number in place of the selected one |
| `Mpu.ValidSelects` | firmware/CMSIS/core/mpu_armv7.h:223-239 | a base and a region put together with VALID clear configure the selected region, with VALID set the named one, and no other |
| `Mpu.MpuRegisters.ClrRegion` | firmware/CMSIS/core/mpu_armv7.h:213-217 | the region is disabled and keeps its base, every other is unchanged |
| `Mpu.ChunkIsRows` | firmware/CMSIS/core/core_cm4.h:1223-1236 | up to eight words stored from RBAR on act as the rows they make up |
| `Mpu.LastRowWins` | firmware/CMSIS/core/mpu_armv7.h:259-268 | with VALID set in every row, each region ends with the last row naming it, all others keep their content |
| `Mpu.ReloadChangesNothing` | firmware/CMSIS/core/mpu_armv7.h:259-268 | loading the same table twice is loading it once |
| `Mpu.RbarMacro` | firmware/CMSIS/core/mpu_armv7.h:75-78 | the value has VALID set and both fields read back |
| `Mpu.SetRegionExExactness` | firmware/CMSIS/core/mpu_armv7.h:234-239 | the given region is configured if and only if VALID is clear or the value names that region |
| `Mpu.ClearedRegion` | firmware/CMSIS/core/mpu_armv7.h:213-217 | one region is disabled, every other is unchanged |
| `Nvic.FieldsFillTheWidth` | firmware/CMSIS/core/core_cm4.h:1869-1870 | preemption and sub bits add up to the implemented width, for every grouping |
| `Nvic.DecodePriority` | firmware/CMSIS/core/core_cm4.h:1890-1901 | for every priority, grouping and width the results fit their fields and encode to the implemented bits of the priority |
| `Nvic.DecodeOfEncode` | firmware/CMSIS/core/core_cm4.h:1863-1901 | decoding an encoded pair gives each field truncated to its width |
| `Nvic.EncodeOfDecode` | firmware/CMSIS/core/core_cm4.h:1863-1901 | every implemented value is the encoding of its fields |
| `Nvic.EncodedOrder` | firmware/CMSIS/core/core_cm4.h:1863-1876 | encoded order is lexicographic order on the truncated fields |
| `Nvic.ByteRoundTrip` | firmware/CMSIS/core/core_cm4.h:1816-1849 | a priority survives its byte if and only if it is below 2^width |
| `Nvic.PriorityRegisters.SetPriority` | firmware/CMSIS/core/core_cm4.h:1816-1826 | interrupt n writes byte n of IP, exception number e writes byte e - 4 of SHP; that byte holds the implemented bits of the priority above zeros, and every other byte of both arrays is kept |
| `Nvic.PriorityRegisters.GetPriority` | firmware/CMSIS/core/core_cm4.h:1838-1849 | that same byte, shifted down to the implemented bits |
| `Nvic.PriorityRegisters.SetThenGet` | firmware/CMSIS/core/core_cm4.h:1816-1876 | an encoded priority is read back unchanged |
| `Nvic.PreemptionIsPreemptPriority` | firmware/CMSIS/core/core_cm4.h:1816-1876 | the processor's group priorities compare as the truncated preemption priorities, for any grouping and width |
| `SystemClock.MulRoundTrip` | firmware/CMSIS/device/system_n32l40x.c:361-374 | every multiplier 2..32 is decoded from what SetSysClock writes, whatever the other bits hold |
| `SystemClock.EncodedMultiplierBits` | firmware/CMSIS/device/system_n32l40x.c:652-656 | the field holds the binary digits of mul - 2, or above 16 those of mul - 17 and bit 27 |
| `SystemClock.MulCodecExactness` | firmware/CMSIS/device/system_n32l40x.c:652-656 | a code is the encoding of what it decodes to, except code 15 without bit 27 |
| `SystemClock.Rcc.ResetClockConfiguration` | firmware/CMSIS/device/system_n32l40x.c:226-253 | the two masks together keep exactly bits 14 and 15 |
| `SystemClock.Rcc.SetSysClock` | firmware/CMSIS/device/system_n32l40x.c:566-678 | from any register contents, every PLL and switch bit holds what was asked for, the decoder reads the multiplier back, the requested bus-divider bits are added to those already set, and all other bits are kept |
| `SystemClock.ConfiguredFields` | firmware/CMSIS/device/system_n32l40x.c:576-676 | the sequence of masks and ORs has that effect: no field disturbs another |
| `SystemClock.Rcc.SystemCoreClockUpdate` | firmware/CMSIS/device/system_n32l40x.c:333-417 | the variable is the clock the registers describe, with the MSI range in bits 4 to 6; range 7 is excluded only while MSI is selected |
| `SystemClock.ClockByBits` | firmware/CMSIS/device/system_n32l40x.c:345-410 | for arbitrary register contents, bit by bit: status 01 is HSI, 10 is HSE, 00 is 100 kHz * 2^r or 1 MHz * 2^(r-4), 11 is the PLL from its source, multiplier and divider bits in 32-bit arithmetic |
| `SystemClock.CoreClockByBits` | firmware/CMSIS/device/system_n32l40x.c:411-417 | AHB field values below 8 do not divide, 8 to 11 divide by 2 to 16, 12 to 15 by 64 to 512 |
| `SystemClock.SelectFactorsExactness` | firmware/CMSIS/device/system_n32l40x.c:133-189 | a request is accepted if and only if it is at least 32 MHz and some multiplier of 2 to 32 makes it from half, all or a quarter of the oscillator, which are preferred in this order |
| `SystemClock.DecodedFrequency` | firmware/CMSIS/device/system_n32l40x.c:133-189 | for every accepted request, the decoded PLL clock is the request if and only if the third branch is not taken, or the oscillator is 0 or 1 modulo 4 and the doubled frequency fits 32 bits |
| `SystemClock.ThirdBranchFails` | firmware/CMSIS/device/system_n32l40x.c:178-185 | 34 MHz from 8000002 Hz is accepted and decoded as 34000008 Hz |
| `SystemClock.Rcc.Boot` | firmware/CMSIS/device/system_n32l40x.c:219-417 | initialise, set up, decode: from any register contents the variable holds the request exactly under that condition, and the bus dividers hold exactly what the request asks for |

## Left out

- Functions that `arm_math.h` only declares (FIR, FFT, matrix, DCT, LMS, PID initialisation): no bodies in the tree.
- The float32 versions: rounding is not modelled.
- The fallbacks on halfword and byte lanes (`__QADD8` to `__SMMLA`): only `__SMUAD` and `__SMLALD` are called by a modelled function, and those are modelled.
- RecipQ31: the input -2^31 is excluded, because the source negates it and that overflows.
- RecipQ15: the input -2^15 is excluded, because the source then shifts by a negative amount.
- RecipQ31Accuracy: takes the quality of the seed as a hypothesis, because the contents of the reciprocal tables are not part of this model; `RecipQ31MidpointTable` shows a table that meets it.
- RecipQ15Accuracy: the same hypothesis for the Q15 table.
- Smlald: accumulates in 64 bits as the instruction does; the C fallback adds the two products in 32 bits first, which overflows when both are 2^30, but the packed build does not use the fallback.
- CircularWrite: covers increments 0..L, because the loop corrects the offset only at or above L, and rings of at most 65536 entries, because the offset is stored in 16 bits. Source and destination are assumed not to overlap the ring.
- InterpQ31, InterpQ15, InterpQ7: tables of more than 2^31 entries, whose length the source converts to a negative number, cannot exist on the target and are not treated separately.
- InterpQ15, InterpQ7 and InterpQ31 of the bilinear modules: accepted cells whose four reads do not lie in the table are excluded; the source's tests on row and column do not bound the reads.
- `ARM_MPU_RASR_EX`, `ARM_MPU_ACCESS_NORMAL` and the MPU enable/disable functions: field macros and single stores.
- LastRowWins: regions the device does not implement behave as implemented ones.
- SetSysClock: oscillator and PLL ready-waits, the start-up failure exits, voltage and flash settings, and the MSI, HSI and HSE clock choices; the status bits are taken to follow the switch bits, as the function waits for.
- Inline assembly, barriers, exclusive accesses, the NVIC enable and pending registers, and all peripheral driver headers.
