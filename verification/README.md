# fp16: a verified model of the F16 word and its conversions

The crate defines `F16`, a 16-bit floating-point word that is not IEEE
half precision. It has 1 sign bit, 7 exponent bits with bias 64 and 8
mantissa bits with an implicit leading one, so a word denotes
(-1)^sign * 2^(exponent - 64) * 1.mantissa. The all-zero word is zero.
There are no infinities, NaNs or subnormals. The crate converts
`F16` to `f32` and `f64` exactly, and converts back with `TryFrom`, which:

- rejects non-finite inputs;
- sends a dead zone around zero to `ZERO`;
- rejects values beyond `MAX`/`MIN`;
- otherwise rounds by adding half a unit in the last F16 place to the
  raw bits and reading the fields off the top.

The model works entirely on bit patterns, as the code does:

- `RustInt` holds Rust's `i32` as a two's-complement `bv32`. It writes
  out the `as u16` (truncate) and `as u64` (sign-extend) casts the code
  uses.
- `F16Format` is the word, its constants and its accessors `exponent`,
  `sign_bit` and `mantissa_bits`.
- `Binary32` and `Binary64` are `f32` and `f64` seen through their IEEE
  754-2019 bit patterns. They define `is_finite`, and `<` and `<=` on
  finite values, where +0 equals -0. Each module relates these
  comparisons to an unsigned key for the order of the values, like the
  totalOrder predicate of section 5.10 of IEEE 754-2019 but with both
  zeros sharing one key.
- `Conversion` holds the four conversions, written as the code writes
  them. The `u32`/`u64` addition of the rounding increment is a wrapping
  bit-vector addition.
- `F32Conversion` and `F64Conversion` prove the properties of the
  conversions. Each also holds the crate's exhaustive round-trip test as
  a loop over every word; the loop passes because each iteration applies
  the round-trip lemma RoundTrip, which carries the proof.

The model follows the code on two points where a reader might expect
otherwise:

- Out-of-range values are not clamped to `MAX`/`MIN`; they are rejected.
- Ties are not rounded to even. Adding half a unit and truncating rounds
  the magnitude half up, so ties go away from zero.

The dead zone is asymmetric:

- -2^-64 is `MAX_NEGATIVE` itself, because the comparison with it is
  strict.
- +2^-64 is not representable, since its word would be `ZERO`. It lies
  inside the dead zone, which on the positive side reaches up to
  `MIN_POSITIVE` = 2^-64 * (1 + 1/256).

## Model

| member | source | states |
|---|---|---|
| F16Format.ToBits | src/lib.rs:33-36 | no `ensures` of its own (it reads the word); its contract is in F16Format.BitsRoundTrip and F16Format.EqualIffBitsEqual |
| F16Format.Exponent | src/lib.rs:43-45 | no `ensures` of its own (the accessor as written); its contract is in F16Format.ExponentInRange, F16Format.AccessorsUseNamedMasks and F16Format.FieldsCompose |
| F16Format.SignBit | src/lib.rs:47-49 | no `ensures` of its own; its contract is in F16Format.SignBitValues, F16Format.AccessorsUseNamedMasks and F16Format.FieldsCompose |
| F16Format.MantissaBits | src/lib.rs:51-53 | no `ensures` of its own; its contract is in F16Format.MantissaInRange, F16Format.AccessorsUseNamedMasks and F16Format.FieldsCompose |
| F16Format.FromBits | src/lib.rs:38-41 | the word built from `b` has bits `b` |
| F16Format.BitsRoundTrip | src/lib.rs:33-41 | `to_bits(from_bits(b)) == b` and `from_bits(to_bits(x)) == x` |
| F16Format.EqualIffBitsEqual | src/lib.rs:10-14 | the derived equality is equality of the 16-bit words |
| F16Format.AccessorsUseNamedMasks | src/lib.rs:43-53 | the three accessors are the masks `SIGN_MASK`, `EXPONENT_MASK` (shifted by `MANTISSA_BITS`, minus `EXPONENT_BIAS`) and `MANTISSA_MASK` |
| F16Format.ExponentInRange | src/lib.rs:43-45 | the exponent, as an `i32`, lies in [-64, 63], and adding the bias back gives the stored exponent field |
| F16Format.SignBitValues | src/lib.rs:47-49 | the sign bit is 0 or 0x8000, and 0x8000 exactly when the word's top bit is set |
| F16Format.MantissaInRange | src/lib.rs:51-53 | the mantissa is below 256 and is the word's low byte |
| F16Format.MasksPartitionWord | src/lib.rs:17-22 | the three masks are pairwise disjoint and cover all 16 bits |
| F16Format.FieldsCompose | src/lib.rs:43-53 | sign, re-biased exponent and mantissa reassemble the word, so two words with equal fields are equal |
| F16Format.ConstantFields | src/lib.rs:27-31 | the fields of `ZERO`, `MAX`, `MIN`, `MIN_POSITIVE` and `MAX_NEGATIVE` (MAX: sign 0, exponent 63, mantissa 0xFF; MIN is MAX with the sign set; MIN_POSITIVE: exponent -64, mantissa 1; MAX_NEGATIVE: sign set, exponent -64, mantissa 0) |
| RustInt.I32ToU64 | src/conversion.rs:24 | `as u64` keeps the low 32 bits; a non-negative `i32` is zero-extended, and a negative one gets all upper bits set |
| RustInt.I32ToU16 | src/conversion.rs:48 | `as u16` keeps the low 16 bits, and keeps the value of an `i32` in [0, 0xFFFF] |
| Binary32.IsFinite | src/conversion.rs:38 | no `ensures` of its own (the exponent field is not all ones); its contract is in Binary32.BiasedExponent and F32Conversion.NarrowRejects |
| Binary32.Lt | src/conversion.rs:39 | no `ensures` of its own (sign-magnitude `<` with +0 equal to -0); its contract is in Binary32.ComparisonsFollowOrderKey, Binary32.LeIsNotFlippedLt and F32Conversion.DeadZoneBounds |
| Binary32.Le | src/conversion.rs:41 | no `ensures` of its own (sign-magnitude `<=`); its contract is in Binary32.ComparisonsFollowOrderKey, Binary32.LeIsNotFlippedLt and F32Conversion.RangeBounds |
| Binary32.BiasedExponent | src/conversion.rs:10 | the biased exponent field that widening writes at bit 23: shifted back it is exactly the pattern's exponent bits, it is at most 0xFF, and it is all ones exactly when the `f32` is not finite |
| Binary32.ComparisonsFollowOrderKey | src/conversion.rs:39-41 | on finite `f32` values, `<` and `<=` are the unsigned order of the key, in which both zeros share a key |
| Binary32.OrderKeyTies | src/conversion.rs:39-41 | two patterns share a key exactly when they are equal or are +0 and -0 |
| Binary32.LeIsNotFlippedLt | src/conversion.rs:39-41 | `a <= b` exactly when not `b < a`: the comparisons are total on finite values |
| Binary64.IsFinite | src/conversion.rs:62 | no `ensures` of its own (the exponent field is not all ones); its contract is in Binary64.BiasedExponent and F64Conversion.NarrowRejects |
| Binary64.Lt | src/conversion.rs:63 | no `ensures` of its own (sign-magnitude `<` with +0 equal to -0); its contract is in Binary64.ComparisonsFollowOrderKey, Binary64.LeIsNotFlippedLt and F64Conversion.DeadZoneBounds |
| Binary64.Le | src/conversion.rs:65 | no `ensures` of its own (sign-magnitude `<=`); its contract is in Binary64.ComparisonsFollowOrderKey, Binary64.LeIsNotFlippedLt and F64Conversion.RangeBounds |
| Binary64.BiasedExponent | src/conversion.rs:24 | the biased exponent field that widening writes at bit 52: shifted back it is exactly the pattern's exponent bits, it is at most 0x7FF, and it is all ones exactly when the `f64` is not finite |
| Binary64.ComparisonsFollowOrderKey | src/conversion.rs:63-65 | on finite `f64` values, `<` and `<=` are the unsigned order of the key, in which both zeros share a key |
| Binary64.OrderKeyTies | src/conversion.rs:63-65 | two patterns share a key exactly when they are equal or are +0 and -0 |
| Binary64.LeIsNotFlippedLt | src/conversion.rs:63-65 | `a <= b` exactly when not `b < a` on finite values |
| Conversion.F16ToF32 | src/conversion.rs:3-15 | no `ensures` of its own (widening as written); its contract is in F32Conversion.WidenFields, F32Conversion.WidenFormula, F32Conversion.WidenInjective and F32Conversion.RoundTrip |
| Conversion.F32ToF16 | src/conversion.rs:33-55 | no `ensures` of its own (narrowing as written); its contract is in F32Conversion.NarrowRejects, F32Conversion.NarrowToZero, F32Conversion.RoundsHalfUp, F32Conversion.RoundingKeepsSign and F32Conversion.RoundTrip |
| Conversion.F16ToF64 | src/conversion.rs:17-29 | no `ensures` of its own; its contract is in F64Conversion.WidenFields, F64Conversion.WidenFormula, F64Conversion.WidenInjective and F64Conversion.RoundTrip |
| Conversion.F64ToF16 | src/conversion.rs:57-78 | no `ensures` of its own; its contract is in F64Conversion.NarrowRejects, F64Conversion.NarrowToZero, F64Conversion.RoundsHalfUp, F64Conversion.RoundingKeepsSign and F64Conversion.RoundTrip |
| F32Conversion.WidenedConstants | src/conversion.rs:39-41 | the widened `MAX_NEGATIVE`, `MIN_POSITIVE`, `MAX`, `MIN` are -2^-64, 2^-64 * (1 + 2^-8), (2 - 2^-8) * 2^63 and its negative |
| F32Conversion.DeadZoneBounds | src/conversion.rs:39-40 | the two strict comparisons that give `ZERO` hold exactly on the dead zone, stated on sign and magnitude bits |
| F32Conversion.RangeBounds | src/conversion.rs:41 | the two comparisons with the widened `MIN` and `MAX` hold exactly when the magnitude is at most `MAX`'s |
| F32Conversion.WidenFormula | src/conversion.rs:3-15 | widening a non-zero word re-biases its 15 low bits by 0x3F00, shifts them up 15 places and moves the sign to bit 31 |
| F32Conversion.NarrowFormula | src/conversion.rs:41-50 | in the rounding branch the result is `Ok`, and its word is the inverse formula applied to the input plus 2^14 |
| F32Conversion.RoundingBranch | src/conversion.rs:41-50 | the widened result of the rounding branch is the input plus half a unit with the 15 bits below the unit cleared |
| F32Conversion.RoundingNonZero | src/conversion.rs:41-50 | the rounding branch never yields `ZERO` |
| F32Conversion.RoundingStaysInRange | src/conversion.rs:42-48 | adding 2^14 cannot wrap the `u32`, the exponent it leads to lies in [-64, 63], and the re-biased exponent fits in 7 bits |
| F32Conversion.FloorBracketsInput | src/conversion.rs:43-49 | the floor HalfUp starts from is a multiple of 2^15, at most the magnitude and less than a unit below it; the low 15 bits are magnitude minus floor |
| F32Conversion.FloorIsGreatestMultiple | src/conversion.rs:43-49 | every multiple of 2^15 not above the magnitude is at most the floor |
| F32Conversion.HalfUpWithinHalfUnit | src/conversion.rs:43-49 | rounding half up moves a magnitude by at most half a unit up and by less than half a unit down |
| F32Conversion.HalfUpTiesGoUp | src/conversion.rs:43-49 | a magnitude halfway between two multiples goes up by exactly half a unit |
| F32Conversion.HalfUpKeepsMultiples | src/conversion.rs:43-49 | a magnitude already on the F16 grid is unchanged |
| F32Conversion.RoundedPatternIsHalfUp | src/conversion.rs:43-49 | adding half a unit and clearing the low bits keeps the sign and rounds the magnitude half up |
| F32Conversion.RoundsHalfUp | src/conversion.rs:41-50 | narrowing an input in range gives `Ok`; widened back, the result has the input's sign and its magnitude rounded half up |
| F32Conversion.NarrowOfFormula | src/conversion.rs:33-55 | narrowing the widening formula of any non-zero word gives that word back |
| F32Conversion.RoundTrip | src/conversion.rs:86-88 | for every word `x`, `try_from(f32::from(x)) == Ok(x)` |
| F32Conversion.AllWordsRoundTrip | src/conversion.rs:84-90 | the exhaustive test loop over all 65,536 words passes, by F32Conversion.RoundTrip on each word |
| F32Conversion.WidenInjective | src/conversion.rs:3-15 | distinct words widen to distinct `f32` patterns |
| F32Conversion.WidenFields | src/conversion.rs:3-15 | a widened word is finite, and it is zero (never -0) exactly for `ZERO`; otherwise its biased exponent is the F16 exponent plus 127, in [63, 190], its sign is the word's, its top fraction byte is the mantissa and its low 15 bits are zero |
| F32Conversion.NarrowRejects | src/conversion.rs:33-55 | narrowing fails exactly on infinities, NaNs and magnitudes above `MAX`'s |
| F32Conversion.NarrowToZero | src/conversion.rs:38-40 | narrowing gives `ZERO` exactly on finite values in the dead zone |
| F32Conversion.RoundingKeepsSign | src/conversion.rs:43-50 | in the rounding branch the result's sign bit is set exactly when the input is negative |
| F32Conversion.DeadZoneExamples | src/conversion.rs:39-40 | 2^-64 gives `ZERO`, -2^-64 gives `MAX_NEGATIVE`, and -0 and the smallest subnormal give `ZERO` |
| F32Conversion.NoClampingExamples | src/conversion.rs:41-53 | the next `f32` above `MAX` and below `MIN` are rejected, and so are infinity and NaN |
| F32Conversion.TieExamples | src/conversion.rs:43-49 | 1 + 2^-9 rounds up to word 0x4001, its negative to 0xC001, and the `f32` just below the tie to 0x4000 |
| F64Conversion.WidenedConstants | src/conversion.rs:63-65 | the widened bounds as `f64` patterns |
| F64Conversion.DeadZoneBounds | src/conversion.rs:63-64 | the two strict comparisons that give `ZERO` hold exactly on the dead zone |
| F64Conversion.RangeBounds | src/conversion.rs:65 | the comparisons with the widened `MIN` and `MAX` hold exactly when the magnitude is at most `MAX`'s |
| F64Conversion.WidenFormula | src/conversion.rs:17-29 | widening a non-zero word re-biases its 15 low bits by 0x3BF00, shifts them up 44 places and moves the sign to bit 63 |
| F64Conversion.NarrowFormula | src/conversion.rs:65-73 | in the rounding branch the result is `Ok`, and its word is the inverse formula applied to the input plus 2^43 |
| F64Conversion.RoundingBranch | src/conversion.rs:65-73 | the widened result is the input plus half a unit (2^43) with the 44 bits below the unit cleared |
| F64Conversion.RoundingNonZero | src/conversion.rs:65-73 | the rounding branch never yields `ZERO` |
| F64Conversion.RoundingStaysInRange | src/conversion.rs:66-71 | adding 2^43 cannot wrap the `u64`, and the exponent lies in [-64, 63] with a 7-bit re-biased field |
| F64Conversion.FloorBracketsInput | src/conversion.rs:67-72 | the floor is a multiple of 2^44, at most the magnitude and less than a unit below it |
| F64Conversion.FloorIsGreatestMultiple | src/conversion.rs:67-72 | every multiple of 2^44 not above the magnitude is at most the floor |
| F64Conversion.HalfUpWithinHalfUnit | src/conversion.rs:67-72 | rounding half up moves a magnitude by at most half a unit |
| F64Conversion.HalfUpTiesGoUp | src/conversion.rs:67-72 | a tie goes up by exactly half a unit |
| F64Conversion.HalfUpKeepsMultiples | src/conversion.rs:67-72 | a magnitude already on the F16 grid is unchanged |
| F64Conversion.RoundedPatternIsHalfUp | src/conversion.rs:67-72 | adding half a unit and clearing the low bits keeps the sign and rounds the magnitude half up |
| F64Conversion.RoundsHalfUp | src/conversion.rs:65-73 | narrowing an input in range gives `Ok`; widened back, the result has the input's sign and its magnitude rounded half up |
| F64Conversion.NarrowOfFormula | src/conversion.rs:57-78 | narrowing the widening formula of any non-zero word gives that word back |
| F64Conversion.RoundTrip | src/conversion.rs:94-96 | for every word `x`, `try_from(f64::from(x)) == Ok(x)` |
| F64Conversion.AllWordsRoundTrip | src/conversion.rs:92-98 | the exhaustive test loop over all 65,536 words passes, by F64Conversion.RoundTrip on each word |
| F64Conversion.WidenInjective | src/conversion.rs:17-29 | distinct words widen to distinct `f64` patterns |
| F64Conversion.WidenFields | src/conversion.rs:17-29 | a widened word is finite, and zero exactly for `ZERO`; otherwise its biased exponent is the F16 exponent plus 1023, in [959, 1086], with the word's sign and mantissa on top of the fraction and the low 44 bits zero |
| F64Conversion.NarrowRejects | src/conversion.rs:57-78 | narrowing fails exactly on infinities, NaNs and magnitudes above `MAX`'s |
| F64Conversion.NarrowToZero | src/conversion.rs:62-64 | narrowing gives `ZERO` exactly on finite values in the dead zone |
| F64Conversion.RoundingKeepsSign | src/conversion.rs:67-73 | in the rounding branch the result's sign bit is set exactly when the input is negative |
| F64Conversion.DeadZoneExamples | src/conversion.rs:63-64 | 2^-64 gives `ZERO`, -2^-64 gives `MAX_NEGATIVE`, and -0 and the smallest subnormal give `ZERO` |
| F64Conversion.NoClampingExamples | src/conversion.rs:65-77 | the next `f64` beyond `MAX` and `MIN` are rejected, and so are infinity and NaN |
| F64Conversion.TieExamples | src/conversion.rs:67-72 | 1 + 2^-9 rounds up to 0x4001, its negative to 0xC001, and the `f64` just below the tie to 0x4000 |

## Left out

- The `Debug` implementation (src/lib.rs:56-61) formats through `f32` and writes to a formatter. It is output only.
- The `arithmetic` module (src/lib.rs:5) is not part of this model.
- Floating-point values are modelled only as bit patterns. The real number a word or an `f32`/`f64` denotes is described in comments, not computed.
- `<` and `<=` are defined for finite operands only. The conversions compare only after `is_finite` has held, and the widened constants are finite, so NaN comparisons never arise.
- Rust's debug-build overflow check on the rounding addition is not modelled as a panic. The addition wraps, and RoundingStaysInRange shows that it never does wrap.
- The `From`/`TryFrom` trait plumbing and the unit error type are modelled as plain functions returning `Result`.
- F32Conversion.RoundsHalfUp: rounding is stated against the reference HalfUp and the floor lemmas beside it, not as a direct statement that no F16 value lies closer to the input. That distance form needs chains of bit-vector order reasoning that do not verify within the resource limit.
- F64Conversion.RoundsHalfUp: the same as F32Conversion.RoundsHalfUp.
