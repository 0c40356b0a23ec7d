/**
 * Conversion between F16 and the IEEE 754 binary32 and binary64 formats,
 * on bit patterns. Widening splices the three F16 fields into the wide
 * encoding; narrowing rejects non-finite and out-of-range inputs, sends a
 * dead zone around zero to ZERO, and otherwise rounds by adding half a unit
 * in the last F16 place to the raw bits and cutting the low bits off.
 * Rust's `u32`/`u64` additions here are wrapping bit-vector additions; the
 * lemma modules show the wrap never happens.
 */
module Conversion {
  import opened RustInt
  import opened F16Format
  import B32 = Binary32
  import B64 = Binary64

  /** The outcome of a narrowing; the error carries no information. */
  datatype Result<T> = Ok(value: T) | Err

  /** `From<F16> for f32`: ZERO is +0, any other word a normal binary32. */
  function F16ToF32(src: F16): bv32 {
    if src == ZERO then 0
    else
      var signBit := (SignBit(src) as bv32) << 16;
      var exponentBits := (Exponent(src) + 127) << 23;
      var mantissaBits := (MantissaBits(src) as bv32) << 15;
      signBit | exponentBits | mantissaBits
  }

  /** `From<F16> for f64`: ZERO is +0, any other word a normal binary64. */
  function F16ToF64(src: F16): bv64 {
    if src == ZERO then 0
    else
      var signBit := (SignBit(src) as bv64) << 48;
      var exponentBits := I32ToU64(Exponent(src) + 1023) << 52;
      var mantissaBits := (MantissaBits(src) as bv64) << 44;
      signBit | exponentBits | mantissaBits
  }

  /** `TryFrom<f32> for F16`. */
  function F32ToF16(src: bv32): Result<F16> {
    if B32.IsFinite(src) then
      if B32.Lt(F16ToF32(MAX_NEGATIVE), src) && B32.Lt(src, F16ToF32(MIN_POSITIVE)) then Ok(ZERO)
      else if B32.Le(F16ToF32(MIN), src) && B32.Le(src, F16ToF32(MAX)) then
        var roundedBits := src + (1 << 14);
        var signBit := ((roundedBits >> 31) as bv16) << 15;
        var exponent := ((roundedBits >> 23) & 0xFF) - 127;
        var exponentBits := I32ToU16(exponent + EXPONENT_BIAS) << 8;
        var mantissaBits := ((roundedBits >> 15) & 0xFF) as bv16;
        Ok(FromBits(signBit | exponentBits | mantissaBits))
      else Err
    else Err
  }

  /** `TryFrom<f64> for F16`. */
  function F64ToF16(src: bv64): Result<F16> {
    if B64.IsFinite(src) then
      if B64.Lt(F16ToF64(MAX_NEGATIVE), src) && B64.Lt(src, F16ToF64(MIN_POSITIVE)) then Ok(ZERO)
      else if B64.Le(F16ToF64(MIN), src) && B64.Le(src, F16ToF64(MAX)) then
        var roundedBits := src + (1 << 43);
        var signBit := ((roundedBits >> 63) as bv16) << 15;
        var exponent := (((roundedBits >> 52) & 0x7FF) as bv32) - 1023;
        var exponentBits := I32ToU16(exponent + EXPONENT_BIAS) << 8;
        var mantissaBits := ((roundedBits >> 44) & 0xFF) as bv16;
        Ok(FromBits(signBit | exponentBits | mantissaBits))
      else Err
    else Err
  }
}
