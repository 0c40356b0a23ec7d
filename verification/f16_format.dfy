/**
 * The F16 word: 1 sign bit, 7 exponent bits with bias 64 and 8 mantissa
 * bits with an implicit leading one, so that a word denotes
 * (-1)^sign * 2^(exponent - 64) * 1.mantissa. The all-zero word is zero;
 * there are no infinities, NaNs or subnormals, and every word is valid.
 */
module F16Format {
  import opened RustInt

  /** The immutable 16-bit word; equality is equality of the words. */
  datatype F16 = F16(bits: bv16)

  const SIGN_MASK: bv16 := 0x8000
  const EXPONENT_MASK: bv16 := 0x7F00
  /** An `i32`. */
  const EXPONENT_BIAS: bv32 := 64
  const MANTISSA_MASK: bv16 := 0x00FF
  const MANTISSA_BITS: bv16 := 8

  const ZERO: F16 := F16(0x0000)
  const MAX: F16 := F16(0x7FFF)
  const MIN: F16 := F16(0xFFFF)
  const MIN_POSITIVE: F16 := F16(0x0001)
  const MAX_NEGATIVE: F16 := F16(0x8000)

  /** The lowest and highest de-biased exponents, as `i32` patterns. */
  const MIN_EXPONENT: bv32 := -64
  const MAX_EXPONENT: bv32 := 63

  function ToBits(x: F16): bv16 {
    x.bits
  }

  function FromBits(b: bv16): (x: F16)
    ensures ToBits(x) == b
  {
    F16(b)
  }

  /*
   * The accessors spell their masks and shifts as literals;
   * AccessorsUseNamedMasks shows they are the named constants above.
   */

  /** The de-biased exponent, an `i32`: the 7-bit field minus 64. */
  function Exponent(x: F16): bv32 {
    ((ToBits(x) & 0x7F00) >> 8) as bv32 - 64
  }

  /** Bit 15, left in place. */
  function SignBit(x: F16): bv16 {
    ToBits(x) & 0x8000
  }

  /** The 8 stored mantissa bits, unshifted. */
  function MantissaBits(x: F16): bv16 {
    ToBits(x) & 0x00FF
  }

  lemma AccessorsUseNamedMasks(x: F16)
    ensures SignBit(x) == ToBits(x) & SIGN_MASK
    ensures Exponent(x) == ((ToBits(x) & EXPONENT_MASK) >> MANTISSA_BITS) as bv32 - EXPONENT_BIAS
    ensures MantissaBits(x) == ToBits(x) & MANTISSA_MASK
  {
  }

  /** The exponent lies in [-64, 63], and adding the bias back gives the stored field. */
  lemma ExponentInRange(x: F16)
    ensures SignedLe(MIN_EXPONENT, Exponent(x)) && SignedLe(Exponent(x), MAX_EXPONENT)
    ensures I32ToU16(Exponent(x) + EXPONENT_BIAS) << 8 == ToBits(x) & EXPONENT_MASK
  {
  }

  /** The sign bit is 0 or 0x8000, the latter exactly for words with the top bit set. */
  lemma SignBitValues(x: F16)
    ensures SignBit(x) == 0 || SignBit(x) == SIGN_MASK
    ensures SignBit(x) == SIGN_MASK <==> ToBits(x) >= 0x8000
  {
  }

  /** The mantissa is below 256 and is the word's low byte. */
  lemma MantissaInRange(x: F16)
    ensures MantissaBits(x) < 0x100
    ensures ToBits(x) - MantissaBits(x) == ToBits(x) & 0xFF00
  {
  }

  lemma BitsRoundTrip(x: F16, b: bv16)
    ensures ToBits(FromBits(b)) == b
    ensures FromBits(ToBits(x)) == x
  {
  }

  lemma EqualIffBitsEqual(x: F16, y: F16)
    ensures x == y <==> ToBits(x) == ToBits(y)
  {
  }

  /** The three masks are pairwise disjoint and together cover the word. */
  lemma MasksPartitionWord()
    ensures SIGN_MASK & EXPONENT_MASK == 0 && SIGN_MASK & MANTISSA_MASK == 0
    ensures EXPONENT_MASK & MANTISSA_MASK == 0
    ensures SIGN_MASK | EXPONENT_MASK | MANTISSA_MASK == 0xFFFF
  {
  }

  /** Re-assembling the three fields gives back the word, so the fields determine it. */
  lemma FieldsCompose(x: F16, y: F16)
    ensures SignBit(x) | (I32ToU16(Exponent(x) + EXPONENT_BIAS) << MANTISSA_BITS) | MantissaBits(x) == ToBits(x)
    ensures SignBit(x) == SignBit(y) && Exponent(x) == Exponent(y) && MantissaBits(x) == MantissaBits(y) ==> x == y
  {
  }

  /** The fields of the five named constants. */
  lemma ConstantFields()
    ensures ToBits(ZERO) == 0
    ensures SignBit(MAX) == 0 && Exponent(MAX) == MAX_EXPONENT && MantissaBits(MAX) == 0xFF
    ensures ToBits(MIN) == ToBits(MAX) | SIGN_MASK
    ensures SignBit(MIN_POSITIVE) == 0 && Exponent(MIN_POSITIVE) == MIN_EXPONENT && MantissaBits(MIN_POSITIVE) == 1
    ensures SignBit(MAX_NEGATIVE) == SIGN_MASK && Exponent(MAX_NEGATIVE) == MIN_EXPONENT && MantissaBits(MAX_NEGATIVE) == 0
  {
  }
}
