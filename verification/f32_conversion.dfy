/**
 * Properties of the conversions between F16 and binary32. One unit in the
 * last F16 place is 2^15 in the binary32 pattern (8 of its 23 fraction
 * bits are kept), and half a unit is 2^14.
 */
module F32Conversion {
  import opened RustInt
  import opened F16Format
  import opened Conversion
  import B32 = Binary32

  /** The four bounds the narrowing compares with, widened. */
  lemma WidenedConstants()
    ensures F16ToF32(MAX_NEGATIVE) == 0x9F80_0000
    ensures F16ToF32(MIN_POSITIVE) == 0x1F80_8000
    ensures F16ToF32(MAX) == 0x5F7F_8000
    ensures F16ToF32(MIN) == 0xDF7F_8000
  {
  }

  /** The dead zone in bits: strictly between the widened MAX_NEGATIVE and MIN_POSITIVE. */
  predicate InDeadZone(src: bv32) {
    if B32.IsNegative(src) then B32.Magnitude(src) < 0x1F80_0000 else B32.Magnitude(src) < 0x1F80_8000
  }

  /** The two strict comparisons that send a value to ZERO hold exactly on the dead zone. */
  lemma DeadZoneBounds(src: bv32)
    requires B32.IsFinite(src)
    ensures B32.Lt(F16ToF32(MAX_NEGATIVE), src) && B32.Lt(src, F16ToF32(MIN_POSITIVE)) <==> InDeadZone(src)
  {
    WidenedConstants();
  }

  /** The two comparisons against the widened MIN and MAX hold exactly up to MAX's magnitude. */
  lemma RangeBounds(src: bv32)
    requires B32.IsFinite(src)
    ensures B32.Le(F16ToF32(MIN), src) && B32.Le(src, F16ToF32(MAX)) <==> B32.Magnitude(src) <= 0x5F7F_8000
  {
    WidenedConstants();
  }

  /** Finite, outside the dead zone and within [MIN, MAX]: the inputs that are rounded. */
  predicate Rounds(src: bv32) {
    B32.IsFinite(src) && !InDeadZone(src) && B32.Magnitude(src) <= 0x5F7F_8000
  }

  /** Widening in one formula: the F16 exponent is rebiased by 127 - 64 = 0x3F and the fields move up 15 places. */
  lemma WidenFormula(x: F16)
    requires x != ZERO
    ensures F16ToF32(x) == ((((ToBits(x) & 0x7FFF) as bv32) + 0x3F00) << 15) | (((ToBits(x) & 0x8000) as bv32) << 16)
  {
  }

  /** Narrowing in the rounding branch in one formula: the inverse rebias on the top 16 bits of the rounded pattern. */
  lemma NarrowFormula(src: bv32)
    requires Rounds(src)
    ensures F32ToF16(src).Ok?
    ensures ToBits(F32ToF16(src).value) == ((((src + 0x4000) & 0x7FFF_FFFF) >> 15) - 0x3F00) as bv16 | ((src >> 16) & 0x8000) as bv16
  {
    DeadZoneBounds(src);
    RangeBounds(src);
  }

  /**
   * The rounding branch, in bits: the widened result is the input with
   * half a unit (2^14) added and the 15 bits below the F16 precision
   * cleared.
   */
  lemma RoundingBranch(src: bv32)
    requires Rounds(src)
    ensures F32ToF16(src).Ok?
    ensures F16ToF32(F32ToF16(src).value) == (src + 0x4000) & 0xFFFF_8000
  {
    NarrowFormula(src);
    WidenFormula(F32ToF16(src).value);
  }

  /** The rounding branch never produces ZERO. */
  lemma RoundingNonZero(src: bv32)
    requires Rounds(src)
    ensures F32ToF16(src).Ok? && F32ToF16(src).value != ZERO
  {
    NarrowFormula(src);
  }

  /** The `u32` addition of half a unit cannot wrap, and the exponent it leads to is a valid F16 exponent. */
  lemma RoundingStaysInRange(src: bv32)
    requires Rounds(src)
    ensures src <= 0xFFFF_BFFF
    ensures var exponent := (((src + 0x4000) >> 23) & 0xFF) - 127;
      SignedLe(MIN_EXPONENT, exponent) && SignedLe(exponent, MAX_EXPONENT)
        && I32ToU16(exponent + EXPONENT_BIAS) < 0x80
  {
  }

  /**
   * Round half up, as a reference on magnitudes: the greatest multiple of
   * 2^15 not above `a`, plus one unit when what lies below it is at least
   * half a unit.
   */
  function HalfUp(a: bv32): bv32 {
    if a & 0x7FFF < 0x4000 then a & 0xFFFF_8000 else (a & 0xFFFF_8000) + 0x8000
  }

  /**
   * The floor HalfUp starts from is a multiple of 2^15, at most `a` and
   * less than a unit below it, and the low bits HalfUp compares with half a
   * unit are what lies between the floor and `a`.
   */
  lemma FloorBracketsInput(a: bv32)
    requires a <= 0x5F7F_8000
    ensures (a & 0xFFFF_8000) & 0x7FFF == 0
    ensures a & 0xFFFF_8000 <= a && a < (a & 0xFFFF_8000) + 0x8000
    ensures a & 0x7FFF == a - (a & 0xFFFF_8000)
  {
  }

  /** No multiple of 2^15 lies strictly between the floor and `a`. */
  lemma FloorIsGreatestMultiple(a: bv32, k: bv32)
    requires k & 0x7FFF == 0 && k <= a
    ensures k <= a & 0xFFFF_8000
  {
  }

  /** Rounding half up moves a magnitude by at most half a unit, and by less than that downward. */
  lemma HalfUpWithinHalfUnit(a: bv32)
    requires a <= 0x5F7F_8000
    ensures HalfUp(a) <= a + 0x4000 && a < HalfUp(a) + 0x4000
  {
  }

  /** A magnitude exactly halfway between two multiples goes up by half a unit: ties round away from zero. */
  lemma HalfUpTiesGoUp(a: bv32)
    requires a <= 0x5F7F_8000 && a & 0x7FFF == 0x4000
    ensures HalfUp(a) == a + 0x4000
  {
  }

  /** A magnitude that is already a multiple of 2^15 is left alone. */
  lemma HalfUpKeepsMultiples(a: bv32)
    requires a & 0x7FFF == 0
    ensures HalfUp(a) == a
  {
  }

  /** Pattern `w` has the sign of `src` and its magnitude rounded half up. */
  predicate IsHalfUpOf(w: bv32, src: bv32) {
    w & 0x8000_0000 == src & 0x8000_0000 && w & 0x7FFF_FFFF == HalfUp(src & 0x7FFF_FFFF)
  }

  /** The rounding branch in terms of the reference. */
  lemma RoundedPatternIsHalfUp(src: bv32, w: bv32)
    requires src & 0x7FFF_FFFF <= 0x5F7F_8000 && w == (src + 0x4000) & 0xFFFF_8000
    ensures IsHalfUpOf(w, src)
  {
  }

  /**
   * Narrowing rounds half up in magnitude (ties away from zero) and keeps
   * the sign: the widened result has the sign of the input and the
   * magnitude HalfUp gives for the input's.
   */
  lemma RoundsHalfUp(src: bv32)
    requires Rounds(src)
    ensures F32ToF16(src).Ok?
    ensures var halfUp := IsHalfUpOf(F16ToF32(F32ToF16(src).value), src);
      halfUp
  {
    RoundingBranch(src);
    RoundedPatternIsHalfUp(src, F16ToF32(F32ToF16(src).value));
  }

  /** The two formulas undo each other. */
  lemma FormulasInverse(b: bv16, w: bv32)
    requires b != 0 && w == ((((b & 0x7FFF) as bv32) + 0x3F00) << 15) | (((b & 0x8000) as bv32) << 16)
    ensures ((((w + 0x4000) & 0x7FFF_FFFF) >> 15) - 0x3F00) as bv16 | ((w >> 16) & 0x8000) as bv16 == b
  {
  }

  /** The widening formula lands in the rounding range. */
  lemma FormulaInRange(b: bv16, w: bv32)
    requires b != 0 && w == ((((b & 0x7FFF) as bv32) + 0x3F00) << 15) | (((b & 0x8000) as bv32) << 16)
    ensures w & 0x7F80_0000 != 0x7F80_0000 && w & 0x7FFF_FFFF <= 0x5F7F_8000
    ensures w & 0x8000_0000 != 0 ==> w & 0x7FFF_FFFF >= 0x1F80_0000
    ensures w & 0x8000_0000 == 0 ==> w & 0x7FFF_FFFF >= 0x1F80_8000
  {
  }

  /** Rounds spelled out on the bits. */
  lemma RoundsOnBits(w: bv32)
    requires w & 0x7F80_0000 != 0x7F80_0000 && w & 0x7FFF_FFFF <= 0x5F7F_8000
    requires w & 0x8000_0000 != 0 ==> w & 0x7FFF_FFFF >= 0x1F80_0000
    requires w & 0x8000_0000 == 0 ==> w & 0x7FFF_FFFF >= 0x1F80_8000
    ensures Rounds(w)
  {
  }

  /** Narrowing undoes the widening formula. */
  lemma NarrowOfFormula(b: bv16, w: bv32)
    requires b != 0 && w == ((((b & 0x7FFF) as bv32) + 0x3F00) << 15) | (((b & 0x8000) as bv32) << 16)
    ensures F32ToF16(w) == Ok(F16(b))
  {
    FormulaInRange(b, w);
    RoundsOnBits(w);
    FormulasInverse(b, w);
    NarrowFormula(w);
  }

  /** Round trip for a non-zero word, through the two formulas. */
  lemma RoundTripNonZero(x: F16)
    requires x != ZERO
    ensures F32ToF16(F16ToF32(x)) == Ok(x)
  {
    WidenFormula(x);
    NarrowOfFormula(ToBits(x), F16ToF32(x));
  }

  /** Widening is exact: narrowing the widened value gives back the same word. */
  lemma RoundTrip(x: F16)
    ensures F32ToF16(F16ToF32(x)) == Ok(x)
  {
    if x == ZERO {
      DeadZoneBounds(0);
    } else {
      RoundTripNonZero(x);
    }
  }

  /**
   * The crate's exhaustive test: every one of the 65,536 words, widened to
   * binary32 and narrowed again, comes back unchanged. `passed` stays true
   * exactly as long as no check has failed.
   */
  method AllWordsRoundTrip() returns (passed: bool)
    ensures passed
  {
    passed := true;
    var bits: bv32 := 0;
    while bits <= 0xFFFF
      invariant bits <= 0x10000
      invariant passed
      decreases 0x10000 - bits
    {
      var f := FromBits(bits as bv16);
      RoundTrip(f);
      passed := passed && F32ToF16(F16ToF32(f)) == Ok(f);
      bits := bits + 1;
    }
  }

  /** Distinct words widen to distinct patterns. */
  lemma WidenInjective(x: F16, y: F16)
    ensures F16ToF32(x) == F16ToF32(y) ==> x == y
  {
    RoundTrip(x);
    RoundTrip(y);
  }

  /**
   * Every word widens to a finite pattern, zero exactly for ZERO (and
   * never -0); any other word to a normal number whose biased exponent is
   * the F16 exponent plus 127, within [63, 190], with the same sign, the 8
   * mantissa bits on top of the fraction and the 15 bits below them zero.
   */
  lemma WidenFields(x: F16)
    ensures B32.IsFinite(F16ToF32(x))
    ensures F16ToF32(x) == 0 <==> x == ZERO
    ensures B32.IsZero(F16ToF32(x)) <==> x == ZERO
    ensures x != ZERO ==> B32.BiasedExponent(F16ToF32(x)) == Exponent(x) + 127
    ensures x != ZERO ==> 63 <= B32.BiasedExponent(F16ToF32(x)) <= 190
    ensures B32.IsNegative(F16ToF32(x)) <==> x != ZERO && SignBit(x) == SIGN_MASK
    ensures (F16ToF32(x) >> 15) & 0xFF == MantissaBits(x) as bv32
    ensures F16ToF32(x) & 0x7FFF == 0
  {
    if x != ZERO {
      WidenFormula(x);
    }
  }

  /** Narrowing fails exactly on infinities, NaNs and values beyond MAX in magnitude. */
  lemma NarrowRejects(src: bv32)
    ensures F32ToF16(src) == Err <==> !B32.IsFinite(src) || B32.Magnitude(src) > 0x5F7F_8000
  {
    if B32.IsFinite(src) {
      DeadZoneBounds(src);
      RangeBounds(src);
      if Rounds(src) {
        RoundingBranch(src);
      }
    }
  }

  /**
   * Narrowing gives ZERO exactly on the dead zone: every finite value
   * strictly between -2^-64 (MAX_NEGATIVE) and 2^-64 * (1 + 1/256)
   * (MIN_POSITIVE), both zeros and all subnormals included.
   */
  lemma NarrowToZero(src: bv32)
    ensures F32ToF16(src) == Ok(ZERO) <==> B32.IsFinite(src) && InDeadZone(src)
  {
    if B32.IsFinite(src) {
      DeadZoneBounds(src);
      RangeBounds(src);
      if Rounds(src) {
        RoundingNonZero(src);
      }
    }
  }

  /** The rounded word carries the sign of the input. */
  lemma RoundingKeepsSign(src: bv32)
    requires Rounds(src)
    ensures F32ToF16(src).Ok?
    ensures SignBit(F32ToF16(src).value) == SIGN_MASK <==> B32.IsNegative(src)
  {
    NarrowFormula(src);
  }

  /**
   * The dead zone is not symmetric: 2^-64 lies inside it, -2^-64 is
   * MAX_NEGATIVE itself; -0 and the smallest subnormal go to ZERO.
   */
  lemma DeadZoneExamples()
    ensures F32ToF16(0x1F80_0000) == Ok(ZERO)
    ensures F32ToF16(0x9F80_0000) == Ok(MAX_NEGATIVE)
    ensures F32ToF16(0x8000_0000) == Ok(ZERO)
    ensures F32ToF16(0x0000_0001) == Ok(ZERO)
  {
    NarrowToZero(0x1F80_0000);
    RoundTrip(MAX_NEGATIVE);
    WidenedConstants();
    NarrowToZero(0x8000_0000);
    NarrowToZero(0x0000_0001);
  }

  /**
   * Values beyond MAX are rejected even when they would round to it: the
   * next binary32 above MAX and below MIN both fail, as do infinity and NaN.
   */
  lemma NoClampingExamples()
    ensures F32ToF16(0x5F7F_8001) == Err
    ensures F32ToF16(0xDF7F_8001) == Err
    ensures F32ToF16(0x7F80_0000) == Err
    ensures F32ToF16(0x7FC0_0000) == Err
  {
    NarrowRejects(0x5F7F_8001);
    NarrowRejects(0xDF7F_8001);
  }

  /**
   * 1 + 2^-9 lies halfway between the F16 words 0x4000 (1.0) and 0x4001
   * and goes up to 0x4001; its negative goes to 0xC001, away from zero;
   * the value just below the tie goes down to 1.0.
   */
  lemma TieExamples()
    ensures F32ToF16(0x3F80_4000) == Ok(F16(0x4001))
    ensures F32ToF16(0xBF80_4000) == Ok(F16(0xC001))
    ensures F32ToF16(0x3F80_3FFF) == Ok(F16(0x4000))
  {
  }
}
