/**
 * Properties of the conversions between F16 and binary64. One unit in the
 * last F16 place is 2^44 in the binary64 pattern (8 of its 52 fraction
 * bits are kept), and half a unit is 2^43.
 */
module F64Conversion {
  import opened RustInt
  import opened F16Format
  import opened Conversion
  import B64 = Binary64

  /** The four bounds the narrowing compares with, widened. */
  lemma WidenedConstants()
    ensures F16ToF64(MAX_NEGATIVE) == 0xBBF0_0000_0000_0000
    ensures F16ToF64(MIN_POSITIVE) == 0x3BF0_1000_0000_0000
    ensures F16ToF64(MAX) == 0x43EF_F000_0000_0000
    ensures F16ToF64(MIN) == 0xC3EF_F000_0000_0000
  {
  }

  /** The dead zone in bits: strictly between the widened MAX_NEGATIVE and MIN_POSITIVE. */
  predicate InDeadZone(src: bv64) {
    if B64.IsNegative(src) then B64.Magnitude(src) < 0x3BF0_0000_0000_0000 else B64.Magnitude(src) < 0x3BF0_1000_0000_0000
  }

  /** The two strict comparisons that send a value to ZERO hold exactly on the dead zone. */
  lemma DeadZoneBounds(src: bv64)
    requires B64.IsFinite(src)
    ensures B64.Lt(F16ToF64(MAX_NEGATIVE), src) && B64.Lt(src, F16ToF64(MIN_POSITIVE)) <==> InDeadZone(src)
  {
    WidenedConstants();
  }

  /** The two comparisons against the widened MIN and MAX hold exactly up to MAX's magnitude. */
  lemma RangeBounds(src: bv64)
    requires B64.IsFinite(src)
    ensures B64.Le(F16ToF64(MIN), src) && B64.Le(src, F16ToF64(MAX)) <==> B64.Magnitude(src) <= 0x43EF_F000_0000_0000
  {
    WidenedConstants();
  }

  /** Finite, outside the dead zone and within [MIN, MAX]: the inputs that are rounded. */
  predicate Rounds(src: bv64) {
    B64.IsFinite(src) && !InDeadZone(src) && B64.Magnitude(src) <= 0x43EF_F000_0000_0000
  }

  /** Widening in one formula: the F16 exponent is rebiased by 1023 - 64 = 0x3BF and the fields move up 44 places. */
  lemma WidenFormula(x: F16)
    requires x != ZERO
    ensures F16ToF64(x) == ((((ToBits(x) & 0x7FFF) as bv64) + 0x3BF00) << 44) | (((ToBits(x) & 0x8000) as bv64) << 48)
  {
  }

  /** Narrowing in the rounding branch in one formula: the inverse rebias on the top 16 bits of the rounded pattern. */
  lemma NarrowFormula(src: bv64)
    requires Rounds(src)
    ensures F64ToF16(src).Ok?
    ensures ToBits(F64ToF16(src).value) == ((((src + 0x800_0000_0000) & 0x7FFF_FFFF_FFFF_FFFF) >> 44) - 0x3BF00) as bv16 | ((src >> 48) & 0x8000) as bv16
  {
    DeadZoneBounds(src);
    RangeBounds(src);
  }

  /**
   * The rounding branch, in bits: the widened result is the input with
   * half a unit (2^43) added and the 44 bits below the F16 precision
   * cleared.
   */
  lemma RoundingBranch(src: bv64)
    requires Rounds(src)
    ensures F64ToF16(src).Ok?
    ensures F16ToF64(F64ToF16(src).value) == (src + 0x800_0000_0000) & 0xFFFF_F000_0000_0000
  {
    NarrowFormula(src);
    WidenFormula(F64ToF16(src).value);
  }

  /** The rounding branch never produces ZERO. */
  lemma RoundingNonZero(src: bv64)
    requires Rounds(src)
    ensures F64ToF16(src).Ok? && F64ToF16(src).value != ZERO
  {
    NarrowFormula(src);
  }

  /** The `u64` addition of half a unit cannot wrap, and the exponent it leads to is a valid F16 exponent. */
  lemma RoundingStaysInRange(src: bv64)
    requires Rounds(src)
    ensures src <= 0xFFFF_F7FF_FFFF_FFFF
    ensures var exponent := ((((src + 0x800_0000_0000) >> 52) & 0x7FF) as bv32) - 1023;
      SignedLe(MIN_EXPONENT, exponent) && SignedLe(exponent, MAX_EXPONENT)
        && I32ToU16(exponent + EXPONENT_BIAS) < 0x80
  {
  }

  /**
   * Round half up, as a reference on magnitudes: the greatest multiple of
   * 2^44 not above `a`, plus one unit when what lies below it is at least
   * half a unit.
   */
  function HalfUp(a: bv64): bv64 {
    if a & 0xFFF_FFFF_FFFF < 0x800_0000_0000 then a & 0xFFFF_F000_0000_0000 else (a & 0xFFFF_F000_0000_0000) + 0x1000_0000_0000
  }

  /**
   * The floor HalfUp starts from is a multiple of 2^44, at most `a` and
   * less than a unit below it, and the low bits HalfUp compares with half a
   * unit are what lies between the floor and `a`.
   */
  lemma FloorBracketsInput(a: bv64)
    requires a <= 0x43EF_F000_0000_0000
    ensures (a & 0xFFFF_F000_0000_0000) & 0xFFF_FFFF_FFFF == 0
    ensures a & 0xFFFF_F000_0000_0000 <= a && a < (a & 0xFFFF_F000_0000_0000) + 0x1000_0000_0000
    ensures a & 0xFFF_FFFF_FFFF == a - (a & 0xFFFF_F000_0000_0000)
  {
  }

  /** No multiple of 2^44 lies strictly between the floor and `a`. */
  lemma FloorIsGreatestMultiple(a: bv64, k: bv64)
    requires k & 0xFFF_FFFF_FFFF == 0 && k <= a
    ensures k <= a & 0xFFFF_F000_0000_0000
  {
  }

  /** Rounding half up moves a magnitude by at most half a unit, and by less than that downward. */
  lemma HalfUpWithinHalfUnit(a: bv64)
    requires a <= 0x43EF_F000_0000_0000
    ensures HalfUp(a) <= a + 0x800_0000_0000 && a < HalfUp(a) + 0x800_0000_0000
  {
  }

  /** A magnitude exactly halfway between two multiples goes up by half a unit: ties round away from zero. */
  lemma HalfUpTiesGoUp(a: bv64)
    requires a <= 0x43EF_F000_0000_0000 && a & 0xFFF_FFFF_FFFF == 0x800_0000_0000
    ensures HalfUp(a) == a + 0x800_0000_0000
  {
  }

  /** A magnitude that is already a multiple of 2^44 is left alone. */
  lemma HalfUpKeepsMultiples(a: bv64)
    requires a & 0xFFF_FFFF_FFFF == 0
    ensures HalfUp(a) == a
  {
  }

  /** Pattern `w` has the sign of `src` and its magnitude rounded half up. */
  predicate IsHalfUpOf(w: bv64, src: bv64) {
    w & 0x8000_0000_0000_0000 == src & 0x8000_0000_0000_0000 && w & 0x7FFF_FFFF_FFFF_FFFF == HalfUp(src & 0x7FFF_FFFF_FFFF_FFFF)
  }

  /** The rounding branch in terms of the reference. */
  lemma RoundedPatternIsHalfUp(src: bv64, w: bv64)
    requires src & 0x7FFF_FFFF_FFFF_FFFF <= 0x43EF_F000_0000_0000 && w == (src + 0x800_0000_0000) & 0xFFFF_F000_0000_0000
    ensures IsHalfUpOf(w, src)
  {
  }

  /**
   * Narrowing rounds half up in magnitude (ties away from zero) and keeps
   * the sign: the widened result has the sign of the input and the
   * magnitude HalfUp gives for the input's.
   */
  lemma RoundsHalfUp(src: bv64)
    requires Rounds(src)
    ensures F64ToF16(src).Ok?
    ensures var halfUp := IsHalfUpOf(F16ToF64(F64ToF16(src).value), src);
      halfUp
  {
    RoundingBranch(src);
    RoundedPatternIsHalfUp(src, F16ToF64(F64ToF16(src).value));
  }

  /** The two formulas undo each other. */
  lemma FormulasInverse(b: bv16, w: bv64)
    requires b != 0 && w == ((((b & 0x7FFF) as bv64) + 0x3BF00) << 44) | (((b & 0x8000) as bv64) << 48)
    ensures ((((w + 0x800_0000_0000) & 0x7FFF_FFFF_FFFF_FFFF) >> 44) - 0x3BF00) as bv16 | ((w >> 48) & 0x8000) as bv16 == b
  {
  }

  /** The widening formula lands in the rounding range. */
  lemma FormulaInRange(b: bv16, w: bv64)
    requires b != 0 && w == ((((b & 0x7FFF) as bv64) + 0x3BF00) << 44) | (((b & 0x8000) as bv64) << 48)
    ensures w & 0x7FF0_0000_0000_0000 != 0x7FF0_0000_0000_0000 && w & 0x7FFF_FFFF_FFFF_FFFF <= 0x43EF_F000_0000_0000
    ensures w & 0x8000_0000_0000_0000 != 0 ==> w & 0x7FFF_FFFF_FFFF_FFFF >= 0x3BF0_0000_0000_0000
    ensures w & 0x8000_0000_0000_0000 == 0 ==> w & 0x7FFF_FFFF_FFFF_FFFF >= 0x3BF0_1000_0000_0000
  {
  }

  /** Rounds spelled out on the bits. */
  lemma RoundsOnBits(w: bv64)
    requires w & 0x7FF0_0000_0000_0000 != 0x7FF0_0000_0000_0000 && w & 0x7FFF_FFFF_FFFF_FFFF <= 0x43EF_F000_0000_0000
    requires w & 0x8000_0000_0000_0000 != 0 ==> w & 0x7FFF_FFFF_FFFF_FFFF >= 0x3BF0_0000_0000_0000
    requires w & 0x8000_0000_0000_0000 == 0 ==> w & 0x7FFF_FFFF_FFFF_FFFF >= 0x3BF0_1000_0000_0000
    ensures Rounds(w)
  {
  }

  /** Narrowing undoes the widening formula. */
  lemma NarrowOfFormula(b: bv16, w: bv64)
    requires b != 0 && w == ((((b & 0x7FFF) as bv64) + 0x3BF00) << 44) | (((b & 0x8000) as bv64) << 48)
    ensures F64ToF16(w) == Ok(F16(b))
  {
    FormulaInRange(b, w);
    RoundsOnBits(w);
    FormulasInverse(b, w);
    NarrowFormula(w);
  }

  /** Round trip for a non-zero word, through the two formulas. */
  lemma RoundTripNonZero(x: F16)
    requires x != ZERO
    ensures F64ToF16(F16ToF64(x)) == Ok(x)
  {
    WidenFormula(x);
    NarrowOfFormula(ToBits(x), F16ToF64(x));
  }

  /** Widening is exact: narrowing the widened value gives back the same word. */
  lemma RoundTrip(x: F16)
    ensures F64ToF16(F16ToF64(x)) == Ok(x)
  {
    if x == ZERO {
      DeadZoneBounds(0);
    } else {
      RoundTripNonZero(x);
    }
  }

  /**
   * The crate's exhaustive test: every one of the 65,536 words, widened to
   * binary64 and narrowed again, comes back unchanged. `passed` stays true
   * exactly as long as no check has failed.
   */
  method AllWordsRoundTrip() returns (passed: bool)
    ensures passed
  {
    passed := true;
    var bits: bv32 := 0;
    while bits <= 0xFFFF
      invariant bits <= 0x10000
      invariant passed
      decreases 0x10000 - bits
    {
      var f := FromBits(bits as bv16);
      RoundTrip(f);
      passed := passed && F64ToF16(F16ToF64(f)) == Ok(f);
      bits := bits + 1;
    }
  }

  /** Distinct words widen to distinct patterns. */
  lemma WidenInjective(x: F16, y: F16)
    ensures F16ToF64(x) == F16ToF64(y) ==> x == y
  {
    RoundTrip(x);
    RoundTrip(y);
  }

  /**
   * Every word widens to a finite pattern, zero exactly for ZERO (and
   * never -0); any other word to a normal number whose biased exponent is
   * the F16 exponent plus 1023, within [959, 1086], with the same sign, the 8
   * mantissa bits on top of the fraction and the 44 bits below them zero.
   */
  lemma WidenFields(x: F16)
    ensures B64.IsFinite(F16ToF64(x))
    ensures F16ToF64(x) == 0 <==> x == ZERO
    ensures B64.IsZero(F16ToF64(x)) <==> x == ZERO
    ensures x != ZERO ==> B64.BiasedExponent(F16ToF64(x)) == I32ToU64(Exponent(x) + 1023)
    ensures x != ZERO ==> 959 <= B64.BiasedExponent(F16ToF64(x)) <= 1086
    ensures B64.IsNegative(F16ToF64(x)) <==> x != ZERO && SignBit(x) == SIGN_MASK
    ensures (F16ToF64(x) >> 44) & 0xFF == MantissaBits(x) as bv64
    ensures F16ToF64(x) & 0xFFF_FFFF_FFFF == 0
  {
    if x != ZERO {
      WidenFormula(x);
    }
  }

  /** Narrowing fails exactly on infinities, NaNs and values beyond MAX in magnitude. */
  lemma NarrowRejects(src: bv64)
    ensures F64ToF16(src) == Err <==> !B64.IsFinite(src) || B64.Magnitude(src) > 0x43EF_F000_0000_0000
  {
    if B64.IsFinite(src) {
      DeadZoneBounds(src);
      RangeBounds(src);
      if Rounds(src) {
        RoundingBranch(src);
      }
    }
  }

  /**
   * Narrowing gives ZERO exactly on the dead zone: every finite value
   * strictly between -2^-64 (MAX_NEGATIVE) and 2^-64 * (1 + 1/256)
   * (MIN_POSITIVE), both zeros and all subnormals included.
   */
  lemma NarrowToZero(src: bv64)
    ensures F64ToF16(src) == Ok(ZERO) <==> B64.IsFinite(src) && InDeadZone(src)
  {
    if B64.IsFinite(src) {
      DeadZoneBounds(src);
      RangeBounds(src);
      if Rounds(src) {
        RoundingNonZero(src);
      }
    }
  }

  /** The rounded word carries the sign of the input. */
  lemma RoundingKeepsSign(src: bv64)
    requires Rounds(src)
    ensures F64ToF16(src).Ok?
    ensures SignBit(F64ToF16(src).value) == SIGN_MASK <==> B64.IsNegative(src)
  {
    NarrowFormula(src);
  }

  /**
   * The dead zone is not symmetric: 2^-64 lies inside it, -2^-64 is
   * MAX_NEGATIVE itself; -0 and the smallest subnormal go to ZERO.
   */
  lemma DeadZoneExamples()
    ensures F64ToF16(0x3BF0_0000_0000_0000) == Ok(ZERO)
    ensures F64ToF16(0xBBF0_0000_0000_0000) == Ok(MAX_NEGATIVE)
    ensures F64ToF16(0x8000_0000_0000_0000) == Ok(ZERO)
    ensures F64ToF16(0x0000_0000_0000_0001) == Ok(ZERO)
  {
    NarrowToZero(0x3BF0_0000_0000_0000);
    RoundTrip(MAX_NEGATIVE);
    WidenedConstants();
    NarrowToZero(0x8000_0000_0000_0000);
    NarrowToZero(0x0000_0000_0000_0001);
  }

  /**
   * Values beyond MAX are rejected even when they would round to it: the
   * next binary64 above MAX and below MIN both fail, as do infinity and NaN.
   */
  lemma NoClampingExamples()
    ensures F64ToF16(0x43EF_F000_0000_0001) == Err
    ensures F64ToF16(0xC3EF_F000_0000_0001) == Err
    ensures F64ToF16(0x7FF0_0000_0000_0000) == Err
    ensures F64ToF16(0x7FF8_0000_0000_0000) == Err
  {
    NarrowRejects(0x43EF_F000_0000_0001);
    NarrowRejects(0xC3EF_F000_0000_0001);
  }

  /**
   * 1 + 2^-9 lies halfway between the F16 words 0x4000 (1.0) and 0x4001
   * and goes up to 0x4001; its negative goes to 0xC001, away from zero;
   * the value just below the tie goes down to 1.0.
   */
  lemma TieExamples()
    ensures F64ToF16(0x3FF0_0800_0000_0000) == Ok(F16(0x4001))
    ensures F64ToF16(0xBFF0_0800_0000_0000) == Ok(F16(0xC001))
    ensures F64ToF16(0x3FF0_07FF_FFFF_FFFF) == Ok(F16(0x4000))
  {
  }
}
