/**
 * IEEE 754-2019 binary64 (Rust `f64`), seen only through its bit pattern
 * (section 3.4): bit 63 is the sign, bits 52..62 the biased exponent
 * field (bias 1023) and bits 0..51 the trailing significand field. The
 * codec never computes with floating-point values: it reads `is_finite`
 * and the comparison operators, which are defined here exactly on patterns.
 * Masks are written as literals.
 */
module Binary64 {

  /**
   * The biased exponent field, shifted down: shifted back it is exactly the
   * exponent bits of the pattern, and it is all ones exactly for the
   * infinities and NaNs.
   */
  function BiasedExponent(a: bv64): (f: bv64)
    ensures f <= 0x7FF
    ensures f << 52 == a & 0x7FF0_0000_0000_0000
    ensures f == 0x7FF <==> !IsFinite(a)
  {
    (a & 0x7FF0_0000_0000_0000) >> 52
  }

  /** Neither an infinity nor a NaN: the exponent field is not all ones. */
  predicate IsFinite(a: bv64) {
    a & 0x7FF0_0000_0000_0000 != 0x7FF0_0000_0000_0000
  }

  predicate IsNegative(a: bv64) {
    a & 0x8000_0000_0000_0000 != 0
  }

  /** The pattern with its sign bit cleared. */
  function Magnitude(a: bv64): bv64 {
    a & 0x7FFF_FFFF_FFFF_FFFF
  }

  /** +0 or -0. */
  predicate IsZero(a: bv64) {
    Magnitude(a) == 0
  }

  /*
   * For finite patterns the value grows with the magnitude bits
   * (section 3.4), so `<` and `<=` are sign-magnitude orders in which +0
   * and -0 are equal. NaN never reaches them in the codec.
   */

  /** `a < b` on finite values. */
  predicate Lt(a: bv64, b: bv64)
    requires IsFinite(a) && IsFinite(b)
  {
    if !IsNegative(a) && !IsNegative(b) then Magnitude(a) < Magnitude(b)
    else if IsNegative(a) && IsNegative(b) then Magnitude(b) < Magnitude(a)
    else if IsNegative(a) then !(IsZero(a) && IsZero(b))
    else false
  }

  /** `a <= b` on finite values. */
  predicate Le(a: bv64, b: bv64)
    requires IsFinite(a) && IsFinite(b)
  {
    if !IsNegative(a) && !IsNegative(b) then Magnitude(a) <= Magnitude(b)
    else if IsNegative(a) && IsNegative(b) then Magnitude(b) <= Magnitude(a)
    else if IsNegative(a) then true
    else IsZero(a) && IsZero(b)
  }

  /**
   * The position of a value on the number line as an unsigned key: the
   * order of the values, like the totalOrder predicate of section 5.10
   * (negatives complemented, positives with the sign bit set), except that
   * both zeros share the key of +0 where totalOrder puts -0 below +0.
   */
  function OrderKey(a: bv64): bv64 {
    if IsNegative(a) && !IsZero(a) then !a else Magnitude(a) | 0x8000_0000_0000_0000
  }

  /*
   * Case lemmas. The correspondence between the comparisons and the key is
   * proved case by case on the signs, and each case lemma below states
   * one implication only: a bit-vector query that combines several order
   * facts is too costly for the solver, so the cases are kept apart and
   * only ComparisonsFollowOrderKey, OrderKeyTies and LeIsNotFlippedLt, at
   * the end, state the results. Where a case lemma has Forward and
   * Converse companions, Forward shows that the comparison implies the key
   * relation and Converse that its negation implies the negated relation.
   */

  /*
   * Negative operands, one key relation per lemma: complementing two
   * negative patterns reverses the order of their magnitudes, and the key
   * of a zero, the sign bit alone, lies above every key of a negative
   * non-zero pattern.
   */

  lemma NegativeKeysLt(a: bv64, b: bv64)
    requires IsNegative(a) && IsNegative(b) && !IsZero(a) && !IsZero(b) && Magnitude(b) < Magnitude(a)
    ensures OrderKey(a) < OrderKey(b)
  {
  }

  lemma NegativeKeysLe(a: bv64, b: bv64)
    requires IsNegative(a) && IsNegative(b) && !IsZero(a) && !IsZero(b) && Magnitude(b) <= Magnitude(a)
    ensures OrderKey(a) <= OrderKey(b)
  {
  }

  lemma NegativeKeyBelowZeroKey(a: bv64, b: bv64)
    requires IsNegative(a) && !IsZero(a) && IsZero(b)
    ensures OrderKey(a) < OrderKey(b)
  {
  }

  lemma ZeroKeyNotBelowNegative(a: bv64, b: bv64)
    requires IsZero(a) && IsNegative(b)
    ensures !(OrderKey(a) < OrderKey(b))
  {
  }

  lemma LtBothNegative(a: bv64, b: bv64)
    requires IsFinite(a) && IsFinite(b) && IsNegative(a) && IsNegative(b)
    ensures Lt(a, b) <==> OrderKey(a) < OrderKey(b)
  {
    if IsZero(a) {
      ZeroKeyNotBelowNegative(a, b);
    } else if IsZero(b) {
      NegativeKeyBelowZeroKey(a, b);
    } else if Lt(a, b) {
      NegativeKeysLt(a, b);
    } else {
      NegativeKeysLe(b, a);
    }
  }

  lemma LeBothNegativeNonZero(a: bv64, b: bv64)
    requires IsFinite(a) && IsFinite(b) && IsNegative(a) && IsNegative(b) && !IsZero(a) && !IsZero(b)
    ensures Le(a, b) <==> OrderKey(a) <= OrderKey(b)
  {
    if Le(a, b) {
      NegativeKeysLe(a, b);
    } else {
      NegativeKeysLt(b, a);
    }
  }

  lemma LeBothNegativeOneZero(a: bv64, b: bv64)
    requires IsFinite(a) && IsFinite(b) && IsNegative(a) && IsNegative(b) && (IsZero(a) || IsZero(b))
    ensures Le(a, b) <==> OrderKey(a) <= OrderKey(b)
  {
    if Le(a, b) {
      LeBothNegativeOneZeroForward(a, b);
    } else {
      LeBothNegativeOneZeroConverse(a, b);
    }
  }

  lemma LeBothNegativeOneZeroForward(a: bv64, b: bv64)
    requires IsFinite(a) && IsFinite(b) && IsNegative(a) && IsNegative(b) && (IsZero(a) || IsZero(b))
    requires Le(a, b)
    ensures OrderKey(a) <= OrderKey(b)
  {
  }

  lemma LeBothNegativeOneZeroConverse(a: bv64, b: bv64)
    requires IsFinite(a) && IsFinite(b) && IsNegative(a) && IsNegative(b) && (IsZero(a) || IsZero(b))
    requires !Le(a, b)
    ensures !(OrderKey(a) <= OrderKey(b))
  {
  }

  lemma LtBothNonNegative(a: bv64, b: bv64)
    requires IsFinite(a) && IsFinite(b) && !IsNegative(a) && !IsNegative(b)
    ensures Lt(a, b) <==> OrderKey(a) < OrderKey(b)
  {
    if Lt(a, b) {
      LtBothNonNegativeForward(a, b);
    } else {
      LtBothNonNegativeConverse(a, b);
    }
  }

  lemma LtBothNonNegativeForward(a: bv64, b: bv64)
    requires IsFinite(a) && IsFinite(b) && !IsNegative(a) && !IsNegative(b)
    requires Lt(a, b)
    ensures OrderKey(a) < OrderKey(b)
  {
  }

  lemma LtBothNonNegativeConverse(a: bv64, b: bv64)
    requires IsFinite(a) && IsFinite(b) && !IsNegative(a) && !IsNegative(b)
    requires !Lt(a, b)
    ensures !(OrderKey(a) < OrderKey(b))
  {
  }

  lemma LeBothNonNegative(a: bv64, b: bv64)
    requires IsFinite(a) && IsFinite(b) && !IsNegative(a) && !IsNegative(b)
    ensures Le(a, b) <==> OrderKey(a) <= OrderKey(b)
  {
    if Le(a, b) {
      LeBothNonNegativeForward(a, b);
    } else {
      LeBothNonNegativeConverse(a, b);
    }
  }

  lemma LeBothNonNegativeForward(a: bv64, b: bv64)
    requires IsFinite(a) && IsFinite(b) && !IsNegative(a) && !IsNegative(b)
    requires Le(a, b)
    ensures OrderKey(a) <= OrderKey(b)
  {
  }

  lemma LeBothNonNegativeConverse(a: bv64, b: bv64)
    requires IsFinite(a) && IsFinite(b) && !IsNegative(a) && !IsNegative(b)
    requires !Le(a, b)
    ensures !(OrderKey(a) <= OrderKey(b))
  {
  }

  lemma LtMixedSigns(a: bv64, b: bv64)
    requires IsFinite(a) && IsFinite(b) && IsNegative(a) != IsNegative(b)
    ensures Lt(a, b) <==> OrderKey(a) < OrderKey(b)
  {
    if Lt(a, b) {
      LtMixedSignsForward(a, b);
    } else {
      LtMixedSignsConverse(a, b);
    }
  }

  lemma LtMixedSignsForward(a: bv64, b: bv64)
    requires IsFinite(a) && IsFinite(b) && IsNegative(a) != IsNegative(b)
    requires Lt(a, b)
    ensures OrderKey(a) < OrderKey(b)
  {
  }

  lemma LtMixedSignsConverse(a: bv64, b: bv64)
    requires IsFinite(a) && IsFinite(b) && IsNegative(a) != IsNegative(b)
    requires !Lt(a, b)
    ensures !(OrderKey(a) < OrderKey(b))
  {
  }

  lemma LeMixedSigns(a: bv64, b: bv64)
    requires IsFinite(a) && IsFinite(b) && IsNegative(a) != IsNegative(b)
    ensures Le(a, b) <==> OrderKey(a) <= OrderKey(b)
  {
    if Le(a, b) {
      LeMixedSignsForward(a, b);
    } else {
      LeMixedSignsConverse(a, b);
    }
  }

  lemma LeMixedSignsForward(a: bv64, b: bv64)
    requires IsFinite(a) && IsFinite(b) && IsNegative(a) != IsNegative(b)
    requires Le(a, b)
    ensures OrderKey(a) <= OrderKey(b)
  {
  }

  lemma LeMixedSignsConverse(a: bv64, b: bv64)
    requires IsFinite(a) && IsFinite(b) && IsNegative(a) != IsNegative(b)
    requires !Le(a, b)
    ensures !(OrderKey(a) <= OrderKey(b))
  {
  }

  /*
   * Results. The key-tie case lemmas that OrderKeyTies combines follow
   * ComparisonsFollowOrderKey.
   */

  /** The comparisons are the order of the keys. */
  lemma ComparisonsFollowOrderKey(a: bv64, b: bv64)
    requires IsFinite(a) && IsFinite(b)
    ensures Lt(a, b) <==> OrderKey(a) < OrderKey(b)
    ensures Le(a, b) <==> OrderKey(a) <= OrderKey(b)
  {
    if IsNegative(a) && IsNegative(b) {
      LtBothNegative(a, b);
      if IsZero(a) || IsZero(b) {
        LeBothNegativeOneZero(a, b);
      } else {
        LeBothNegativeNonZero(a, b);
      }
    } else if !IsNegative(a) && !IsNegative(b) {
      LtBothNonNegative(a, b);
      LeBothNonNegative(a, b);
    } else {
      LtMixedSigns(a, b);
      LeMixedSigns(a, b);
    }
  }

  lemma KeyTiesBothNonNegative(a: bv64, b: bv64)
    requires !IsNegative(a) && !IsNegative(b)
    ensures OrderKey(a) == OrderKey(b) <==> a == b
  {
    if OrderKey(a) == OrderKey(b) {
      KeyTiesBothNonNegativeForward(a, b);
    } else {
      KeyTiesBothNonNegativeConverse(a, b);
    }
  }

  lemma KeyTiesBothNonNegativeForward(a: bv64, b: bv64)
    requires !IsNegative(a) && !IsNegative(b)
    requires OrderKey(a) == OrderKey(b)
    ensures a == b
  {
  }

  lemma KeyTiesBothNonNegativeConverse(a: bv64, b: bv64)
    requires !IsNegative(a) && !IsNegative(b)
    requires !(OrderKey(a) == OrderKey(b))
    ensures !(a == b)
  {
  }

  lemma KeyTiesBothNegativeNonZero(a: bv64, b: bv64)
    requires IsNegative(a) && IsNegative(b) && !IsZero(a) && !IsZero(b)
    ensures OrderKey(a) == OrderKey(b) <==> a == b
  {
    if OrderKey(a) == OrderKey(b) {
      KeyTiesBothNegativeNonZeroForward(a, b);
    } else {
      KeyTiesBothNegativeNonZeroConverse(a, b);
    }
  }

  lemma KeyTiesBothNegativeNonZeroForward(a: bv64, b: bv64)
    requires IsNegative(a) && IsNegative(b) && !IsZero(a) && !IsZero(b)
    requires OrderKey(a) == OrderKey(b)
    ensures a == b
  {
  }

  lemma KeyTiesBothNegativeNonZeroConverse(a: bv64, b: bv64)
    requires IsNegative(a) && IsNegative(b) && !IsZero(a) && !IsZero(b)
    requires !(OrderKey(a) == OrderKey(b))
    ensures !(a == b)
  {
  }

  lemma KeyTiesMixedSigns(a: bv64, b: bv64)
    requires IsNegative(a) != IsNegative(b)
    ensures OrderKey(a) == OrderKey(b) <==> IsZero(a) && IsZero(b)
  {
    if OrderKey(a) == OrderKey(b) {
      KeyTiesMixedSignsForward(a, b);
    } else {
      KeyTiesMixedSignsConverse(a, b);
    }
  }

  lemma KeyTiesMixedSignsForward(a: bv64, b: bv64)
    requires IsNegative(a) != IsNegative(b)
    requires OrderKey(a) == OrderKey(b)
    ensures IsZero(a) && IsZero(b)
  {
  }

  lemma KeyTiesMixedSignsConverse(a: bv64, b: bv64)
    requires IsNegative(a) != IsNegative(b)
    requires !(OrderKey(a) == OrderKey(b))
    ensures !(IsZero(a) && IsZero(b))
  {
  }

  lemma KeyTiesBothNegativeOneZero(a: bv64, b: bv64)
    requires IsNegative(a) && IsNegative(b) && (IsZero(a) || IsZero(b))
    ensures OrderKey(a) == OrderKey(b) <==> IsZero(a) && IsZero(b)
  {
    if OrderKey(a) == OrderKey(b) {
      KeyTiesBothNegativeOneZeroForward(a, b);
    } else {
      KeyTiesBothNegativeOneZeroConverse(a, b);
    }
  }

  lemma KeyTiesBothNegativeOneZeroForward(a: bv64, b: bv64)
    requires IsNegative(a) && IsNegative(b) && (IsZero(a) || IsZero(b))
    requires OrderKey(a) == OrderKey(b)
    ensures IsZero(a) && IsZero(b)
  {
  }

  lemma KeyTiesBothNegativeOneZeroConverse(a: bv64, b: bv64)
    requires IsNegative(a) && IsNegative(b) && (IsZero(a) || IsZero(b))
    requires !(OrderKey(a) == OrderKey(b))
    ensures !(IsZero(a) && IsZero(b))
  {
  }

  /** Two patterns share a key exactly when they are equal or are the two zeros. */
  lemma OrderKeyTies(a: bv64, b: bv64)
    ensures OrderKey(a) == OrderKey(b) <==> a == b || (IsZero(a) && IsZero(b))
  {
    if !IsNegative(a) && !IsNegative(b) {
      KeyTiesBothNonNegative(a, b);
    } else if IsNegative(a) && IsNegative(b) && !IsZero(a) && !IsZero(b) {
      KeyTiesBothNegativeNonZero(a, b);
    } else if IsNegative(a) && IsNegative(b) {
      KeyTiesBothNegativeOneZero(a, b);
    } else {
      KeyTiesMixedSigns(a, b);
    }
  }

  /** `<=` is the negation of the flipped `<`: the comparisons are total on finite values. */
  lemma LeIsNotFlippedLt(a: bv64, b: bv64)
    requires IsFinite(a) && IsFinite(b)
    ensures Le(a, b) <==> !Lt(b, a)
  {
    ComparisonsFollowOrderKey(a, b);
    ComparisonsFollowOrderKey(b, a);
  }
}
