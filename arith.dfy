/**
 * Facts about Euclidean division that the solver does not find on its own.
 * Dafny's `/` and `%` are Euclidean; they agree with Java's truncating
 * operators whenever the dividend is non-negative.
 */
module Arith {

  /** Dividing a non-negative number by a positive one gives a non-negative quotient. */
  lemma DivNonNegative(v: int, g: int)
    requires v >= 0 && g > 0
    ensures v / g >= 0
  {
  }

  /** A non-negative number below the divisor has quotient 0. */
  lemma DivSmall(v: int, g: int)
    requires 0 <= v < g
    ensures v / g == 0
  {
  }

  /** A multiple of a positive `g` strictly between `-g` and `g` is zero. */
  lemma SmallMultipleIsZero(g: int, d: int, e: int)
    requires g > 0 && g * d == e && -g < e < g
    ensures d == 0
  {
  }

  /** Quotient and remainder are the only pair with `y == g * q + r` and `0 <= r < g`. */
  lemma DivModUnique(y: int, g: int, q: int, r: int)
    requires g > 0 && 0 <= r < g && y == g * q + r
    ensures y / g == q && y % g == r
  {
    var d := q - y / g;
    assert g * d + r == y % g by {
      assert g * d == g * q - g * (y / g);
    }
    SmallMultipleIsZero(g, d, y % g - r);
  }

  /** Subtracting the modulus does not change the remainder. */
  lemma ModMinusModulus(x: int, g: int)
    requires g > 0
    ensures (x - g) % g == x % g
  {
    DivModUnique(x - g, g, x / g - 1, x % g);
  }

  /**
   * Going down from a multiple-of-`g` distance by less than `g` never lands
   * on another multiple of `g`.
   */
  lemma NoMultipleBetween(x: int, e: int, g: int)
    requires g > 0 && x % g == 0 && 0 < e < g
    ensures (x - e) % g != 0
  {
    DivModUnique(x - e, g, x / g - 1, g - e);
  }

  /** Multiplying by a positive number keeps the order. */
  lemma MulMonotone(a: int, b: int, e: int)
    requires a <= b && e > 0
    ensures a * e <= b * e
  {
  }

  /** A dividend at least the divisor has a positive quotient. */
  lemma DivPositive(v: int, g: int)
    requires 0 < g <= v
    ensures v / g > 0
  {
  }
}
