/** Facts about products and quotients, each small enough for the solver on its own. */
module Arithmetic {
  lemma MulMonotone(a: int, b: int, c: int)
    requires a <= b && 0 <= c
    ensures a * c <= b * c && c * a <= c * b
  {
  }

  lemma MulBounds(a: int, b: int, amax: int, bmax: int)
    requires 0 <= a <= amax && 0 <= b <= bmax
    ensures 0 <= a * b <= amax * bmax
  {
    MulMonotone(a, amax, b);
    MulMonotone(b, bmax, amax);
  }

  lemma DivMod(x: int, d: int)
    requires d >= 1
    ensures x == d * (x / d) + x % d && 0 <= x % d < d
  {
  }

  lemma QuotientBelow(x: int, d: int, bound: int)
    requires d >= 1 && x < d * bound
    ensures x / d < bound
  {
    DivMod(x, d);
    if x / d >= bound {
      MulMonotone(bound, x / d, d);
    }
  }

  lemma QuotientAtLeast(x: int, d: int, bound: int)
    requires d >= 1 && d * bound <= x
    ensures bound <= x / d
  {
    DivMod(x, d);
    if x / d < bound {
      MulMonotone(x / d + 1, bound, d);
    }
  }

  lemma QuotientAtMost(x: int, d: int)
    requires 0 <= x && d >= 1
    ensures 0 <= x / d <= x
  {
    QuotientAtLeast(x, d, 0);
    MulMonotone(1, d, x + 1);
    QuotientBelow(x, d, x + 1);
  }

  /** The quotient and the remainder are the only way to write x over d. */
  lemma DivModUnique(x: int, d: int, q: int, r: int)
    requires d >= 1 && 0 <= r < d && x == q * d + r
    ensures x / d == q && x % d == r
  {
    QuotientAtLeast(x, d, q);
    assert d * (q + 1) == q * d + d;
    QuotientBelow(x, d, q + 1);
    DivMod(x, d);
  }

  lemma Distribute(q: int, digit: int, q1: int, u: int, w: int)
    requires q == digit + q1 * u
    ensures q * w == digit * w + q1 * (w * u)
  {
    assert (digit + q1 * u) * w == digit * w + (q1 * u) * w;
    assert (q1 * u) * w == q1 * (w * u);
  }
}
