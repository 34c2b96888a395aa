/** Small facts of integer arithmetic that the solver does not find by itself. */
module Arith {

  lemma MulNonNegative(a: int, b: int)
    requires a >= 0 && b >= 0
    ensures a * b >= 0
  {
  }

  lemma MulMonotone(a: int, b: int, k: int)
    requires a <= b && k >= 0
    ensures a * k <= b * k
  {
    MulNonNegative(b - a, k);
    assert (b - a) * k == b * k - a * k;
  }

  // a < b leaves at least k between the multiples.
  lemma MulStep(a: int, b: int, k: int)
    requires a < b && k >= 0
    ensures a * k + k <= b * k
  {
    MulMonotone(a + 1, b, k);
    assert (a + 1) * k == a * k + k;
  }

  lemma MulPred(n: int, k: int)
    ensures n * k == (n - 1) * k + k
  {
  }

  lemma DivLower(x: int, d: int, q: int)
    requires d > 0 && q * d <= x
    ensures q <= x / d
  {
    var r := x / d;
    assert x < r * d + d;
    if q > r {
      MulStep(r, q, d);
    }
  }

  lemma DivUpper(x: int, d: int, q: int)
    requires d > 0 && x <= q * d
    ensures x / d <= q
  {
    var r := x / d;
    assert r * d <= x;
    if r > q {
      MulStep(q, r, d);
    }
  }
}
