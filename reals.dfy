/** Small facts of real arithmetic that the solver does not find by itself, because they
    multiply two unknowns. */
module Reals {
  /** Multiplying by a non-negative factor keeps the order. */
  lemma MulMonotone(c: real, x: real, y: real)
    requires 0.0 <= c && x <= y
    ensures c * x <= c * y
  {
    assert c * y - c * x == c * (y - x);
  }

  /** Dividing by a positive number keeps the order. */
  lemma DivMonotone(x: real, y: real, d: real)
    requires d > 0.0 && x <= y
    ensures x / d <= y / d
  {
    MulMonotone(1.0 / d, x, y);
    assert x / d == (1.0 / d) * x;
    assert y / d == (1.0 / d) * y;
  }

  /** `total * fraction`: a fraction in `[0, 1)` of a whole number lies in `[0, total]`, and
      below it when it is positive. */
  function Scale(total: nat, fraction: real): (p: real)
    requires 0.0 <= fraction < 1.0
    ensures 0.0 <= p <= total as real
    ensures 0 < total ==> p < total as real
  {
    var t := total as real;
    MulMonotone(t, 0.0, fraction);
    MulMonotone(t, fraction, 1.0);
    assert t * 1.0 - t * fraction == t * (1.0 - fraction);
    t * fraction
  }

  /** Scaling by `w` and then by its inverse `s` gives back the value. */
  lemma Cancel(w: real, s: real, x: real)
    requires s * w == 1.0
    ensures (w * x) * s == x
  {
    assert (w * x) * s == x * (s * w);
  }

  /** Dividing by the inverse of `w` is multiplying by `w`. */
  lemma DivByInverse(x: real, w: real, s: real)
    requires s * w == 1.0
    ensures x / s == x * w
  {
    Cancel(w, s, x);
  }

  /** Cubes keep the order of non-negative numbers. */
  lemma CubeMonotone(b: real, a: real)
    requires 0.0 <= b <= a
    ensures b * b * b <= a * a * a
  {
    MulMonotone(b, b, a);
    MulMonotone(a, b, a);
    MulMonotone(b, b * b, a * a);
    MulMonotone(a * a, b, a);
    assert b * (b * b) <= b * (a * a) <= (a * a) * a;
  }
}
