/**
 * Comparisons of integer ratios evaluated as reals, the way the Java code
 * compares `(double) a / b` with a fraction.
 */
module Ratios {
  /** For positive denominators, `a / b < n / d` in the reals is `a * d < n * b`. */
  lemma RatioBelow(a: int, b: int, n: int, d: int)
    requires b > 0 && d > 0
    ensures (a as real) / (b as real) < (n as real) / (d as real) <==> a * d < n * b
  {
    var x := (a as real) / (b as real);
    var y := (n as real) / (d as real);
    var bd := (b * d) as real;
    assert x * (b as real) == a as real;
    assert y * (d as real) == n as real;
    assert (a * d) as real == x * bd;
    assert (n * b) as real == y * bd;
    assert bd > 0.0;
    assert x < y <==> x * bd < y * bd;
  }
}
