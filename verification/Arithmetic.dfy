/** Facts about division that the solver does not find on its own. */
module Arithmetic {

  lemma Multiples(m: int, d: int)
    requires d > 0
    ensures (m > 0 ==> m * d >= d) && (m < 0 ==> m * d <= -d)
  {
    if m > 0 {
      assert (m - 1) * d >= 0;
    } else if m < 0 {
      assert (-m - 1) * d >= 0;
    }
  }

  /** The quotient is the only number with this remainder. */
  lemma Quotient(x: nat, d: nat, q: int)
    requires d > 0 && 0 <= x - q * d < d
    ensures x / d == q
  {
    var p, r := x / d, x % d;
    assert x == p * d + r && (p - q) * d == p * d - q * d;
    Multiples(p - q, d);
  }

  /** A mean is no larger than a bound on what it is the mean of. */
  lemma MeanBound(sum: nat, n: nat, bound: nat)
    requires n > 0 && sum <= bound * n
    ensures sum / n <= bound
  {
    var p, r := sum / n, sum % n;
    assert sum == p * n + r && (p - bound) * n == p * n - bound * n;
    Multiples(p - bound, n);
  }

  /** A quotient is at least what goes into the dividend as often. */
  lemma QuotientReaches(x: nat, d: nat, q: int)
    requires d > 0
    ensures q <= x / d <==> q * d <= x
  {
    var p, r := x / d, x % d;
    assert x == p * d + r && (q - p) * d == q * d - p * d;
    Multiples(q - p, d);
  }

  lemma ProductsAscend(a: int, b: int, d: int)
    requires a <= b && d >= 0
    ensures a * d <= b * d
  {
    assert (b - a) * d >= 0 && (b - a) * d == b * d - a * d;
  }
}
