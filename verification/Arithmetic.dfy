/** Facts about division that the solver does not find on its own. */
module Arithmetic {

  lemma AtLeastOnce(d: int, p: int)
    requires p > 0
    ensures d > 0 ==> d * p >= p
    ensures d < 0 ==> d * p <= -p
  {
  }

  /** Quotient and remainder are unique. */
  lemma Euclid(x: int, q: int, r: int, p: int)
    requires p > 0 && 0 <= r < p && x == q * p + r
    ensures x % p == r && x / p == q
  {
    var d := q - x / p;
    assert d * p == q * p - (x / p) * p;
    AtLeastOnce(d, p);
  }

  lemma ModShifted(x: int, k: int, p: int)
    requires p > 0
    ensures (x + k * p) % p == x % p && (x + k * p) / p == x / p + k
  {
    var q := x / p;
    assert (q + k) * p == q * p + k * p;
    Euclid(x + k * p, q + k, x % p, p);
  }

  lemma Multiples(x: int, p: int)
    requires p > 0
    ensures x % p == x + (-(x / p)) * p
    ensures x % p - p == x + (-(x / p) - 1) * p
  {
    var q := x / p;
    assert x == q * p + x % p;
    assert (-q) * p == -(q * p);
    assert (-q - 1) * p == (-q) * p - p;
  }
}
