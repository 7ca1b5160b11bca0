/** Facts about products and quotients that the solver does not find by itself. */
module Arithmetic {

  lemma NextMultiple(d: nat, x: int, y: int)
    ensures x < y ==> d * x + d <= d * y
  {
    if x < y {
      assert d * y == d * (x + 1) + d * (y - x - 1);
    }
  }

  /** A quotient and remainder are what they should be. */
  lemma QuotientIs(v: nat, d: nat, q: nat, r: nat)
    requires d > 0 && r < d && v == d * q + r
    ensures v / d == q && v % d == r
  {
    NextMultiple(d, v / d, q);
    NextMultiple(d, q, v / d);
  }
}
