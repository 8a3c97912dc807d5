/** Facts about products and quotients that the solver does not find by itself. */
module Arith {

  lemma {:induction false} MulGap(a: nat, b: nat, d: nat)
    requires a < b
    ensures a * d + d <= b * d
    decreases b - a
  {
    if a + 1 < b {
      MulGap(a, b - 1, d);
    }
    assert b * d == (b - 1) * d + d;
  }

  lemma QuotientIs(v: nat, d: nat, q: nat, r: nat)
    requires v == q * d + r && r < d
    ensures v / d == q
  {
    QuotientBounds(v, d);
    if v / d < q {
      MulGap(v / d, q, d);
    } else if q < v / d {
      MulGap(q, v / d, d);
    }
  }

  lemma QuotientBounds(n: nat, d: nat)
    requires d > 0
    ensures (n / d) * d <= n < (n / d) * d + d
  {
  }
}
