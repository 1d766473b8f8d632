/** The few facts about products and quotients the proofs need. */
module Arithmetic {

  lemma ProductGap(a: nat, b: nat, d: nat)
    requires a < b
    ensures a * d + d <= b * d
  {
    assert b * d == a * d + d + (b - a - 1) * d;
  }

  lemma QuotientIs(x: nat, n: nat, q: nat, r: nat)
    requires n > 0 && r < n && x == q * n + r
    ensures x / n == q && x % n == r
  {
    var p, s := x / n, x % n;
    assert x == n * p + s;
    assert n * p == p * n;
    SameQuotient(n, p, s, q, r);
  }

  lemma SameQuotient(n: nat, p: nat, s: nat, q: nat, r: nat)
    requires r < n && s < n && p * n + s == q * n + r
    ensures p == q && s == r
  {
    if p < q {
      ProductGap(p, q, n);
    } else if q < p {
      ProductGap(q, p, n);
    }
  }
}
