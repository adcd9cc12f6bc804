/** Facts about products and truncating quotients that the pricing proofs
    use; each is one step Z3's non-linear arithmetic does not take unaided. */
module Arith {
  import opened Js

  lemma NonNegativeProduct(a: int, b: int)
    requires a >= 0 && b >= 0
    ensures a * b >= 0
  {
  }

  lemma PositiveProduct(a: int, b: int)
    requires a > 0 && b > 0
    ensures a * b > 0
  {
  }

  lemma MultiplyAssociates(a: int, b: int, c: int)
    ensures a * (b * c) == (a * b) * c
  {
  }

  lemma MultiplyBoth(a: int, b: int, c: int)
    requires a <= b && c >= 0
    ensures a * c <= b * c
  {
    NonNegativeProduct(b - a, c);
    assert b * c - a * c == (b - a) * c;
  }

  lemma MultiplyBothStrict(a: int, b: int, c: int)
    requires a < b && c > 0
    ensures a * c < b * c
  {
    PositiveProduct(b - a, c);
    assert b * c - a * c == (b - a) * c;
  }

  lemma CancelLe(a: int, b: int, c: int)
    requires c > 0 && a * c <= b * c
    ensures a <= b
  {
    if a > b {
      MultiplyBothStrict(b, a, c);
    }
  }

  lemma CancelLt(a: int, b: int, c: int)
    requires c > 0 && a * c < b * c
    ensures a < b
  {
    if a >= b {
      MultiplyBoth(b, a, c);
    }
  }

  /** On a non-negative dividend and a positive divisor the truncating
      quotient is the floor. */
  lemma QuotientIsFloor(p: int, d: int, q: int)
    requires p >= 0 && d > 0 && q == TDiv(p, d)
    ensures q >= 0
    ensures q * d <= p < (q + 1) * d
  {
    TDivMeaning(p, d);
    EuclidOnNaturals(p, d);
  }

  /** A product divided by one of its positive factors is the other. */
  lemma DivideProduct(k: int, m: int)
    requires m > 0
    ensures (k * m) / m == k
  {
    var q, r := (k * m) / m, (k * m) % m;
    assert k * m == q * m + r && 0 <= r < m;
    assert (q + 1) * m == q * m + m;
    CancelLe(q, k, m);
    CancelLt(k, q + 1, m);
  }
}
