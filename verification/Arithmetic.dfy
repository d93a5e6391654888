/** Facts about products, quotients and remainders. */
module Arithmetic {

  lemma ProductMonotone(a: int, b: int, n: int)
    requires a <= b && n >= 0
    ensures a * n <= b * n
  {
    assert b * n == a * n + (b - a) * n;
    assert (b - a) * n >= 0;
  }

  /** `q * n` is above `p * n` by at least `n`. */
  lemma MultiplesApart(p: int, q: int, n: int)
    requires p < q && n >= 0
    ensures p * n + n <= q * n
  {
    ProductMonotone(p + 1, q, n);
    assert (p + 1) * n == p * n + n;
  }

  /** Quotient and remainder are the only ones. */
  lemma DivisionIs(x: int, q: int, n: int, r: int)
    requires x == q * n + r && 0 <= r < n
    ensures x / n == q && x % n == r
  {
    var p := x / n;
    assert x == p * n + x % n;
    assert p < q ==> p * n + n <= q * n by {
      if p < q {
        MultiplesApart(p, q, n);
      }
    }
    assert q < p ==> q * n + n <= p * n by {
      if q < p {
        MultiplesApart(q, p, n);
      }
    }
  }

  lemma SmallRemainder(x: int, n: int)
    requires 0 <= x < n
    ensures x % n == x
  {
  }
}
