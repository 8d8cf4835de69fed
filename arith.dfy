// Small facts of non-linear integer arithmetic that the layout and the
// partition proofs rest on. Dafny's `/` and `%` are Euclidean; the callers
// pass only non-negative operands, where Euclidean division agrees with
// C++'s truncating division.
module Arith {

  /** Multiplying both sides of `x <= y` by a non-negative factor. */
  lemma {:induction false} MulLeq(x: int, y: int, p: int)
    requires x <= y && 0 <= p
    ensures x * p <= y * p
    decreases p
  {
    if p > 0 {
      MulLeq(x, y, p - 1);
    }
  }

  /** Quotient and remainder of `q * p + r` are `q` and `r` when `0 <= r < p`. */
  lemma DivModOf(q: int, r: int, p: int)
    requires 1 <= p && 0 <= r < p
    ensures (q * p + r) / p == q && (q * p + r) % p == r
  {
    var n := q * p + r;
    var d, m := n / p, n % p;
    assert n == d * p + m && 0 <= m < p;
    if d > q {
      MulLeq(q + 1, d, p);
    } else if d < q {
      MulLeq(d + 1, q, p);
    }
  }

  /** Integer division by a positive divisor is monotone. */
  lemma DivMonotone(a: int, b: int, p: int)
    requires 0 <= a <= b && 1 <= p
    ensures a / p <= b / p
  {
    if a / p > b / p {
      MulLeq(b / p + 1, a / p, p);
    }
  }
}
