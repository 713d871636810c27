/** Integer division facts shared by the index and bit-field arithmetic. */
module Arith {

  /** Division facts: q and r are the quotient and remainder of n by d. */
  lemma DivMod(n: int, d: int, q: int, r: int)
    requires d > 0 && 0 <= r < d && n == q * d + r
    ensures n / d == q && n % d == r
  {
    var q' := n / d;
    assert (q + 1) * d == q * d + d && (q' + 1) * d == q' * d + d;
    if q' > q {
      MulMono(q', q + 1, d);
    } else if q' < q {
      MulMono(q, q' + 1, d);
    }
  }

  /** An exact division multiplies back. */
  lemma ExactDiv(n: int, d: int)
    requires d > 0 && n % d == 0
    ensures n == (n / d) * d
  {
  }

  lemma MulMono(a: int, b: int, d: int)
    ensures a >= b && d >= 0 ==> a * d >= b * d
  {
  }

  /** A quotient is below n when the dividend is below n * d. */
  lemma QuotientBelow(x: int, d: int, n: int)
    requires d > 0 && 0 <= x < n * d
    ensures x / d < n
  {
    var q := x / d;
    if q >= n {
      MulMono(q, n, d);
    }
  }

  /** A mixed-radix number q * d + r with digit r < d and q < n is below n * d. */
  lemma MixedBelow(q: int, r: int, d: int, n: int)
    requires 0 <= q < n && 0 <= r < d
    ensures q * d + r < n * d
  {
    MulMono(n - 1, q, d);
    assert (n - 1) * d == n * d - d;
  }
}
