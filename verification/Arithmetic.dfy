/** Powers of two and division with remainder. */
module Arithmetic {

  function Pow2(k: nat): (r: nat)
    ensures r >= 1
  {
    if k == 0 then 1 else 2 * Pow2(k - 1)
  }

  lemma {:induction false} Pow2Monotone(a: nat, b: nat)
    requires a <= b
    ensures Pow2(a) <= Pow2(b)
  {
    if a < b { Pow2Monotone(a, b - 1); }
  }

  lemma Scale(a: int, b: int, d: nat)
    ensures a <= b ==> a * d <= b * d
  {
    assert b * d - a * d == (b - a) * d;
  }

  lemma QuotientBound(k: int, q: int, d: nat)
    requires k * d < (q + 1) * d
    ensures k <= q
  {
    Scale(q + 1, k, d);
  }

  /** A quotient and a remainder below the divisor are the quotient and the remainder. */
  lemma DivUnique(n: int, d: nat, q: int, r: nat)
    requires n == q * d + r && r < d
    ensures n / d == q && n % d == r
  {
    var k := n / d;
    assert n == k * d + n % d;
    assert (q + 1) * d == q * d + d && (k + 1) * d == k * d + d;
    QuotientBound(k, q, d);
    QuotientBound(q, k, d);
  }
}
