/** Quotients and remainders. */
module Division {

  lemma MulMono(a: nat, b: nat, d: nat)
    requires a <= b
    ensures a * d <= b * d && d * a <= d * b
  {
  }

  lemma Divide(n: nat, d: nat) returns (q: nat, r: nat)
    requires d > 0
    ensures n == q * d + r && r < d && r == n % d && q == n / d
  {
    q, r := n / d, n % d;
  }

  /** There is one way only to divide with a remainder. */
  lemma QuotientIs(n: nat, d: nat, q: nat, r: nat)
    requires d > 0 && n == q * d + r && r < d
    ensures n / d == q && n % d == r
  {
    var q', r' := n / d, n % d;
    assert n == q' * d + r';
    if q' < q {
      MulMono(q' + 1, q, d);
    } else if q' > q {
      MulMono(q + 1, q', d);
    }
  }

  function Pow2(k: nat): (p: nat)
    ensures p > 0
  {
    if k == 0 then 1 else 2 * Pow2(k - 1)
  }
}
