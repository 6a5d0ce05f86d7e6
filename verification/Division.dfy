/** Quotient and remainder are the only ones there are. */
module Division {
  lemma Quotient(n: int, d: nat, q: int, r: int)
    requires 0 <= r < d && n == q * d + r
    ensures n / d == q && n % d == r
  {
    var k, r1 := n / d - q, n % d;
    assert n == (n / d) * d + r1 && (n / d) * d == (q + k) * d;
    Distribute(q, k, d);
    assert k * d == r - r1;
    if k > 0 { Multiple(k, d); }
    if k < 0 { Multiple(-k, d); }
  }

  lemma Distribute(q: int, k: int, d: int)
    ensures (q + k) * d == q * d + k * d
  {
  }

  lemma Multiple(k: int, d: nat)
    requires k >= 1
    ensures k * d >= d
  {
    assert k * d == (k - 1) * d + d;
  }
}
