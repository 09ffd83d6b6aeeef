/** Quotients and remainders. */
module Arithmetic {
  lemma Monotone(a: int, b: int, d: nat)
    requires a <= b
    ensures a * d <= b * d
  {
  }

  lemma QuotientIs(n: nat, d: nat, q: nat, r: nat)
    requires d > 0 && n == q * d + r && r < d
    ensures n / d == q && n % d == r
  {
    var q', r' := n / d, n % d;
    assert n == q' * d + r';
    if q' < q { Monotone(q' + 1, q, d); }
    if q < q' { Monotone(q + 1, q', d); }
  }

  lemma ModAdd(a: nat, b: nat, n: nat)
    requires n > 0
    ensures (a % n + b) % n == (a + b) % n
  {
    var q, r := (a % n + b) / n, (a % n + b) % n;
    assert a == (a / n) * n + a % n;
    assert (a / n + q) * n == (a / n) * n + q * n;
    QuotientIs(a + b, n, a / n + q, r);
  }
}
