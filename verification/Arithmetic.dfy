/** Facts about quotients and remainders that the solver does not find by itself. */
module Arithmetic {

  lemma QuotientIsUnique(n: int, d: nat, q: int, r: nat)
    requires d > 0
    requires n == d * q + r && r < d
    ensures n / d == q && n % d == r
  {
    ScaledDifference(d, q - n / d, n % d - r);
  }

  lemma ScaledDifference(d: int, x: int, y: int)
    requires d * x == y && -d < y < d
    ensures x == 0
  {
    assert x >= 1 ==> d * x >= d;
    assert x <= -1 ==> d * x + d <= 0;
  }

  lemma MultipleHasNoRemainder(d: nat, q: nat)
    requires d > 0
    ensures (d * q) % d == 0 && (d * q) / d == q
  {
    QuotientIsUnique(d * q, d, q, 0);
  }

  lemma QuotientAtLeast(n: nat, d: nat, q: nat)
    requires d > 0 && n >= q * d
    ensures n / d >= q
  {
    var k := n / d;
    assert k < q ==> (k + 1) * d <= q * d;
  }

  lemma QuotientBelow(n: nat, d: nat, q: nat)
    requires d > 0 && n < q * d
    ensures n / d < q
  {
    var k := n / d;
    assert k >= q ==> k * d >= q * d;
  }

  lemma RemainderOfSum(n: nat, k: nat, d: nat)
    requires d > 0
    ensures (n + k * d) % d == n % d
  {
    assert n + k * d == d * (n / d + k) + n % d;
    QuotientIsUnique(n + k * d, d, n / d + k, n % d);
  }

  lemma Distribute(f: int, a: int, b: int)
    ensures f * (a + b) == f * a + f * b
    ensures (a - b) * f == a * f - b * f
  {
  }
}
