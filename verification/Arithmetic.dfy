/** Powers of two, and steps of arithmetic on products and remainders that the solver does not take by itself. */
module Arithmetic {
  function Pow2(k: nat): (r: nat)
    ensures r >= 1
  {
    if k == 0 then 1 else 2 * Pow2(k - 1)
  }

  lemma Swap(x: int, p: int)
    ensures x * p == p * x
  {
  }

  lemma Monotone(x: int, y: int, p: int)
    requires x <= y && p >= 0
    ensures x * p <= y * p
  {
  }

  lemma AtLeastOnce(x: int, p: int)
    requires x >= 1 && p >= 1
    ensures x * p >= p
  {
  }

  lemma Distribute(p: int, m: int, x: int, q: int)
    ensures p * (m + x * q) == p * m + x * (p * q)
  {
  }

  lemma Spread(carry: int, p: int)
    ensures carry * p == (carry - 1) * p + p
  {
  }

  lemma SpreadSum(x: int, y: int, p: int)
    ensures (x + y) * p == x * p + y * p
  {
  }

  lemma Regroup(x: int, y: int, b: int, p: int)
    ensures (x + y * b) * p == x * p + y * (b * p)
  {
  }

  lemma SplitProduct(x: int, b: int, m: int, p: int)
    ensures (x + b * m) * p == x * p + m * (b * p)
  {
  }

  lemma Expand(b: int, d: int, carry: int, p: int)
    ensures (b - 1 - d + carry) * p == b * p - p - d * p + carry * p
  {
  }

  lemma Expand3(carry: int, rest: int, p: int)
    ensures (carry - 1 - rest) * p == carry * p - p - rest * p
  {
  }

  lemma Doubled(h: int, p: int)
    ensures h * (2 * p) == 2 * h * p && (h + 1) * (2 * p) == (2 * h + 1) * p + p && (2 * h + 1) * p == 2 * h * p + p
  {
  }

  lemma BelowProduct(x: int, p: int, m: int, q: int)
    requires 0 <= x < p && 0 <= m < q
    ensures x + p * m < p * q
  {
    assert p * (m + 1) <= p * q;
  }

  lemma Steps(p: int, m: int, n: int)
    requires p >= 1 && m < n
    ensures p * m + p <= p * n
  {
    assert p * (m + 1) <= p * n;
  }

  lemma SplitUnique(x: int, m: int, y: int, n: int, p: int)
    requires 0 <= x < p && 0 <= y < p && x + p * m == y + p * n
    ensures x == y && m == n
  {
    if m < n { Steps(p, m, n); } else if n < m { Steps(p, n, m); }
  }

  function Quotient(t: nat, b: nat): nat
    requires b >= 1
  {
    t / b
  }

  lemma DivMod(t: nat, b: nat)
    requires b >= 1
    ensures t == t % b + t / b * b && t % b < b
  {
  }

  lemma SmallMod(d: nat, b: nat)
    requires d < b
    ensures d % b == d
  {
  }

  lemma ModUnique(x: int, u: int, q: int, p: int)
    requires 0 <= u < p && x == u + q * p
    ensures x % p == u
  {
    assert x == x % p + x / p * p;
    Swap(q, p);
    Swap(x / p, p);
    SplitUnique(u, q, x % p, x / p, p);
  }

  lemma QuotientBound(a: nat, b: nat, q: nat)
    requires b >= 1 && a < q * b
    ensures Quotient(a, b) < q
  {
    DivMod(a, b);
    if Quotient(a, b) >= q { Monotone(q, a / b, b); }
  }

  lemma QuotientIs(low: nat, high: nat, p: nat)
    requires low < p
    ensures (low + high * p) / p == high
  {
    var x := low + high * p;
    DivMod(x, p);
    Swap(high, p);
    Swap(x / p, p);
    SplitUnique(low, high, x % p, x / p, p);
  }
}
