/** Powers of two, and quotients by products of them. */
module Arithmetic {

  function Pow2(k: nat): (p: nat)
    ensures p >= 1
  {
    if k == 0 then 1 else 2 * Pow2(k - 1)
  }

  lemma {:induction false} PowSum(j: nat, k: nat)
    ensures Pow2(j + k) == Pow2(j) * Pow2(k)
  {
    if j > 0 {
      PowSum(j - 1, k);
      assert 2 * (Pow2(j - 1) * Pow2(k)) == 2 * Pow2(j - 1) * Pow2(k);
    }
  }

  lemma DivideTwice(x: nat, p: nat, q: nat)
    requires p > 0 && q > 0
    ensures p * q > 0 && x / (p * q) == x / p / q
  {
    var d, r := x / p / q, x / p % q;
    assert x / p == d * q + r;
    var s := x % p;
    assert x == p * (x / p) + s;
    assert p * (x / p) == p * (d * q + r) == (p * q) * d + p * r;
    assert x == (p * q) * d + (p * r + s);
    Below(p, q, r, s);
    Quotient(x, p * q, d, p * r + s);
  }

  lemma Below(p: nat, q: nat, r: nat, s: nat)
    requires r < q && s < p
    ensures p * r + s < p * q
  {
    assert p * (q - r) == p * q - p * r;
    assert p * (q - r) >= p * 1 by {
      Multiply(p, 1, q - r);
    }
  }

  lemma Multiply(p: nat, x: nat, y: nat)
    requires x <= y
    ensures p * x <= p * y
  {
    assert p * y - p * x == p * (y - x);
  }

  lemma Next(m: nat, x: nat, y: nat)
    ensures x < y ==> m * x + m <= m * y
  {
    if x < y {
      Multiply(m, x + 1, y);
      assert m * (x + 1) == m * x + m;
    }
  }

  lemma Quotient(x: nat, m: nat, d: nat, r: nat)
    requires m > 0 && x == m * d + r && r < m
    ensures x / m == d
  {
    var e := x / m;
    assert x == m * e + x % m;
    Next(m, e, d);
    Next(m, d, e);
  }

  lemma RemainderHalved(n: nat, p: nat)
    requires p > 0
    ensures n % (2 * p) % 2 == n % 2 && n % (2 * p) / 2 == n / 2 % p
  {
    var q, r := n / 2 / p, n / 2 % p;
    DivideTwice(n, 2, p);
    assert n / 2 == p * q + r;
    assert (2 * p) * q == 2 * (p * q);
    assert n == (2 * p) * q + (2 * r + n % 2);
    assert n % (2 * p) == n - (2 * p) * (n / (2 * p)) == 2 * r + n % 2;
  }
}
