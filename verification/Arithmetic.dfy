/** The few nonlinear facts the other modules lean on. */
module Arithmetic {
  lemma MulDistributes(m: int, a: int, b: int)
    ensures m * (a - b) == m * a - m * b
  {
  }

  lemma MulGrows(m: nat, k: int)
    requires k >= 1
    ensures m * k >= m
  {
    MulDistributes(m, k, k - 1);
    assert m * (k - 1) >= 0;
  }

  lemma MulMono(a: nat, b: nat, k: nat)
    requires a <= b
    ensures a * k <= b * k
  {
    MulDistributes(k, b, a);
    assert k * (b - a) >= 0;
  }

  lemma OneMore(a: nat, b: nat)
    ensures (a + 1) * b == a * b + b
  {
  }

  lemma QuotientAndRemainder(a: int, m: nat, q: int, r: nat)
    requires m > 0 && r < m && a == m * q + r
    ensures a / m == q && a % m == r
  {
    var q', r' := a / m, a % m;
    assert a == m * q' + r';
    MulDistributes(m, q, q');
    MulDistributes(m, q', q);
    if q > q' {
      MulGrows(m, q - q');
    } else if q < q' {
      MulGrows(m, q' - q);
    }
  }

  lemma ModuloDropsMultiples(r: int, k: int, m: nat)
    requires m > 0
    ensures (m * k + r) % m == r % m
  {
    var q := r / m;
    assert r == m * q + r % m;
    MulDistributes(m, k, -q);
    QuotientAndRemainder(m * k + r, m, k + q, r % m);
  }

  lemma QuotientBound(a: nat, d: nat, n: nat)
    requires d >= 1 && a * d <= n
    ensures a <= n / d
  {
    assert n == (n / d) * d + n % d;
    OneMore(n / d, d);
    if a > n / d {
      MulMono(n / d + 1, a, d);
    }
  }

  lemma HalvingTwice(a: nat, p: nat)
    requires p >= 1
    ensures (a / p) / 2 == a / (2 * p)
  {
    var q, r := a / p, a % p;
    assert a == p * q + r;
    var q2, r2 := q / 2, q % 2;
    assert p * q == (2 * p) * q2 + p * r2 by {
      assert p * (2 * q2 + r2) == p * (2 * q2) + p * r2;
      assert p * (2 * q2) == (2 * p) * q2;
    }
    var rem := p * r2 + r;
    assert 0 <= rem < 2 * p by {
      if r2 == 0 { assert p * r2 == 0; } else { assert r2 == 1; assert p * r2 == p; }
    }
    QuotientAndRemainder(a, 2 * p, q2, rem);
  }
}
