/** Facts about multiplication and division. */
module Arithmetic {

  lemma NextMultiple(n: nat, a: nat, b: nat)
    ensures a < b ==> n * a + n <= n * b
  {
    if a < b {
      var d := b - a - 1;
      Distribute(n, a + 1, d);
      Distribute(n, a, 1);
    }
  }

  lemma Distribute(n: nat, a: nat, b: nat)
    ensures n * (a + b) == n * a + n * b && n * b >= 0
  {
  }

  lemma OneMore(n: nat, x: nat)
    ensures (n + 1) * x == n * x + x
  {
  }

  /** A decomposition with a small remainder is the quotient and the remainder. */
  lemma Quotient(n: nat, d: nat, q: nat, r: nat)
    requires d > 0 && r < d && n == d * q + r
    ensures n / d == q && n % d == r
  {
    var p, s := n / d, n % d;
    assert n == d * p + s;
    NextMultiple(d, p, q);
    NextMultiple(d, q, p);
  }

  lemma QuotientBounds(total: nat, n: nat, lo: nat, hi: nat)
    requires n >= 1 && n * lo <= total <= n * hi
    ensures lo <= total / n <= hi
  {
    var q := total / n;
    assert n * q <= total < n * q + n;
    NextMultiple(n, q, lo);
    NextMultiple(n, hi, q);
  }

  lemma MulCompare(a: nat, b: nat, r: nat)
    requires r >= 1
    ensures a * r >= b * r <==> a >= b
  {
    if a < b {
      assert b * r == a * r + (b - a) * r;
    } else {
      assert a * r == b * r + (a - b) * r;
    }
  }
}
