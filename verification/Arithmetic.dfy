/** Products and quotients of natural numbers. */
module Arithmetic {

  lemma Products(a: nat, b: nat, x: nat, y: nat)
    requires a <= b && x <= y
    ensures a * x <= b * y
  {
    assert a * x <= a * y <= b * y;
  }

  lemma Floor(x: nat, d: nat) returns (q: nat, r: nat)
    requires d > 0
    ensures q == x / d && r == x % d && x == q * d + r && r < d
  {
    q, r := x / d, x % d;
  }

  lemma Spread(a: nat, b: nat, n: nat)
    ensures (a + b) * n == a * n + b * n
  {}

  lemma DivBelow(f: nat, x: nat, k: nat)
    requires x > 0 && f < k * x
    ensures f / x < k
  {
    var q, r := Floor(f, x);
    if q >= k {
      Products(k, q, x, x);
    }
  }

  lemma DivAbove(f: nat, x: nat, k: nat)
    requires x > 0 && k * x <= f
    ensures k <= f / x
  {
    var q, r := Floor(f, x);
    if q < k {
      Products(q + 1, k, x, x);
      Spread(q, 1, x);
    }
  }

  /** Dividing gives quotient and remainder back. */
  lemma DivideBy(x: nat, d: nat, q: nat, r: nat)
    requires d > 0 && r < d && x == r + d * q
    ensures x / d == q && x % d == r
  {
    Parts(x, d);
    var p := x / d;
    if p > q {
      Products(d, d, q + 1, p);
    } else if p < q {
      Products(d, d, p + 1, q);
    }
  }

  lemma Parts(b: nat, d: nat)
    requires d > 0
    ensures b == b % d + d * (b / d) && b % d < d
  {}
}
