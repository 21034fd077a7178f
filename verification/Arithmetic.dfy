/** Products, quotients and extremes that several kernels need. Nonlinear facts are proved here once, by name. */
module Arithmetic {

  function Min(a: real, b: real): (r: real)
    ensures r <= a && r <= b && (r == a || r == b)
  {
    if a > b then b else a
  }

  function Max(a: real, b: real): (r: real)
    ensures r >= a && r >= b && (r == a || r == b)
  {
    if a < b then b else a
  }

  function Abs(a: real): (r: real)
    ensures r >= 0.0 && (r == a || r == -a)
  {
    if a < 0.0 then -a else a
  }

  lemma {:induction false} NatProduct(a: nat, b: nat)
    ensures a * b >= 0
    ensures a > 0 ==> a * b >= b
  {
    if a > 0 {
      NatProduct(a - 1, b);
      assert a * b == (a - 1) * b + b;
    }
  }

  /** Block i of n blocks of size m lies inside them. */
  lemma BlockFits(i: nat, n: nat, m: nat)
    requires i < n
    ensures 0 <= i * m && i * m + m == (i + 1) * m <= n * m
  {
    NatProduct(i, m);
    NatProduct(n - 1 - i, m);
    assert n * m == (n - 1 - i) * m + (i + 1) * m;
    assert (i + 1) * m == i * m + m;
  }

  lemma MultipleOutside(x: int, d: int)
    requires d > 0
    ensures x >= 1 ==> x * d >= d
    ensures x <= -1 ==> x * d <= -d
  {
    if x >= 1 {
      NatProduct(x, d);
    } else if x <= -1 {
      NatProduct(-x, d);
      assert x * d == -(-x * d);
    }
  }

  /** Quotient and remainder are determined by their equation. */
  lemma QuotRem(n: int, q: int, d: int, r: int)
    requires n == q * d + r && 0 <= r < d
    ensures n / d == q && n % d == r
  {
    var x := n / d - q;
    assert n == d * (n / d) + n % d;
    assert x * d == r - n % d;
    MultipleOutside(x, d);
  }

  /** Stepping back by the divisor keeps the remainder; a multiple that is not zero allows the step. */
  lemma ModShift(x: nat, d: nat)
    requires d > 0
    ensures x >= d ==> (x - d) % d == x % d
    ensures x % d == 0 && x > 0 ==> x >= d
  {
    var q := x / d;
    assert x == d * q + x % d;
    if x >= d {
      QuotRem(x - d, q - 1, d, x % d);
    }
  }
}
