/** The few facts about products, quotients and powers of two that several models need. */
module Arithmetic {

  lemma {:induction false} MulNext(a: nat, n: nat)
    ensures a * (n + 1) == a * n + a
  {}

  lemma {:induction false} MulAssociates(a: nat, b: nat, c: nat)
    ensures a * (b * c) == (a * b) * c
  {}

  lemma {:induction false} MulOrder(a: nat, m: nat, n: nat)
    ensures m < n ==> a * m + a <= a * n
    decreases n
  {
    if m < n {
      MulNext(a, n - 1);
      MulOrder(a, m, n - 1);
    }
  }

  /** Quotient and remainder are the only such pair. */
  lemma {:induction false} DivModIs(y: nat, d: nat, q: nat, r: nat)
    requires r < d && y == d * q + r
    ensures y / d == q && y % d == r
  {
    assert y == d * (y / d) + y % d;
    MulOrder(d, y / d, q);
    MulOrder(d, q, y / d);
  }

  lemma {:induction false} MulSum(a: nat, x: nat, y: nat)
    ensures a * (x + y) == a * x + a * y
  {}

  lemma {:induction false} TwoQuotients(a: nat, b: nat, q: nat, r: nat, s: nat)
    requires r < b && s < a
    ensures a * (b * q + r) + s == (a * b) * q + (a * r + s) && a * r + s < a * b
  {
    MulSum(a, b * q, r);
    MulAssociates(a, b, q);
    MulOrder(a, r, b);
  }

  lemma {:induction false} Divide(n: nat, d: nat) returns (q: nat, r: nat)
    requires d > 0
    ensures n / d == q && n == d * q + r && r < d
  {
    q, r := n / d, n % d;
  }

  /** Dividing twice is dividing by the product. */
  lemma {:induction false} DivDiv(n: nat, a: nat, b: nat, p: nat)
    requires a > 0 && b > 0 && p == a * b
    ensures p > 0 && n / a / b == n / p
  {
    var m, s := Divide(n, a);
    var q, r := Divide(m, b);
    TwoQuotients(a, b, q, r, s);
    DivModIs(n, p, q, a * r + s);
  }

  function Pow2(n: nat): (p: nat)
    ensures p >= 1
  {
    if n == 0 then 1 else 2 * Pow2(n - 1)
  }

  lemma {:induction false} Pow2Grows(n: nat)
    ensures Pow2(0) == 1 && Pow2(n + 1) == Pow2(n) + Pow2(n)
  {}
}
