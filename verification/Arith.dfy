/** Machine words, and facts about multiplication and division that the solver needs spelled out. */
module Arith {

  const U64_VALUES: nat := 0x1_0000_0000_0000_0000

  const U64_MAX: nat := 0xffff_ffff_ffff_ffff

  type U64 = n: nat | n < U64_VALUES

  function Min(x: nat, y: nat): nat {
    if x <= y then x else y
  }

  lemma MulLe(a: int, b: int, f: nat)
    ensures a <= b ==> a * f <= b * f
  {
  }

  lemma MulSucc(a: int, f: int)
    ensures (a + 1) * f == a * f + f
  {
  }

  function Quotient(n: nat, d: nat): nat
    requires d > 0
  {
    n / d
  }

  lemma DivBounds(n: nat, d: nat)
    requires d > 0
    ensures (n / d) * d <= n < (n / d) * d + d
  {
    assert n == (n / d) * d + n % d;
  }

  /** A quotient is the only multiple count that leaves a proper remainder. */
  lemma DivUnique(n: nat, d: nat, q: nat)
    requires d > 0 && q * d <= n < q * d + d
    ensures n / d == q
  {
    DivBounds(n, d);
    MulSucc(q, d);
    MulSucc(n / d, d);
    MulLe(n / d + 1, q, d);
    MulLe(q + 1, n / d, d);
  }

  lemma DivBelow(n: nat, d: nat, m: nat)
    requires d > 0
    ensures n < m * d <==> n / d < m
  {
    DivBounds(n, d);
    MulSucc(n / d, d);
    MulLe(m, n / d, d);
    MulLe(n / d + 1, m, d);
  }

  lemma DivMonotone(x: nat, y: nat, d: nat)
    requires d > 0 && x <= y
    ensures x / d <= y / d
  {
    DivBelow(x, d, y / d + 1);
    DivBounds(y, d);
    MulSucc(y / d, d);
  }

  lemma DivMod(n: nat, d: nat)
    requires d > 0
    ensures n == (n / d) * d + n % d
  {
  }

  lemma ModGap(m: nat, n: nat, count: nat)
    requires count > 0 && m < n && m % count == n % count
    ensures n - m >= count
  {
    DivMod(m, count);
    DivMod(n, count);
    MulLe(n / count, m / count, count);
    MulLe(m / count + 1, n / count, count);
    MulSucc(m / count, count);
  }

  lemma DivTwice(n: nat, d: nat, e: nat)
    requires d > 0 && e > 0
    ensures d * e > 0 && n / d / e == n / (d * e)
  {
    var q, r := n / d, n / d / e;
    MulLe(1, e, d);
    DivBounds(n, d);
    DivBounds(q, e);
    MulLe(r * e, q, d);
    MulLe(q + 1, r * e + e, d);
    MulSucc(q, d);
    assert (r * e) * d == r * (d * e) && (r * e + e) * d == r * (d * e) + d * e;
    DivUnique(n, d * e, r);
  }
}
