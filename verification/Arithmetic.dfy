/** Facts about products and quotients of variables, each small enough to be used by name. */
module Arithmetic {
  lemma MulMonotone(a: nat, b: nat, p: nat)
    requires a <= b
    ensures a * p <= b * p
  {
  }

  lemma MulLess(a: nat, b: nat, p: nat)
    requires a * p < b * p
    ensures a < b
  {
    if b <= a { MulMonotone(b, a, p); }
  }

  lemma MulBelow(r: nat, d: nat, p: nat)
    requires r < d && p > 0
    ensures r * p < d * p
  {
    MulMonotone(r + 1, d, p);
    AddMul(r, 1, p);
  }

  lemma MulCancel(a: nat, b: nat, p: nat)
    requires a * p == b * p && p > 0
    ensures a == b
  {
    AddMul(a, 1, p);
    AddMul(b, 1, p);
    if a < b { MulMonotone(a + 1, b, p); }
    if b < a { MulMonotone(b + 1, a, p); }
  }

  lemma AddMul(a: nat, b: nat, p: nat)
    ensures (a + b) * p == a * p + b * p
  {
  }

  lemma MulAssoc(a: nat, b: nat, c: nat)
    ensures (a * b) * c == a * (b * c)
  {
  }

  lemma DivFacts(x: nat, d: nat)
    requires d > 0
    ensures x / d >= 0 && x / d * d <= x < (x / d + 1) * d && x == x / d * d + x % d && x % d < d
  {
  }

  lemma MulBound(g: int, d: int)
    requires g > 0
    ensures d >= 1 ==> g * d >= g
    ensures d <= -1 ==> g * d <= -g
  {
  }

  /** A quotient and a remainder below the divisor are the quotient and the remainder. */
  lemma DivIs(x: int, d: nat, q: int, r: nat)
    requires d > 0 && x == q * d + r && r < d
    ensures x / d == q && x % d == r
  {
    var e := q - x / d;
    assert d * e == x % d - r by { assert x == x / d * d + x % d; }
    MulBound(d, e);
  }
}
