/** Laws of floor division. */
module Quotients {
  /** Floor division in two steps. */
  lemma DivideTwice(v: int, a: nat, b: nat)
    requires a > 0 && b > 0
    ensures a * b > 0 && v / a / b == v / (a * b)
  {
    var q, r := v / a, v % a;
    var t, u := q / b, q % b;
    assert v == a * q + r && q == b * t + u;
    Product(a, b, t, u);
    assert v == (a * b) * t + (a * u + r);
    Scaled(a, u, b, r);
    Quotient(v, a * b, t, a * u + r);
  }

  lemma Product(a: nat, b: nat, t: int, u: nat)
    requires a > 0 && b > 0
    ensures a * b > 0 && a * (b * t + u) == (a * b) * t + a * u
  {
  }

  lemma Scaled(a: nat, u: nat, b: nat, r: nat)
    requires u < b && r < a
    ensures 0 <= a * u + r < a * b
  {
    assert a * (u + 1) <= a * b;
    assert a * (u + 1) == a * u + a;
  }

  lemma Quotient(v: int, d: nat, q: int, r: nat)
    requires d > 0 && v == d * q + r && r < d
    ensures v / d == q
  {
    if v / d > q { Above(d, v / d, q); } else if v / d < q { Above(d, q, v / d); }
  }

  lemma Above(d: nat, a: int, b: int)
    requires a > b
    ensures d * a >= d * b + d
  {
    assert d * (a - b - 1) >= 0;
    assert d * (a - b - 1) == d * a - d * b - d;
  }

  lemma AddMultiple(v: int, d: nat, m: int)
    requires d > 0
    ensures (v + d * m) / d == v / d + m
  {
    var q, r := v / d, v % d;
    assert v + d * m == d * (q + m) + r;
    Quotient(v + d * m, d, q + m, r);
  }

  lemma Undo(a: nat, p: nat)
    requires p > 0
    ensures a * p / p == a
  {
    AddMultiple(0, p, a);
  }

  /** A quotient within its limit, as bounds on the dividend. */
  lemma QuotientBounds(a: nat, d: nat, limit: nat)
    requires d > 0 && a < limit * d
    ensures a / d * d <= a < (a / d + 1) * d && a / d < limit
  {
    var q := a / d;
    assert a == d * q + a % d && d * q == q * d && (q + 1) * d == q * d + d;
    if q >= limit { Monotone(limit, q, d); }
  }

  lemma Monotone(a: nat, b: nat, d: nat)
    requires a <= b
    ensures a * d <= b * d
  {
    assert (b - a) * d >= 0;
  }

  /** A common factor cancels. */
  lemma CommonFactor(a: nat, t: nat, n: nat)
    requires t > 0 && n > 0
    ensures n * t > 0 && a * n / (n * t) == a / t
  {
    DivideTwice(a * n, n, t);
    Undo(a, n);
  }

  lemma AtMostDividend(a: nat, d: nat)
    requires d > 0
    ensures 0 <= a / d <= a
  {
    Monotone(1, d, a / d);
    assert a == d * (a / d) + a % d;
  }
}
