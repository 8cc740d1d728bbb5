/** Facts about products and quotients of integers that the calendar and the printer share. */
module Arithmetic {

  lemma TimesAtLeast(unit: nat, d: int)
    requires d >= 1
    ensures unit * d >= unit
  {}

  /** Quotient and remainder are unique. */
  lemma QuotientUnique(unit: nat, q1: int, r1: nat, q2: int, r2: int)
    requires r1 < unit && 0 <= r2 < unit && unit * q1 + r1 == unit * q2 + r2
    ensures q1 == q2 && r1 == r2
  {
    var d := q1 - q2;
    assert unit * d == r2 - r1;
    if d >= 1 {
      TimesAtLeast(unit, d);
    } else if d <= -1 {
      TimesAtLeast(unit, -d);
    }
  }

  lemma Quotient(unit: nat, count: int, rest: nat)
    requires rest < unit
    ensures (unit * count + rest) / unit == count && (unit * count + rest) % unit == rest
  {
    QuotientUnique(unit, count, rest, (unit * count + rest) / unit, (unit * count + rest) % unit);
  }

  lemma MultipleQuotient(count: int, unit: nat)
    requires unit > 0
    ensures count * unit / unit == count
  {
    Quotient(unit, count, 0);
  }

  /** Dividing twice is dividing by the product. */
  lemma NestedQuotient(x: nat, a: nat, b: nat)
    requires a > 0 && b > 0
    ensures a * b > 0 && x / a / b == x / (a * b)
  {
    var q, p := x / a, x / a / b;
    var r, s := x % a, x / a % b;
    assert x == a * q + r && q == b * p + s;
    assert a * q == a * (b * p) + a * s;
    assert a * (b * p) == a * b * p;
    TimesLess(s, b - 1, a);
    assert (b - 1) * a == a * b - a;
    TimesLess(1, b, a);
    Quotient(a * b, p, a * s + r);
  }

  lemma TimesLess(a: int, b: int, k: nat)
    requires a <= b
    ensures a * k <= b * k
  {}
}
