/** Quotients and remainders of integers, which the solver does not relate for symbolic divisors. */
module Modular {

  lemma Small(b: int, k: int)
    requires -b < b * k < b
    ensures k == 0
  {
  }

  /** A quotient and a remainder in range are the only ones. */
  lemma Division(a: int, b: int, q: int, r: int)
    requires b > 0 && 0 <= r < b && a == b * q + r
    ensures a / b == q && a % b == r
  {
    var p := a / b;
    assert a == b * p + a % b;
    assert b * (p - q) == r - a % b;
    Small(b, p - q);
  }

  lemma AddMultiple(a: int, b: int, k: int)
    requires b > 0
    ensures (a + b * k) % b == a % b
  {
    var q, r := a / b, a % b;
    assert a == b * q + r;
    assert a + b * k == b * (q + k) + r;
    Division(a + b * k, b, q + k, r);
  }

  /** Adding the same keeps equal remainders equal. */
  lemma AddToBoth(a: int, b: int, k: int, m: int)
    requires m > 0 && a % m == b % m
    ensures (a + k) % m == (b + k) % m
  {
    var p, q, r := a / m, b / m, a % m;
    assert a == m * p + r && b == m * q + r;
    assert a + k == b + k + m * (p - q);
    AddMultiple(b + k, m, p - q);
  }

  /** Numbers with the same remainder and less than a divisor apart are equal. */
  lemma CloseCongruent(a: int, b: int, m: int)
    requires m > 0 && a % m == b % m && -m < a - b < m
    ensures a == b
  {
    var p, q, r := a / m, b / m, a % m;
    assert a == m * p + r && b == m * q + r;
    assert m * (p - q) == a - b;
    Small(m, p - q);
  }
}
