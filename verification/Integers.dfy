/** Facts of integer arithmetic that several parts share. */
module Integers {
  function Min(a: int, b: int): int {
    if a < b then a else b
  }

  function Max(a: int, b: int): int {
    if a < b then b else a
  }

  lemma Monotone(a: int, b: int, p: nat)
    requires a <= b
    ensures a * p <= b * p
  {
  }

  /** A quotient is determined by its remainder. */
  lemma QuotientIs(v: nat, m: nat, q: nat, rest: nat)
    requires v == m * q + rest && rest < m
    ensures v / m == q
  {
    var d := v / m - q;
    assert v == m * (v / m) + v % m;
    assert d * m == rest - v % m;
    if d >= 1 {
      Monotone(1, d, m);
    }
    if d <= -1 {
      Monotone(d, -1, m);
    }
  }
}
