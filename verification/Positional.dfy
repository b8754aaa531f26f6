/** Numbers written in a base, highest digit first. */
module Positional {
  import opened Integers

  type Digits = seq<nat>

  ghost predicate DigitsOf(s: Digits, base: nat) {
    forall i :: 0 <= i < |s| ==> s[i] < base
  }

  function Number(s: Digits, base: nat): nat {
    if s == [] then 0 else Times(Number(s[..|s| - 1], base), base) + s[|s| - 1]
  }

  function Times(x: nat, y: nat): nat {
    x * y
  }

  /** The shortest way to write v: no leading zero. */
  function Written(v: nat, base: nat): (s: Digits)
    requires base > 1
    decreases v
  {
    if v == 0 then [] else Shrinks(v, base); Written(v / base, base) + [v % base]
  }

  lemma Shrinks(v: nat, base: nat)
    requires v > 0 && base > 1
    ensures 0 <= v / base < v && v == (v / base) * base + v % base && 0 <= v % base < base
  {
    var q := v / base;
    assert v == q * base + v % base;
    if q >= v {
      Monotone(2, base, q);
    }
  }

  predicate NoLeadingZero(s: Digits) {
    s != [] ==> s[0] != 0
  }

  lemma {:induction false} WrittenIs(v: nat, base: nat)
    requires base > 1
    ensures DigitsOf(Written(v, base), base) && NoLeadingZero(Written(v, base)) && Number(Written(v, base), base) == v
    ensures v > 0 ==> Written(v, base) != []
    decreases v
  {
    if v > 0 {
      Shrinks(v, base);
      var s, high := Written(v, base), Written(v / base, base);
      WrittenIs(v / base, base);
      assert s[..|s| - 1] == high;
      if high == [] {
        assert Number(high, base) == 0;
      } else {
        assert s[0] == high[0];
      }
    }
  }

  /** A number has only one writing without a leading zero. */
  lemma {:induction false} WrittenUnique(s: Digits, base: nat)
    requires base > 1 && DigitsOf(s, base) && NoLeadingZero(s)
    ensures Written(Number(s, base), base) == s && (s != [] ==> Number(s, base) > 0)
  {
    if s != [] {
      var high, d := s[..|s| - 1], s[|s| - 1];
      WrittenUnique(high, base);
      var n := Number(high, base);
      LastDigit(n, base, d);
      if high == [] {
        assert s[0] == d;
      } else {
        Monotone(1, n, base);
      }
      assert s == high + [d];
    }
  }

  lemma LastDigit(n: nat, base: nat, d: nat)
    requires d < base
    ensures (n * base + d) / base == n && (n * base + d) % base == d
  {
    var v := n * base + d;
    var e := v / base - n;
    assert v == (v / base) * base + v % base;
    assert e * base == d - v % base;
    if e >= 1 {
      Monotone(1, e, base);
    }
    if e <= -1 {
      Monotone(e, -1, base);
    }
  }

  /** Leading zeros do not count. */
  lemma {:induction false} LeadingZero(s: Digits, base: nat)
    requires s != [] && s[0] == 0
    ensures Number(s, base) == Number(s[1..], base)
  {
    var t := s[1..];
    if t != [] {
      var high := s[..|s| - 1];
      LeadingZero(high, base);
      assert high[1..] == t[..|t| - 1];
    }
  }

  // ----- Powers -----

  function Pow(b: nat, n: nat): nat {
    if n == 0 then 1 else Times(b, Pow(b, n - 1))
  }

  lemma {:induction false} PowPositive(b: nat, n: nat)
    requires b > 0
    ensures Pow(b, n) > 0
  {
    if n > 0 {
      PowPositive(b, n - 1);
      Monotone(1, Pow(b, n - 1), b);
    }
  }

  lemma {:induction false} NumberBelow(s: Digits, base: nat)
    requires base > 0 && DigitsOf(s, base)
    ensures Number(s, base) < Pow(base, |s|)
  {
    if s != [] {
      var high := s[..|s| - 1];
      NumberBelow(high, base);
      var p := Pow(base, |s| - 1);
      Monotone(Number(high, base), p - 1, base);
      assert (p - 1) * base == base * p - base;
    }
  }

  lemma {:induction false} PowJoin(b: nat, m: nat, n: nat)
    ensures Pow(b, m + n) == Pow(b, m) * Pow(b, n)
  {
    if m > 0 {
      PowJoin(b, m - 1, n);
      Associate(b, Pow(b, m - 1), Pow(b, n), Pow(b, m - 1 + n));
      assert Pow(b, m + n) == Times(b, Pow(b, m - 1 + n));
    }
  }

  lemma Associate(a: nat, x: nat, y: nat, z: nat)
    requires z == x * y
    ensures a * z == (a * x) * y
  {
  }

  lemma {:induction false} PowGrows(b: nat, m: nat, n: nat)
    requires b > 0 && m <= n
    ensures Pow(b, m) <= Pow(b, n)
  {
    if m < n {
      PowGrows(b, m, n - 1);
      Monotone(1, b, Pow(b, n - 1));
    }
  }

  /** If p steps of b go no further than q steps of c, so do k * p and k * q. */
  lemma {:induction false} PowCompare(b: nat, p: nat, c: nat, q: nat, k: nat)
    requires Pow(b, p) <= Pow(c, q)
    ensures Pow(b, k * p) <= Pow(c, k * q)
  {
    if k > 0 {
      PowCompare(b, p, c, q, k - 1);
      PowJoin(b, p, (k - 1) * p);
      PowJoin(c, q, (k - 1) * q);
      assert p + (k - 1) * p == k * p && q + (k - 1) * q == k * q;
      ProductGrows(Pow(b, p), Pow(b, (k - 1) * p), Pow(c, q), Pow(c, (k - 1) * q));
    }
  }

  lemma ProductGrows(a: nat, x: nat, b: nat, y: nat)
    requires a <= b && x <= y
    ensures a * x <= b * y
  {
    Monotone(a, b, x);
    Monotone(x, y, b);
  }
}
