/** Bit length, comparison and division of 256-bit numbers: src/arith_uint256.cpp. */
module ArithDivide {
  import opened Bytes
  import opened Integers
  import opened Limbs
  import opened Arith
  import opened ArithShift

  // ----- Comparison -----

  lemma LimbDecides(x: Limbs, y: Limbs, i: nat)
    requires |x| == |y| && i < |x| && x[i] < y[i] && x[i + 1..] == y[i + 1..]
    ensures Value(x) < Value(y)
  {
    ValueSplit(x, i);
    ValueSplit(y, i);
    ValueBound(x[..i]);
    FromStep(x, i);
    FromStep(y, i);
    HighDecides(Value(x[..i]), Value(y[..i]), Radix(i), From(x, i), From(y, i));
  }

  lemma HighDecides(a: nat, b: nat, r: nat, x: nat, y: nat)
    requires a < r && x < y
    ensures a + r * x < b + r * y
  {
    Monotone(x + 1, y, r);
    assert (x + 1) * r == r * x + r;
  }

  /** CompareTo. */
  method CompareTo(pn: array<uint32>, b: array<uint32>) returns (r: int)
    requires pn.Length == b.Length == WIDTH
    ensures r == if Value(pn[..]) < Value(b[..]) then -1 else if Value(pn[..]) > Value(b[..]) then 1 else 0
  {
    var i := WIDTH - 1;
    while i >= 0
      invariant -1 <= i < WIDTH && pn[i + 1..] == b[i + 1..]
    {
      if pn[i] < b[i] {
        LimbDecides(pn[..], b[..], i);
        return -1;
      }
      if pn[i] > b[i] {
        LimbDecides(b[..], pn[..], i);
        return 1;
      }
      assert pn[i..] == [pn[i]] + pn[i + 1..] && b[i..] == [b[i]] + b[i + 1..];
      i := i - 1;
    }
    assert pn[..] == pn[0..] && b[..] == b[0..];
    return 0;
  }

  // ----- Bit length -----

  /** n is the position of the highest bit of v plus one, or zero for zero. */
  ghost predicate IsLength(v: nat, n: nat) {
    v < Pow2(n) && (n > 0 ==> Pow2(n - 1) <= v)
  }

  lemma {:induction false} BitClear(x: nat, n: nat)
    requires x < Pow2(n + 1) && !BitOf(x, n)
    ensures x < Pow2(n)
  {
    if n > 0 {
      BitClear(x / 2, n - 1);
    }
  }

  /** The length of a number from its highest limb that is not zero. */
  lemma LengthOf(x: Limbs, pos: nat, n: nat)
    requires pos < |x| && IsLength(x[pos], n) && n > 0 && forall k :: pos < k < |x| ==> x[k] == 0
    ensures IsLength(Value(x), 32 * pos + n)
  {
    ValueSplit(x, pos);
    ValueBound(x[..pos]);
    FromStep(x, pos);
    ValueZero(x[pos + 1..]);
    RadixIsPow(pos);
    PowJoin(32 * pos, n);
    PowJoin(32 * pos, n - 1);
    LengthAlgebra(Value(x[..pos]), Radix(pos), x[pos], Pow2(n - 1));
  }

  lemma LengthAlgebra(low: nat, r: nat, x: nat, p: nat)
    requires low < r && p <= x < 2 * p
    ensures r * p <= low + r * x < r * (2 * p)
  {
    Monotone(p, x, r);
    Monotone(x, 2 * p - 1, r);
    assert (2 * p - 1) * r == r * (2 * p) - r;
  }

  /** bits() */
  method BitLength(pn: array<uint32>) returns (n: nat)
    requires pn.Length == WIDTH
    ensures IsLength(Value(pn[..]), n) && n <= 256
  {
    var pos := WIDTH - 1;
    while pos >= 0
      invariant -1 <= pos < WIDTH && forall k :: pos < k < WIDTH ==> pn[k] == 0
    {
      if pn[pos] != 0 {
        Pow32();
        var nbits := 31;
        while nbits > 0
          invariant 0 <= nbits <= 31 && pn[pos] < Pow2(nbits + 1)
        {
          if BitOf(pn[pos], nbits) {
            BitWeighs(pn[pos], nbits);
            LengthOf(pn[..], pos, nbits + 1);
            return 32 * pos + nbits + 1;
          }
          BitClear(pn[pos], nbits);
          nbits := nbits - 1;
        }
        LengthOf(pn[..], pos, 1);
        return 32 * pos + 1;
      }
      pos := pos - 1;
    }
    ValueZero(pn[..]);
    return 0;
  }

  // ----- Division -----

  ghost predicate IsProduct(x: nat, k: nat, m: nat) {
    x == k * m
  }

  ghost predicate Multiple(x: nat, m: nat) {
    exists k: nat :: IsProduct(x, k, m)
  }

  /** The quotient so far has no bits at or below `shift`. */
  ghost predicate ClearBelow(q: Limbs, shift: int) {
    |q| == WIDTH && shift < 256 &&
    (shift >= 0 ==> Multiple(q[shift / 32], Pow2(shift % 32 + 1)) && forall k :: 0 <= k < shift / 32 ==> q[k] == 0)
  }

  /** A bit below a multiple of the next power of two. */
  lemma BitRoom(x: nat, high: nat, p: nat, n: nat)
    requires x == high * (2 * p) && x < BASE && (2 * p) * n == BASE
    ensures x + p < BASE
  {
    var m := 2 * p;
    if high >= n {
      Monotone(n, high, m);
    }
    Monotone(high, n - 1, m);
    assert (n - 1) * m == n * m - m;
  }

  lemma SetLimbBit(x: uint32, t: nat)
    requires t < 32 && Multiple(x, Pow2(t + 1))
    ensures Or(x, Pow2(t)) == x + Pow2(t) < BASE && Multiple(x + Pow2(t), Pow2(t))
  {
    var p := Pow2(t);
    var high: nat :| IsProduct(x, high, 2 * p);
    OrDisjoint(p, high, t + 1);
    PowJoin(t + 1, 31 - t);
    Pow32();
    BitRoom(x, high, p, Pow2(31 - t));
    Odd(high, p);
    assert IsProduct(x + p, 2 * high + 1, p);
  }

  lemma Odd(high: nat, p: nat)
    ensures high * (2 * p) + p == (2 * high + 1) * p && high * (2 * p) == (2 * high) * p
  {
  }

  /** Moving down one bit keeps the quotient clear. */
  lemma BitsBelow(q: Limbs, shift: nat)
    requires |q| == WIDTH && shift < 256 && forall k :: 0 <= k < shift / 32 ==> q[k] == 0
    requires shift % 32 > 0 ==> Multiple(q[shift / 32], Pow2(shift % 32))
    ensures ClearBelow(q, shift - 1)
  {
    if shift % 32 > 0 {
      assert (shift - 1) / 32 == shift / 32 && (shift - 1) % 32 + 1 == shift % 32;
    } else if shift > 0 {
      assert (shift - 1) / 32 == shift / 32 - 1 && (shift - 1) % 32 + 1 == 32;
      assert IsProduct(q[shift / 32 - 1], 0, Pow2(32));
    }
  }

  lemma HalfMultiple(x: nat, p: nat)
    requires Multiple(x, 2 * p)
    ensures Multiple(x, p)
  {
    var k: nat :| IsProduct(x, k, 2 * p);
    Odd(k, p);
    assert IsProduct(x, 2 * k, p);
  }

  lemma SkipQuotientBit(q: Limbs, shift: nat)
    requires ClearBelow(q, shift)
    ensures ClearBelow(q, shift - 1)
  {
    HalfMultiple(q[shift / 32], Pow2(shift % 32));
    BitsBelow(q, shift);
  }

  lemma SetLimbValue(q: Limbs, w: nat, x: uint32, p: nat, power: nat)
    requires w < |q| && x == q[w] + p && power == Radix(w) * p
    ensures Value(q[w := x]) == Value(q) + power
  {
    ValueUpdate(q, w, x);
    var r, delta := Radix(w), x - q[w];
    assert delta == p && delta * r == r * p;
  }

  /** Setting bit `shift` of such a quotient adds that power of two. */
  lemma SetQuotientBit(q: Limbs, shift: nat)
    requires ClearBelow(q, shift)
    ensures var w, x := shift / 32, Or(q[shift / 32], Pow2(shift % 32));
            && x < BASE && Value(q[w := x]) == Value(q) + Pow2(shift) && ClearBelow(q[w := x], shift - 1)
  {
    var w, t := shift / 32, shift % 32;
    SetLimbBit(q[w], t);
    var x := q[w] + Pow2(t);
    PowSplit(shift);
    SetLimbValue(q, w, x, Pow2(t), Pow2(shift));
    BitsBelow(q[w := x], shift);
  }

  // The division invariant: n == num + quotient * d, div == d * 2^shift and num < 2 * div.

  ghost predicate Dividing(n: nat, d: nat, num: nat, div: nat, quotient: nat, shift: int) {
    && n == num + quotient * d
    && if shift < 0 then num < d else div == d * Pow2(shift) && num < 2 * div
  }

  lemma DivideStart(n: nat, d: nat, nBits: nat, dBits: nat)
    requires IsLength(n, nBits) && IsLength(d, dBits) && 0 < dBits <= nBits <= 256
    ensures d * Pow2(nBits - dBits) < TWO256 && Dividing(n, d, n, d * Pow2(nBits - dBits), 0, nBits - dBits)
  {
    PowJoin(dBits - 1, nBits - dBits);
    PowGrows(nBits, 256);
    Pow256();
    StartAlgebra(n, d, Pow2(nBits - dBits), Pow2(dBits - 1), Pow2(nBits - 1));
  }

  lemma StartAlgebra(n: nat, d: nat, p: nat, a: nat, top: nat)
    requires a <= d < 2 * a && n < 2 * top && top == a * p && p > 0
    ensures d * p < 2 * top && n < 2 * (d * p)
  {
    Monotone(a, d, p);
    Monotone(d, 2 * a - 1, p);
    assert (2 * a - 1) * p == 2 * (a * p) - p;
  }

  lemma DivideStep(n: nat, d: nat, num: nat, div: nat, quotient: nat, shift: nat)
    requires Dividing(n, d, num, div, quotient, shift)
    ensures num >= div ==> Dividing(n, d, num - div, div / 2, quotient + Pow2(shift), shift - 1)
    ensures num < div ==> Dividing(n, d, num, div / 2, quotient, shift - 1)
  {
    if shift > 0 {
      Halved(d, Pow2(shift - 1));
    }
    assert (quotient + Pow2(shift)) * d == quotient * d + d * Pow2(shift);
  }

  /** The division proper, on copies of the two numbers and a cleared quotient. */
  method DivideCopies(pn: array<uint32>, num: array<uint32>, div: array<uint32>, numBits: nat, divBits: nat)
      returns (ghost rest: nat)
    requires pn.Length == num.Length == div.Length == WIDTH && num != div && num != pn && div != pn
    requires IsLength(Value(num[..]), numBits) && IsLength(Value(div[..]), divBits) && 0 < divBits <= numBits <= 256
    requires Value(pn[..]) == 0 && forall i :: 0 <= i < WIDTH ==> pn[i] == 0
    modifies pn, num, div
    ensures Divided(old(Value(num[..])), old(Value(div[..])), Value(pn[..]), rest)
  {
    ghost var n, d := Value(num[..]), Value(div[..]);
    var shift := numBits - divBits;
    DivideStart(n, d, numBits, divBits);
    ShiftLeft(div, shift);
    WrapIs(d * Pow2(shift), 0, d * Pow2(shift));
    ClearStart(pn[..], shift);
    rest := DivideLoop(pn, num, div, shift, n, d);
  }

  ghost predicate Divided(n: nat, d: nat, quotient: nat, rest: nat) {
    n == rest + quotient * d && rest < d
  }

  lemma DividedIs(n: nat, d: nat, quotient: nat, rest: nat)
    requires Divided(n, d, quotient, rest)
    ensures d > 0 && n / d == quotient
  {
    QuotientIs(n, d, quotient, rest);
  }

  method DivideLoop(pn: array<uint32>, num: array<uint32>, div: array<uint32>, start: nat, ghost n: nat, ghost d: nat)
      returns (ghost rest: nat)
    requires pn.Length == num.Length == div.Length == WIDTH && num != div && num != pn && div != pn
    requires Dividing(n, d, Value(num[..]), Value(div[..]), Value(pn[..]), start) && ClearBelow(pn[..], start)
    modifies pn, num, div
    ensures Divided(n, d, Value(pn[..]), rest)
  {
    var shift: int := start;
    while shift >= 0
      invariant -1 <= shift < 256
      invariant Dividing(n, d, Value(num[..]), Value(div[..]), Value(pn[..]), shift) && ClearBelow(pn[..], shift)
    {
      shift := DivideTurn(pn, num, div, shift, n, d);
    }
    rest := Value(num[..]);
  }

  /** /= : the floor of the quotient, or an exception for a zero divisor; either way the object
      was cleared first. */
  method Divide(pn: array<uint32>, b: array<uint32>) returns (thrown: bool)
    requires pn.Length == b.Length == WIDTH
    modifies pn
    ensures thrown <==> old(Value(b[..])) == 0
    ensures Value(pn[..]) == if thrown then 0 else old(Value(pn[..])) / old(Value(b[..]))
  {
    ghost var n, d := Value(pn[..]), Value(b[..]);
    var div := Copy(b);
    var num := Copy(pn);
    Assign(pn, 0);
    var numBits := BitLength(num);
    var divBits := BitLength(div);
    if divBits == 0 {
      return true;
    }
    thrown := false;
    ghost var rest := n;
    if divBits > numBits {
      PowGrows(numBits, divBits - 1);
    } else {
      rest := DivideCopies(pn, num, div, numBits, divBits);
    }
    DividedIs(n, d, Value(pn[..]), rest);
  }

  lemma ClearStart(q: Limbs, shift: nat)
    requires |q| == WIDTH && shift < 256 && forall k :: 0 <= k < WIDTH ==> q[k] == 0
    ensures ClearBelow(q, shift)
  {
    assert IsProduct(q[shift / 32], 0, Pow2(shift % 32 + 1));
  }

  /** One turn of the division loop. */
  method DivideTurn(pn: array<uint32>, num: array<uint32>, div: array<uint32>, shift: nat, ghost n: nat, ghost d: nat)
      returns (next: int)
    requires pn.Length == num.Length == div.Length == WIDTH && num != div && num != pn && div != pn
    requires Dividing(n, d, Value(num[..]), Value(div[..]), Value(pn[..]), shift) && ClearBelow(pn[..], shift)
    modifies pn, num, div
    ensures next == shift - 1
    ensures Dividing(n, d, Value(num[..]), Value(div[..]), Value(pn[..]), next) && ClearBelow(pn[..], next)
  {
    DivideStep(n, d, Value(num[..]), Value(div[..]), Value(pn[..]), shift);
    ghost var q: Limbs := pn[..];
    var cmp := CompareTo(num, div);
    if cmp >= 0 {
      Subtract(num, div);
      SetQuotientBit(q, shift);
      pn[shift / 32] := Or(pn[shift / 32], Pow2(shift % 32));
      assert pn[..] == q[shift / 32 := pn[shift / 32]];
    } else {
      SkipQuotientBit(q, shift);
    }
    ShiftRight(div, 1);
    next := shift - 1;
  }
}
