/** Unsigned numbers in 32-bit limbs, lowest first, as base_uint of src/arith_uint256.h stores them,
    and what limb-by-limb results mean for the numbers. */
module Limbs {
  import opened Integers

  const WIDTH := 8
  const BASE := 0x1_0000_0000

  type uint32 = x: nat | x < BASE
  type uint64 = x: nat | x < BASE * BASE

  type Limbs = seq<uint32>

  function Value(s: Limbs): nat {
    if s == [] then 0 else s[0] + BASE * Value(s[1..])
  }

  /** The number in the limbs from i on. */
  function From(s: Limbs, i: nat): nat
    requires i <= |s|
  {
    Value(s[i..])
  }

  lemma FromZero(s: Limbs)
    ensures From(s, 0) == Value(s)
  {
    assert s[0..] == s;
  }

  lemma FromStep(s: Limbs, i: nat)
    requires i < |s|
    ensures From(s, i) == s[i] + BASE * From(s, i + 1)
  {
    assert s[i..][1..] == s[i + 1..];
  }

  /** One more than the greatest number of n limbs. */
  function Radix(n: nat): (r: nat)
    ensures r > 0
  {
    if n == 0 then 1 else BASE * Radix(n - 1)
  }

  lemma {:induction false} ValueBound(s: Limbs)
    ensures Value(s) < Radix(|s|)
  {
    if s != [] {
      ValueBound(s[1..]);
    }
  }

  lemma {:induction false} ValueZero(s: Limbs)
    requires forall k :: 0 <= k < |s| ==> s[k] == 0
    ensures Value(s) == 0
  {
    if s != [] {
      ValueZero(s[1..]);
    }
  }

  lemma ShiftUp(r: nat, v: nat)
    ensures BASE * (r * v) == (BASE * r) * v
  {
  }

  lemma {:induction false} RadixJoin(m: nat, n: nat)
    ensures Radix(m + n) == Radix(m) * Radix(n)
  {
    if m > 0 {
      RadixJoin(m - 1, n);
      ShiftUp(Radix(m - 1), Radix(n));
    }
  }

  /** The limbs up to i and those from i on. */
  lemma {:induction false} ValueSplit(s: Limbs, i: nat)
    requires i <= |s|
    ensures Value(s) == Value(s[..i]) + Radix(i) * From(s, i)
  {
    if i == 0 {
      assert s[0..] == s;
    } else {
      ValueSplit(s[1..], i - 1);
      assert s[..i][1..] == s[1..][..i - 1] && s[1..][i - 1..] == s[i..];
      ShiftUp(Radix(i - 1), From(s, i));
    }
  }

  lemma ValueNext(s: Limbs, i: nat)
    requires i < |s|
    ensures Value(s[..i + 1]) == Value(s[..i]) + Radix(i) * s[i]
  {
    var t := s[..i + 1];
    ValueSplit(t, i);
    assert t[..i] == s[..i] && t[i..][1..] == [];
    assert From(t, i) == s[i] + BASE * Value([]);
  }

  /** Changing one limb. */
  lemma {:induction false} ValueUpdate(s: Limbs, i: nat, x: uint32)
    requires i < |s|
    ensures Value(s[i := x]) == Value(s) + (x - s[i]) * Radix(i)
  {
    var t := s[i := x];
    if i == 0 {
      assert t[1..] == s[1..];
    } else {
      ValueUpdate(s[1..], i - 1, x);
      assert t[1..] == s[1..][i - 1 := x];
      assert BASE * ((x - s[i]) * Radix(i - 1)) == (x - s[i]) * Radix(i);
    }
  }

  // ----- Addition -----

  /** Limb k of t is that of x + y, given the carries into each limb. */
  ghost predicate AddAt(x: Limbs, y: Limbs, t: Limbs, c: seq<nat>, k: int) {
    0 <= k < |x| && k < |y| && k < |t| && k + 1 < |c| ==> c[k] + x[k] + y[k] == t[k] + BASE * c[k + 1]
  }

  lemma {:induction false} AddDigits(x: Limbs, y: Limbs, t: Limbs, c: seq<nat>, i: nat)
    requires i <= |x| == |y| == |t| == |c| - 1 && forall k {:trigger AddAt(x, y, t, c, k)} :: AddAt(x, y, t, c, k)
    ensures From(t, i) + c[|x|] * Radix(|x| - i) == From(x, i) + From(y, i) + c[i]
    decreases |x| - i
  {
    if i < |x| {
      AddDigits(x, y, t, c, i + 1);
      assert AddAt(x, y, t, c, i);
      FromStep(x, i);
      FromStep(y, i);
      FromStep(t, i);
      ShiftUp(Radix(|x| - i - 1), c[|x|]);
    }
  }

  lemma AddValue(x: Limbs, y: Limbs, t: Limbs, c: seq<nat>)
    requires |x| == |y| == |t| == |c| - 1 && c[0] == 0
        && forall k {:trigger AddAt(x, y, t, c, k)} :: AddAt(x, y, t, c, k)
    ensures Value(t) + c[|x|] * Radix(|x|) == Value(x) + Value(y)
  {
    AddDigits(x, y, t, c, 0);
    FromZero(x);
    FromZero(y);
    FromZero(t);
  }

  lemma {:induction false} ComplementDigits(x: Limbs, t: Limbs, i: nat)
    requires i <= |x| == |t| && forall k :: 0 <= k < |x| ==> t[k] == BASE - 1 - x[k]
    ensures From(t, i) + From(x, i) + 1 == Radix(|x| - i)
    decreases |x| - i
  {
    if i < |x| {
      ComplementDigits(x, t, i + 1);
      FromStep(x, i);
      FromStep(t, i);
    }
  }

  predicate Next(a: nat, b: nat) {
    b == a + 1
  }

  /** ++ turns the limbs below `stop` from all ones to zero and raises limb `stop`. */
  ghost predicate Carried(x: Limbs, t: Limbs, stop: nat, from: uint32, to: uint32) {
    && stop <= |x| == |t|
    && (forall k :: 0 <= k < stop ==> x[k] == from && t[k] == to)
    && (forall k :: stop < k < |x| ==> t[k] == x[k])
  }

  lemma {:induction false} IncrementDigits(x: Limbs, t: Limbs, stop: nat, i: nat)
    requires Carried(x, t, stop, BASE - 1, 0) && i <= stop && (stop < |x| ==> Next(x[stop], t[stop]))
    ensures From(t, i) + (if stop == |x| then Radix(|x| - i) else 0) == From(x, i) + 1
    decreases |x| - i
  {
    if i < |x| {
      FromStep(x, i);
      FromStep(t, i);
      if i < stop {
        IncrementDigits(x, t, stop, i + 1);
      } else {
        assert t[i + 1..] == x[i + 1..];
      }
    }
  }

  lemma {:induction false} DecrementDigits(x: Limbs, t: Limbs, stop: nat, i: nat)
    requires Carried(x, t, stop, 0, BASE - 1) && i <= stop && (stop < |x| ==> Next(t[stop], x[stop]))
    ensures From(t, i) - (if stop == |x| then Radix(|x| - i) else 0) == From(x, i) - 1
    decreases |x| - i
  {
    if i < |x| {
      FromStep(x, i);
      FromStep(t, i);
      if i < stop {
        DecrementDigits(x, t, stop, i + 1);
      } else {
        assert t[i + 1..] == x[i + 1..];
      }
    }
  }

  // ----- Multiplication -----

  /** No 64-bit overflow: the carry fits a limb again. */
  lemma LimbFits(carry: uint32, acc: uint32, b: uint32, x: uint32)
    ensures 0 <= b * x && 0 <= carry + acc + b * x < BASE * BASE
    ensures (carry + acc + b * x) / BASE < BASE
  {
    Monotone(b, BASE - 1, x);
    Monotone(0, b, x);
  }

  /** Limb k of t is that of p + a * y, given the carries into each limb. */
  ghost predicate RowAt(p: Limbs, y: Limbs, a: uint32, t: Limbs, c: seq<nat>, k: int) {
    0 <= k < |p| && k < |y| && k < |t| && k + 1 < |c| ==> c[k] + p[k] + a * y[k] == t[k] + BASE * c[k + 1]
  }

  lemma {:induction false} RowDigits(p: Limbs, y: Limbs, a: uint32, t: Limbs, c: seq<nat>, i: nat)
    requires i <= |p| == |y| == |t| == |c| - 1 && forall k {:trigger RowAt(p, y, a, t, c, k)} :: RowAt(p, y, a, t, c, k)
    ensures From(t, i) + c[|p|] * Radix(|p| - i) == From(p, i) + a * From(y, i) + c[i]
    decreases |p| - i
  {
    if i < |p| {
      RowDigits(p, y, a, t, c, i + 1);
      assert RowAt(p, y, a, t, c, i);
      FromStep(p, i);
      FromStep(y, i);
      FromStep(t, i);
      RowNext(From(p, i + 1), y[i], From(y, i + 1), a, From(t, i + 1), c[|p|], Radix(|p| - i - 1), c[i + 1]);
    }
  }

  lemma RowValue(p: Limbs, y: Limbs, a: uint32, t: Limbs, c: seq<nat>)
    requires |p| == |y| == |t| == |c| - 1 && c[0] == 0
        && forall k {:trigger RowAt(p, y, a, t, c, k)} :: RowAt(p, y, a, t, c, k)
    ensures Value(t) + c[|p|] * Radix(|p|) == Value(p) + a * Value(y)
  {
    RowDigits(p, y, a, t, c, 0);
    FromZero(p);
    FromZero(y);
    FromZero(t);
  }

  lemma RowNext(p: nat, y0: nat, y: nat, a: nat, t: nat, top: nat, r: nat, carry: nat)
    requires t + top * r == p + a * y + carry
    ensures BASE * t + top * (BASE * r) == BASE * p + a * (y0 + BASE * y) - a * y0 + BASE * carry
  {
    assert top * (BASE * r) == BASE * (top * r);
    assert a * (y0 + BASE * y) == a * y0 + BASE * (a * y);
  }
}
