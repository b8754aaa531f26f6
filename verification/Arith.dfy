/** 256-bit arithmetic in place on limb arrays: src/arith_uint256.cpp and src/arith_uint256.h. */
module Arith {
  import opened Integers
  import opened Limbs

  const TWO256 := 0x1_0000000000000000_0000000000000000_0000000000000000_0000000000000000

  /** v modulo 2^256. */
  function Wrap(v: int): nat {
    v % TWO256
  }

  lemma RadixIs()
    ensures Radix(WIDTH) == TWO256
  {
    assert Radix(1) == BASE * Radix(0);
    assert Radix(2) == BASE * Radix(1);
    assert Radix(3) == BASE * Radix(2);
    assert Radix(4) == BASE * Radix(3);
    assert Radix(5) == BASE * Radix(4);
    assert Radix(6) == BASE * Radix(5);
    assert Radix(7) == BASE * Radix(6);
    assert Radix(8) == BASE * Radix(7);
  }

  /** A number below 2^256 that differs from v by a multiple of it is v modulo it. */
  lemma WrapIs(v: int, q: int, r: nat)
    requires v == q * TWO256 + r && r < TWO256
    ensures Wrap(v) == r
  {
  }

  lemma SumWraps(v: int, q: int, r: nat)
    requires r + q * Radix(WIDTH) == v && r < TWO256
    ensures Wrap(v) == r
  {
    RadixIs();
    WrapIs(v, q, r);
  }

  lemma Fits(x: Limbs)
    requires |x| == WIDTH
    ensures Value(x) < TWO256
  {
    RadixIs();
    ValueBound(x);
  }

  // ----- Addition, negation, subtraction -----

  /** += also when both are the same object. */
  method Add(pn: array<uint32>, b: array<uint32>)
    requires pn.Length == b.Length == WIDTH
    modifies pn
    ensures Value(pn[..]) == Wrap(old(Value(pn[..])) + old(Value(b[..])))
  {
    ghost var x: Limbs, y: Limbs := pn[..], b[..];
    ghost var c: seq<nat> := [0];
    var carry: uint64 := 0;
    for i := 0 to WIDTH
      invariant carry <= 1 && |c| == i + 1 && c[i] == carry && c[0] == 0
      invariant forall k :: i <= k < WIDTH ==> pn[k] == x[k] && b[k] == y[k]
      invariant forall k {:trigger AddAt(x, y, pn[..i], c, k)} :: AddAt(x, y, pn[..i], c, k)
    {
      ghost var was, cs := pn[..i], c;
      var n: uint64 := carry + pn[i] + b[i];
      pn[i] := n % BASE;
      carry := n / BASE;
      c := c + [carry];
      ghost var now := pn[..i + 1];
      assert now == was + [n % BASE];
      forall k ensures AddAt(x, y, now, c, k) {
        assert AddAt(x, y, was, cs, k);
      }
    }
    assert pn[..WIDTH] == pn[..];
    AddValue(x, y, pn[..], c);
    Fits(pn[..]);
    SumWraps(Value(x) + Value(y), c[WIDTH], Value(pn[..]));
  }

  /** ~ */
  method Invert(b: array<uint32>) returns (ret: array<uint32>)
    requires b.Length == WIDTH
    ensures fresh(ret) && ret.Length == WIDTH && Value(ret[..]) == TWO256 - 1 - Value(b[..])
  {
    ret := new uint32[WIDTH](_ => 0);
    for i := 0 to WIDTH
      invariant forall k :: 0 <= k < i ==> ret[k] == BASE - 1 - b[k]
    {
      ret[i] := BASE - 1 - b[i];
    }
    RadixIs();
    ComplementDigits(b[..], ret[..], 0);
    FromZero(b[..]);
    FromZero(ret[..]);
  }

  /** Prefix ++ */
  method Increment(pn: array<uint32>)
    requires pn.Length == WIDTH
    modifies pn
    ensures Value(pn[..]) == Wrap(old(Value(pn[..])) + 1)
  {
    ghost var x: Limbs := pn[..];
    var i := 0;
    while i < WIDTH
      invariant 0 <= i <= WIDTH
      invariant forall k :: 0 <= k < i ==> x[k] == BASE - 1 && pn[k] == 0
      invariant forall k :: i <= k < WIDTH ==> pn[k] == x[k]
    {
      pn[i] := (pn[i] + 1) % BASE;
      if pn[i] != 0 {
        break;
      }
      i := i + 1;
    }
    IncrementWraps(x, pn[..], i);
  }

  lemma IncrementWraps(x: Limbs, t: Limbs, stop: nat)
    requires |x| == WIDTH && Carried(x, t, stop, BASE - 1, 0) && (stop < WIDTH ==> Next(x[stop], t[stop]))
    ensures Value(t) == Wrap(Value(x) + 1)
  {
    IncrementDigits(x, t, stop, 0);
    FromZero(x);
    FromZero(t);
    RadixIs();
    Fits(t);
    WrapIs(Value(x) + 1, if stop == WIDTH then 1 else 0, Value(t));
  }

  /** Prefix -- */
  method Decrement(pn: array<uint32>)
    requires pn.Length == WIDTH
    modifies pn
    ensures Value(pn[..]) == Wrap(old(Value(pn[..])) - 1)
  {
    ghost var x: Limbs := pn[..];
    var i := 0;
    while i < WIDTH
      invariant 0 <= i <= WIDTH
      invariant forall k :: 0 <= k < i ==> x[k] == 0 && pn[k] == BASE - 1
      invariant forall k :: i <= k < WIDTH ==> pn[k] == x[k]
    {
      pn[i] := if pn[i] == 0 then BASE - 1 else pn[i] - 1;
      if pn[i] != BASE - 1 {
        break;
      }
      i := i + 1;
    }
    DecrementWraps(x, pn[..], i);
  }

  lemma DecrementWraps(x: Limbs, t: Limbs, stop: nat)
    requires |x| == WIDTH && Carried(x, t, stop, 0, BASE - 1) && (stop < WIDTH ==> Next(t[stop], x[stop]))
    ensures Value(t) == Wrap(Value(x) - 1)
  {
    DecrementDigits(x, t, stop, 0);
    FromZero(x);
    FromZero(t);
    RadixIs();
    Fits(t);
    WrapIs(Value(x) - 1, if stop == WIDTH then -1 else 0, Value(t));
  }

  /** Unary minus. */
  method Negate(b: array<uint32>) returns (ret: array<uint32>)
    requires b.Length == WIDTH
    ensures fresh(ret) && ret.Length == WIDTH && Value(ret[..]) == Wrap(0 - Value(b[..]))
  {
    ghost var v := Value(b[..]);
    Fits(b[..]);
    ret := Invert(b);
    Increment(ret);
    NegationWraps(v);
  }

  /** -= : the difference modulo 2^256, and so the true difference when there is no borrow. */
  method Subtract(pn: array<uint32>, b: array<uint32>)
    requires pn.Length == b.Length == WIDTH
    modifies pn
    ensures Value(pn[..]) == Wrap(old(Value(pn[..])) - old(Value(b[..])))
    ensures old(Value(pn[..])) >= old(Value(b[..])) ==> Value(pn[..]) == old(Value(pn[..])) - old(Value(b[..]))
  {
    ghost var x, v := Value(pn[..]), Value(b[..]);
    Fits(pn[..]);
    Fits(b[..]);
    var minus := Negate(b);
    Add(pn, minus);
    DifferenceWraps(x, v);
  }

  lemma NegationWraps(v: nat)
    requires v < TWO256
    ensures Wrap(TWO256 - 1 - v + 1) == Wrap(0 - v)
  {
  }

  lemma DifferenceWraps(x: nat, v: nat)
    requires x < TWO256 && v < TWO256
    ensures Wrap(x + Wrap(0 - v)) == Wrap(x - v) && (x >= v ==> Wrap(x - v) == x - v)
  {
  }

  // ----- Multiplication -----

  function Zeros(): (z: Limbs)
    ensures |z| == WIDTH && forall k :: 0 <= k < WIDTH ==> z[k] == 0
  {
    [0, 0, 0, 0, 0, 0, 0, 0]
  }

  lemma ScaleWraps(p: Limbs, x: Limbs, b: uint32, t: Limbs, c: seq<nat>)
    requires WIDTH == |p| == |x| == |t| == |c| - 1 && c[0] == 0 && forall k :: 0 <= k < WIDTH ==> p[k] == 0
    requires forall k {:trigger RowAt(p, x, b, t, c, k)} :: RowAt(p, x, b, t, c, k)
    ensures Value(t) == Wrap(b * Value(x))
  {
    RowValue(p, x, b, t, c);
    ValueZero(p);
    Fits(t);
    SumWraps(b * Value(x), c[WIDTH], Value(t));
  }

  /** *= by a 32-bit number. */
  method Scale(pn: array<uint32>, b32: uint32)
    requires pn.Length == WIDTH
    modifies pn
    ensures Value(pn[..]) == Wrap(b32 * old(Value(pn[..])))
  {
    ghost var x: Limbs, p := pn[..], Zeros();
    ghost var c: seq<nat> := [0];
    var carry: uint64 := 0;
    for i := 0 to WIDTH
      invariant carry < BASE && |c| == i + 1 && c[i] == carry && c[0] == 0
      invariant forall k :: i <= k < WIDTH ==> pn[k] == x[k]
      invariant forall k {:trigger RowAt(p, x, b32, pn[..i], c, k)} :: RowAt(p, x, b32, pn[..i], c, k)
    {
      ghost var was, cs := pn[..i], c;
      LimbFits(carry, 0, b32, pn[i]);
      var n: uint64 := carry + b32 * pn[i];
      pn[i] := n % BASE;
      carry := n / BASE;
      c := c + [carry];
      ghost var now := pn[..i + 1];
      assert now == was + [n % BASE];
      forall k ensures RowAt(p, x, b32, now, c, k) {
        assert RowAt(p, x, b32, was, cs, k);
      }
    }
    assert pn[..WIDTH] == pn[..];
    ScaleWraps(p, x, b32, pn[..], c);
  }

  lemma RowAlgebra(t: nat, top: nat, r: nat, p: nat, a: nat, low: nat, high: nat, lo: nat, s: nat,
                   tv: nat, pv: nat, yv: nat, rs: nat) returns (k: nat)
    requires t + top * r == p + a * low
    requires tv == lo + s * t && pv == lo + s * p && yv == low + r * high && rs == r * s
    ensures tv + k * rs == pv + (s * a) * yv
  {
    Monotone(0, a, high);
    k := top + a * high;
    assert s * (t + top * r) == s * t + top * rs;
    assert s * (p + a * low) == s * p + (s * a) * low;
    assert (s * a) * (r * high) == (a * high) * rs;
    assert k * rs == top * rs + (a * high) * rs;
    assert (s * a) * yv == (s * a) * low + (s * a) * (r * high);
  }

  /** One row of the product: limbs below j stay, those from j on gain a * y, the rest is lost. */
  lemma RowTotal(p: Limbs, y: Limbs, a: uint32, j: nat, t: Limbs, c: seq<nat>) returns (k: nat)
    requires j <= WIDTH == |p| == |y| == |t| && |c| == WIDTH - j + 1 && c[0] == 0 && t[..j] == p[..j]
    requires var pj, yj, tj := p[j..], y[..WIDTH - j], t[j..]; forall k {:trigger RowAt(pj, yj, a, tj, c, k)} ::
        RowAt(pj, yj, a, tj, c, k)
    ensures Value(t) + k * Radix(WIDTH) == Value(p) + (Radix(j) * a) * Value(y)
  {
    var m := WIDTH - j;
    var pj, yj, tj := p[j..], y[..m], t[j..];
    RowValue(pj, yj, a, tj, c);
    ValueSplit(p, j);
    ValueSplit(t, j);
    ValueSplit(y, m);
    RadixJoin(m, j);
    k := RowAlgebra(Value(tj), c[m], Radix(m), Value(pj), a, Value(yj), From(y, m), Value(p[..j]), Radix(j),
                   Value(t), Value(p), Value(y), Radix(WIDTH));
  }

  /** The inner loop of *=. It reads b while writing pn, so b must be another number, or zero. */
  method AddRow(pn: array<uint32>, b: array<uint32>, a: uint32, j: nat) returns (ghost k: nat)
    requires pn.Length == b.Length == WIDTH && j < WIDTH
    requires pn == b ==> forall i :: 0 <= i < WIDTH ==> pn[i] == 0
    modifies pn
    ensures b[..] == old(b[..])
    ensures Value(pn[..]) + k * Radix(WIDTH) == old(Value(pn[..])) + (Radix(j) * a) * Value(b[..])
  {
    ghost var p: Limbs, y: Limbs, m := pn[..], b[..], WIDTH - j;
    ghost var pj, yj := p[j..], y[..m];
    ghost var c: seq<nat> := [0];
    var carry: uint64, i := 0, 0;
    while i + j < WIDTH
      invariant 0 <= i <= m && carry < BASE && |c| == i + 1 && c[i] == carry && c[0] == 0
      invariant forall k :: 0 <= k < WIDTH && !(j <= k < i + j) ==> pn[k] == p[k]
      invariant b[..] == y && (pn == b ==> carry == 0)
      invariant forall k {:trigger RowAt(pj, yj, a, pn[j..i + j], c, k)} :: RowAt(pj, yj, a, pn[j..i + j], c, k)
    {
      ghost var was, cs := pn[j..i + j], c;
      assert b[i] == y[i];
      LimbFits(carry, pn[i + j], a, b[i]);
      var n: uint64 := carry + pn[i + j] + a * b[i];
      assert pn == b ==> n == 0;
      pn[i + j] := n % BASE;
      carry := n / BASE;
      c := c + [carry];
      ghost var now := pn[j..i + 1 + j];
      assert now == was + [n % BASE];
      forall k ensures RowAt(pj, yj, a, now, c, k) {
        assert RowAt(pj, yj, a, was, cs, k);
      }
      i := i + 1;
    }
    ghost var t: Limbs := pn[..];
    assert t[j..] == pn[j..i + j] && t[..j] == p[..j];
    k := RowTotal(p, y, a, j, t, c);
  }

  lemma OuterAlgebra(v: nat, k: nat, v': nat, k': nat, m: nat, low: nat, r: nat, x: nat, y: nat)
    requires v + k * m == low * y && v' + k' * m == v + (r * x) * y
    ensures v' + (k + k') * m == (low + r * x) * y
  {
    assert (k + k') * m == k * m + k' * m;
    assert (low + r * x) * y == low * y + (r * x) * y;
  }

  /** The first j rows of x * y are in. */
  ghost predicate Partial(v: nat, k: nat, x: Limbs, j: nat, y: nat)
    requires j <= |x|
  {
    v + k * Radix(WIDTH) == Value(x[..j]) * y
  }

  lemma PartialNext(v: nat, k: nat, v': nat, k': nat, x: Limbs, j: nat, y: nat)
    requires j < |x| && Partial(v, k, x, j, y) && v' + k' * Radix(WIDTH) == v + (Radix(j) * x[j]) * y
    ensures Partial(v', k + k', x, j + 1, y)
  {
    ValueNext(x, j);
    OuterAlgebra(v, k, v', k', Radix(WIDTH), Value(x[..j]), Radix(j), x[j], y);
  }

  /** The outer loop, on a cleared object. */
  method AddRows(pn: array<uint32>, a: array<uint32>, b: array<uint32>) returns (ghost k: nat)
    requires pn.Length == a.Length == b.Length == WIDTH && pn != a && forall i :: 0 <= i < WIDTH ==> pn[i] == 0
    modifies pn
    ensures Value(pn[..]) + k * Radix(WIDTH) == Value(a[..]) * old(Value(b[..]))
  {
    ghost var x: Limbs, y: Limbs := a[..], b[..];
    ValueZero(pn[..]);
    k := 0;
    for j := 0 to WIDTH
      invariant a[..] == x && b[..] == y
      invariant pn == b ==> forall i :: 0 <= i < WIDTH ==> pn[i] == 0
      invariant Partial(Value(pn[..]), k, x, j, Value(y))
    {
      ghost var v := Value(pn[..]);
      ghost var k' := AddRow(pn, b, a[j], j);
      PartialNext(v, k, Value(pn[..]), k', x, j, Value(y));
      k := k + k';
    }
    assert x[..WIDTH] == x;
  }

  /** *= : the product modulo 2^256 of two different objects. An object multiplied in place by itself
      becomes zero, because it is cleared before it is read. */
  method Multiply(pn: array<uint32>, b: array<uint32>)
    requires pn.Length == b.Length == WIDTH
    modifies pn
    ensures Value(pn[..]) == if pn == b then 0 else Wrap(old(Value(pn[..])) * old(Value(b[..])))
  {
    ghost var x := Value(pn[..]);
    var a := Copy(pn);
    Assign(pn, 0);
    ghost var y := Value(b[..]);
    ghost var k := AddRows(pn, a, b);
    Fits(pn[..]);
    SumWraps(x * y, k, Value(pn[..]));
  }

  method Copy(b: array<uint32>) returns (a: array<uint32>)
    requires b.Length == WIDTH
    ensures fresh(a) && a.Length == WIDTH && a[..] == b[..]
  {
    a := new uint32[WIDTH](_ => 0);
    for i := 0 to WIDTH
      invariant a[..i] == b[..i]
    {
      a[i] := b[i];
    }
    assert a[..] == a[..WIDTH] && b[..] == b[..WIDTH];
  }

  /** Assignment of a 64-bit number. */
  method Assign(pn: array<uint32>, b: uint64)
    requires pn.Length == WIDTH
    modifies pn
    ensures Value(pn[..]) == b && forall i :: 2 <= i < WIDTH ==> pn[i] == 0
    ensures b == 0 ==> forall i :: 0 <= i < WIDTH ==> pn[i] == 0
  {
    pn[0] := b % BASE;
    pn[1] := b / BASE;
    for i := 2 to WIDTH
      invariant pn[0] == b % BASE && pn[1] == b / BASE && forall k :: 2 <= k < i ==> pn[k] == 0
    {
      pn[i] := 0;
    }
    ghost var t: Limbs := pn[..];
    ValueZero(t[2..]);
    FromStep(t, 0);
    FromStep(t, 1);
    FromZero(t);
  }
}
