/** Shifts, bit length and comparison of 256-bit numbers: src/arith_uint256.cpp. */
module ArithShift {
  import opened Bytes
  import opened Integers
  import opened Limbs
  import opened Arith

  // ----- Powers of two -----

  lemma {:induction false} PowJoin(a: nat, b: nat)
    ensures Pow2(a + b) == Pow2(a) * Pow2(b)
  {
    if a > 0 {
      PowJoin(a - 1, b);
      Twice(Pow2(a - 1), Pow2(b), Pow2(a - 1 + b));
      assert Pow2(a + b) == 2 * Pow2(a - 1 + b);
    }
  }

  lemma Twice(x: nat, y: nat, z: nat)
    requires z == x * y
    ensures 2 * z == (2 * x) * y
  {
  }

  lemma {:induction false} PowGrows(a: nat, b: nat)
    requires a <= b
    ensures Pow2(a) <= Pow2(b)
  {
    if a < b {
      PowGrows(a, b - 1);
    }
  }

  lemma Pow32()
    ensures Pow2(32) == BASE
  {
    assert Pow2(2) == 4 && Pow2(4) == 16;
    PowJoin(4, 4);
    PowJoin(8, 8);
    PowJoin(16, 16);
  }

  lemma {:induction false} RadixIsPow(n: nat)
    ensures Radix(n) == Pow2(32 * n)
  {
    if n > 0 {
      RadixIsPow(n - 1);
      Pow32();
      PowJoin(32, 32 * (n - 1));
    }
  }

  lemma Pow256()
    ensures Pow2(256) == TWO256
  {
    RadixIs();
    RadixIsPow(WIDTH);
  }

  /** A whole number of limbs and some bits. */
  lemma PowSplit(shift: nat)
    ensures Pow2(shift) == Radix(shift / 32) * Pow2(shift % 32)
    ensures Pow2(shift % 32) * Pow2(32 - shift % 32) == BASE
  {
    RadixIsPow(shift / 32);
    PowJoin(32 * (shift / 32), shift % 32);
    PowJoin(shift % 32, 32 - shift % 32);
    Pow32();
  }

  // ----- Bitwise or -----

  function Or(x: nat, y: nat): nat {
    if x == 0 && y == 0 then 0 else OrBit(x, y, Or(x / 2, y / 2))
  }

  /** The lowest bit in front of the others. */
  function OrBit(x: nat, y: nat, others: nat): nat {
    (if x % 2 == 1 || y % 2 == 1 then 1 else 0) + 2 * others
  }

  lemma OrUnfold(x: nat, y: nat)
    ensures Or(x, y) == OrBit(x, y, Or(x / 2, y / 2))
  {
  }

  /** Below and above bit s there are no common bits, so or is addition. */
  lemma {:induction false} OrDisjoint(low: nat, high: nat, s: nat)
    requires low < Pow2(s)
    ensures Or(low, high * Pow2(s)) == Or(high * Pow2(s), low) == low + high * Pow2(s)
  {
    if s == 0 {
      OrZero(high * Pow2(s));
    } else {
      OrDisjoint(low / 2, high, s - 1);
      var half := high * Pow2(s - 1);
      Halved(high, Pow2(s - 1));
      assert high * Pow2(s) == 2 * half;
      OrUnfold(low, 2 * half);
      OrUnfold(2 * half, low);
    }
  }

  lemma Halved(high: nat, p: nat)
    ensures high * (2 * p) == 2 * (high * p) && high * p >= 0
  {
    Monotone(0, high, p);
  }

  lemma {:induction false} OrZero(x: nat)
    ensures Or(x, 0) == Or(0, x) == x
  {
    if x != 0 {
      OrZero(x / 2);
    }
  }

  // ----- Left shift -----

  /** A limb shifted left by p, where p * q is a whole limb: what stays and what moves up. */
  lemma ShiftParts(a: uint32, p: nat, q: nat)
    requires p > 0 && q > 0 && p * q == BASE
    ensures a / q < p && 0 <= (a % q) * p < BASE
    ensures a * p == (a % q) * p + BASE * (a / q) && (a * p) % BASE == (a % q) * p
  {
    var h, l := a / q, a % q;
    assert a == h * q + l;
    if h >= p {
      Monotone(p, h, q);
    }
    Monotone(l, q - 1, p);
    Monotone(0, l, p);
    assert (q - 1) * p == BASE - p;
    assert (h * q) * p == h * BASE;
    assert a * p == (h * q) * p + l * p;
  }

  /** The bits that limb u - 1 moves up into limb u. */
  function Up(x: Limbs, q: nat, u: int): nat
    requires q > 0
  {
    if 0 < u <= |x| then x[u - 1] / q else 0
  }

  /** Limb m after the first i limbs of x have been shifted by k limbs and the factor p. */
  ghost predicate LeftAt(x: Limbs, t: Limbs, p: nat, q: nat, k: nat, i: nat, m: int)
    requires q > 0 && |x| == |t| == WIDTH
  {
    0 <= m < WIDTH ==>
      if k <= m < k + i then t[m] == (x[m - k] % q) * p + Up(x, q, m - k)
      else if m == k + i then t[m] == Up(x, q, i)
      else t[m] == 0
  }

  lemma LeftLimb(x0: uint32, p: nat, q: nat, up: nat, t: nat)
    requires p > 0 && q > 0 && p * q == BASE && t == (x0 % q) * p + up
    ensures up + p * x0 == t + BASE * (x0 / q)
  {
    ShiftParts(x0, p, q);
  }

  lemma LeftRow(x: Limbs, t: Limbs, p: uint32, q: nat, k: nat, c: seq<nat>, zero: Limbs, u: int)
    requires p > 0 && q > 0 && p * q == BASE && |x| == |t| == |zero| == WIDTH && k <= WIDTH
    requires LeftAt(x, t, p, q, k, WIDTH, u + k) && |c| == WIDTH - k + 1
    requires forall j :: 0 <= j < WIDTH ==> zero[j] == 0
    requires 0 <= u < WIDTH - k ==> c[u] == Up(x, q, u) && c[u + 1] == Up(x, q, u + 1)
    ensures RowAt(zero[k..], x[..WIDTH - k], p, t[k..], c, u)
  {
    if 0 <= u < WIDTH - k {
      LeftLimb(x[u], p, q, Up(x, q, u), t[u + k]);
    }
  }

  lemma LeftTotal(x: Limbs, t: Limbs, p: uint32, q: nat, k: nat, w: nat) returns (lost: nat)
    requires w == Radix(k) * p && p > 0 && q > 0 && p * q == BASE && |x| == |t| == WIDTH && k <= WIDTH
    requires forall m {:trigger LeftAt(x, t, p, q, k, WIDTH, m)} :: LeftAt(x, t, p, q, k, WIDTH, m)
    ensures Value(t) + lost * Radix(WIDTH) == w * Value(x)
  {
    var zero, c: seq<nat> := Zeros(), seq(WIDTH - k + 1, u => Up(x, q, u));
    var pk, xk, tk := zero[k..], x[..WIDTH - k], t[k..];
    forall u ensures RowAt(pk, xk, p, tk, c, u) {
      assert LeftAt(x, t, p, q, k, WIDTH, u + k);
      LeftRow(x, t, p, q, k, c, zero, u);
    }
    forall m | 0 <= m < k ensures t[m] == zero[m] {
      assert LeftAt(x, t, p, q, k, WIDTH, m);
    }
    ValueZero(zero);
    lost := RowTotal(zero, x, p, k, t, c);
  }

  /** <<= : multiplication by a power of two, modulo 2^256. */
  method ShiftLeft(pn: array<uint32>, shift: nat)
    requires pn.Length == WIDTH
    modifies pn
    ensures Value(pn[..]) == Wrap(old(Value(pn[..])) * Pow2(shift))
  {
    ghost var x: Limbs := pn[..];
    var a := Copy(pn);
    Assign(pn, 0);
    var k, s := shift / 32, shift % 32;
    var p, q := Pow2(s), Pow2(32 - s);
    PowSplit(shift);
    for i := 0 to WIDTH
      invariant a[..] == x
      invariant forall m {:trigger LeftAt(x, pn[..], p, q, k, i, m)} :: LeftAt(x, pn[..], p, q, k, i, m)
    {
      ghost var was: Limbs := pn[..];
      assert a[i] == x[i];
      ShiftParts(a[i], p, q);
      LeftWrites(x, was, p, q, k, i, s);
      if i + k + 1 < WIDTH && s != 0 {
        pn[i + k + 1] := Or(pn[i + k + 1], a[i] / q);
      }
      if i + k < WIDTH {
        pn[i + k] := Or(pn[i + k], (a[i] * p) % BASE);
      }
      ghost var now: Limbs, i' := pn[..], i + 1;
      forall m ensures LeftAt(x, now, p, q, k, i', m) {
        assert LeftAt(x, was, p, q, k, i, m);
      }
    }
    LeftDone(x, pn[..], p, q, k, shift);
  }

  /** The two or-assignments of one turn. */
  lemma LeftWrites(x: Limbs, t: Limbs, p: nat, q: nat, k: nat, i: nat, s: nat)
    requires s < 32 && p == Pow2(s) && q == Pow2(32 - s) && p * q == BASE && |x| == |t| == WIDTH && i < WIDTH
    requires forall m {:trigger LeftAt(x, t, p, q, k, i, m)} :: LeftAt(x, t, p, q, k, i, m)
    ensures i + k + 1 < WIDTH ==> Or(t[i + k + 1], x[i] / q) == x[i] / q
    ensures x[i] / q < BASE && (s == 0 ==> x[i] / q == 0) && 0 <= (x[i] % q) * p
    ensures i + k < WIDTH ==> Or(t[i + k], (x[i] * p) % BASE) == (x[i] % q) * p + Up(x, q, i) < BASE
  {
    if i + k + 1 < WIDTH {
      assert LeftAt(x, t, p, q, k, i, i + k + 1);
    }
    if i + k < WIDTH {
      assert LeftAt(x, t, p, q, k, i, i + k);
    }
    UpBelow(x, p, q, i);
    HighPart(x[i], p, q, s);
    LowWrite(x[i], Up(x, q, i), p, q, s);
  }

  /** The bits that a limb passes up. */
  lemma HighPart(limb: uint32, p: nat, q: nat, s: nat)
    requires s < 32 && p == Pow2(s) && q > 0 && p * q == BASE
    ensures Or(0, limb / q) == limb / q < BASE && (s == 0 ==> limb / q == 0)
  {
    ShiftParts(limb, p, q);
    OrZero(limb / q);
  }

  lemma UpBelow(x: Limbs, p: nat, q: nat, i: nat)
    requires p > 0 && q > 0 && p * q == BASE
    ensures Up(x, q, i) < p
  {
    if 0 < i <= |x| {
      ShiftParts(x[i - 1], p, q);
    }
  }

  lemma LowWrite(a: uint32, up: nat, p: nat, q: nat, s: nat)
    requires p == Pow2(s) && q > 0 && p * q == BASE && up < p
    ensures 0 <= (a % q) * p && Or(up, (a * p) % BASE) == (a % q) * p + up < BASE
  {
    ShiftParts(a, p, q);
    OrDisjoint(up, a % q, s);
    LimbRoom(a % q, p, q, up);
  }

  lemma LimbRoom(high: nat, p: nat, q: nat, low: nat)
    requires p * q == BASE && high < q && low < p
    ensures high * p + low < BASE
  {
    Monotone(high, q - 1, p);
    assert (q - 1) * p == BASE - p;
  }

  lemma LeftDone(x: Limbs, t: Limbs, p: nat, q: nat, k: nat, shift: nat)
    requires k == shift / 32 && p == Pow2(shift % 32) && q == Pow2(32 - shift % 32) && |x| == |t| == WIDTH
    requires forall m {:trigger LeftAt(x, t, p, q, k, WIDTH, m)} :: LeftAt(x, t, p, q, k, WIDTH, m)
    ensures Value(t) == Wrap(Value(x) * Pow2(shift))
  {
    PowSplit(shift);
    if k <= WIDTH {
      PowSmall(shift % 32);
      LeftInside(x, t, p, q, k, Pow2(shift));
    } else {
      forall m | 0 <= m < WIDTH ensures t[m] == 0 {
        assert LeftAt(x, t, p, q, k, WIDTH, m);
      }
      ValueZero(t);
      AllShiftedOut(Value(x), shift);
    }
  }

  lemma LeftInside(x: Limbs, t: Limbs, p: uint32, q: nat, k: nat, w: nat)
    requires p > 0 && q > 0 && p * q == BASE && |x| == |t| == WIDTH && k <= WIDTH && w == Radix(k) * p
    requires forall m {:trigger LeftAt(x, t, p, q, k, WIDTH, m)} :: LeftAt(x, t, p, q, k, WIDTH, m)
    ensures Value(t) == Wrap(w * Value(x))
  {
    var lost := LeftTotal(x, t, p, q, k, w);
    Fits(t);
    SumWraps(w * Value(x), lost, Value(t));
  }

  lemma PowSmall(s: nat)
    requires s < 32
    ensures Pow2(s) < BASE
  {
    PowGrows(s, 31);
    Pow32();
  }

  lemma AllShiftedOut(v: nat, shift: nat)
    requires shift >= 256
    ensures Wrap(v * Pow2(shift)) == 0
  {
    var w := Pow2(shift - 256);
    PowJoin(shift - 256, 256);
    Pow256();
    assert v * (w * TWO256) == (v * w) * TWO256;
    WrapIs(v * Pow2(shift), v * w, 0);
  }

  // ----- Right shift -----

  /** The bits that limb u + 1 moves down into limb u, where p * q is a whole limb. */
  function Down(x: Limbs, p: nat, q: nat, u: int): (d: nat)
    requires p > 0
  {
    if 0 <= u < |x| then Monotone(0, x[u] % p, q); (x[u] % p) * q else 0
  }

  /** Limb m after the first i limbs of x have been shifted down by k limbs and the divisor p. */
  ghost predicate RightAt(x: Limbs, t: Limbs, p: nat, q: nat, k: nat, i: nat, m: int)
    requires p > 0 && |x| == |t| == WIDTH && i <= WIDTH
  {
    0 <= m < WIDTH ==>
      if m + k + 1 < i then t[m] == x[m + k] / p + Down(x, p, q, m + k + 1)
      else if m + k + 1 == i then t[m] == x[m + k] / p
      else t[m] == 0
  }

  lemma RightLimb(x0: nat, p: nat, q: nat, down: nat, t: nat, rest: nat, xs: nat)
    requires p > 0 && p * q == BASE && t == x0 / p + down * q && p * rest + down == xs
    ensures p * (t + BASE * rest) + x0 % p == x0 + BASE * xs
  {
    assert x0 == p * (x0 / p) + x0 % p;
    assert p * (down * q) == down * BASE;
    assert p * (BASE * rest) == BASE * (p * rest);
    assert p * (t + BASE * rest) == p * (x0 / p) + p * (down * q) + p * (BASE * rest);
  }

  /** What the limbs from m on are worth, and what fell off below. */
  lemma {:induction false} RightDigits(x: Limbs, t: Limbs, p: nat, q: nat, k: nat, m: nat)
    requires p > 0 && p * q == BASE && |x| == |t| == WIDTH && m + k <= WIDTH
    requires forall m {:trigger RightAt(x, t, p, q, k, WIDTH, m)} :: RightAt(x, t, p, q, k, WIDTH, m)
    ensures p * From(t, m) + (if m + k < WIDTH then x[m + k] % p else 0) == From(x, m + k)
    decreases WIDTH - m
  {
    if m + k < WIDTH {
      RightDigits(x, t, p, q, k, m + 1);
      assert RightAt(x, t, p, q, k, WIDTH, m);
      FromStep(x, m + k);
      FromStep(t, m);
      var down := if m + k + 1 < WIDTH then x[m + k + 1] % p else 0;
      RightLimb(x[m + k], p, q, down, t[m], From(t, m + 1), From(x, m + k + 1));
    } else {
      forall u | 0 <= u < |t[m..]| ensures t[m..][u] == 0 {
        assert RightAt(x, t, p, q, k, WIDTH, u + m);
      }
      ValueZero(t[m..]);
    }
  }

  lemma RightRemainder(low: nat, r: nat, p: nat, d: nat)
    requires low < r && d < p
    ensures r * d + low < r * p && r * d >= 0
  {
    Monotone(d, p - 1, r);
    Monotone(0, d, r);
    assert (p - 1) * r == p * r - r;
  }

  lemma RightInside(x: Limbs, t: Limbs, p: nat, q: nat, k: nat, w: nat)
    requires p > 0 && p * q == BASE && |x| == |t| == WIDTH && k < WIDTH && w == Radix(k) * p
    requires forall m {:trigger RightAt(x, t, p, q, k, WIDTH, m)} :: RightAt(x, t, p, q, k, WIDTH, m)
    ensures w > 0 && Value(t) == Value(x) / w
  {
    RightDigits(x, t, p, q, k, 0);
    FromZero(t);
    ValueSplit(x, k);
    ValueBound(x[..k]);
    RightAlgebra(Value(x), Value(x[..k]), Radix(k), p, Value(t), x[k] % p, From(x, k), w);
  }

  lemma RightAlgebra(x: nat, low: nat, r: nat, p: nat, t: nat, d: nat, high: nat, w: nat)
    requires x == low + r * high && p * t + d == high && low < r && d < p && w == r * p
    ensures w > 0 && t == x / w
  {
    RightRemainder(low, r, p, d);
    assert r * (p * t + d) == (r * p) * t + r * d;
    QuotientIs(x, w, t, r * d + low);
  }

  lemma RightDone(x: Limbs, t: Limbs, p: nat, q: nat, k: nat, shift: nat)
    requires k == shift / 32 && p == Pow2(shift % 32) && q == Pow2(32 - shift % 32) && |x| == |t| == WIDTH
    requires forall m {:trigger RightAt(x, t, p, q, k, WIDTH, m)} :: RightAt(x, t, p, q, k, WIDTH, m)
    ensures Value(t) == Value(x) / Pow2(shift)
  {
    PowSplit(shift);
    if k < WIDTH {
      RightInside(x, t, p, q, k, Pow2(shift));
    } else {
      forall m | 0 <= m < WIDTH ensures t[m] == 0 {
        assert RightAt(x, t, p, q, k, WIDTH, m);
      }
      ValueZero(t);
      Fits(x);
      Pow256();
      PowGrows(256, shift);
      QuotientIs(Value(x), Pow2(shift), 0, Value(x));
    }
  }

  /** The two or-assignments of one turn. */
  lemma RightWrites(x: Limbs, t: Limbs, p: nat, q: nat, k: nat, i: nat, s: nat)
    requires s < 32 && p == Pow2(s) && q == Pow2(32 - s) && p * q == BASE && |x| == |t| == WIDTH && i < WIDTH
    requires forall m {:trigger RightAt(x, t, p, q, k, i, m)} :: RightAt(x, t, p, q, k, i, m)
    ensures i - k - 1 >= 0 ==> Or(t[i - k - 1], (x[i] * q) % BASE) == x[i - 1] / p + Down(x, p, q, i) < BASE
    ensures s == 0 ==> Down(x, p, q, i) == 0
    ensures i - k >= 0 ==> Or(t[i - k], x[i] / p) == x[i] / p < BASE
  {
    if i - k - 1 >= 0 {
      assert RightAt(x, t, p, q, k, i, i - k - 1);
      LowPart(x[i - 1], x[i], p, q, s);
    }
    if i - k >= 0 {
      assert RightAt(x, t, p, q, k, i, i - k);
      OrZero(x[i] / p);
    }
  }

  /** The bits that one limb passes down to the one below it. */
  lemma LowPart(below: uint32, limb: uint32, p: nat, q: nat, s: nat)
    requires s < 32 && p == Pow2(s) && q == Pow2(32 - s) && p * q == BASE
    ensures Or(below / p, (limb * q) % BASE) == below / p + (limb % p) * q < BASE
  {
    ShiftParts(below, q, p);
    LowWrite(limb, below / p, q, p, 32 - s);
  }

  /** >>= : division by a power of two. */
  method ShiftRight(pn: array<uint32>, shift: nat)
    requires pn.Length == WIDTH
    modifies pn
    ensures Value(pn[..]) == old(Value(pn[..])) / Pow2(shift)
  {
    ghost var x: Limbs := pn[..];
    var a := Copy(pn);
    Assign(pn, 0);
    var k, s := shift / 32, shift % 32;
    var p, q := Pow2(s), Pow2(32 - s);
    PowSplit(shift);
    for i := 0 to WIDTH
      invariant a[..] == x
      invariant forall m {:trigger RightAt(x, pn[..], p, q, k, i, m)} :: RightAt(x, pn[..], p, q, k, i, m)
    {
      ghost var was: Limbs := pn[..];
      assert a[i] == x[i];
      RightWrites(x, was, p, q, k, i, s);
      if i - k - 1 >= 0 && s != 0 {
        pn[i - k - 1] := Or(pn[i - k - 1], (a[i] * q) % BASE);
      }
      if i - k >= 0 {
        pn[i - k] := Or(pn[i - k], a[i] / p);
      }
      ghost var now: Limbs, i' := pn[..], i + 1;
      forall m ensures RightAt(x, now, p, q, k, i', m) {
        assert RightAt(x, was, p, q, k, i, m);
      }
    }
    RightDone(x, pn[..], p, q, k, shift);
  }
}
