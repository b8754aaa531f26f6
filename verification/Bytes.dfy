/** Bits of unsigned numbers. */
module Bytes {

  function Pow2(h: nat): (p: nat)
    ensures p > 0
  {
    if h == 0 then 1 else 2 * Pow2(h - 1)
  }

  /** (x & (1 << j)) != 0 */
  predicate BitOf(x: nat, j: nat) {
    if j == 0 then x % 2 == 1 else BitOf(x / 2, j - 1)
  }

  /** x | (1 << j) */
  function SetBit(x: nat, j: nat): nat {
    if BitOf(x, j) then x else x + Pow2(j)
  }

  /** x & ~(1 << j) */
  function ClearBit(x: nat, j: nat): (r: nat)
    ensures r <= x
  {
    if BitOf(x, j) then BitWeighs(x, j); x - Pow2(j) else x
  }

  lemma {:induction false} BitWeighs(x: nat, j: nat)
    requires BitOf(x, j)
    ensures x >= Pow2(j)
  {
    if j > 0 {
      BitWeighs(x / 2, j - 1);
    }
  }

  lemma {:induction false} ZeroBits(j: nat)
    ensures !BitOf(0, j)
  {
    if j > 0 {
      ZeroBits(j - 1);
    }
  }

  /** Above the lowest bit, setting a bit is setting one of the half. */
  lemma SetBitHalf(x: nat, j: nat)
    requires j > 0
    ensures SetBit(x, j) / 2 == SetBit(x / 2, j - 1) && SetBit(x, j) % 2 == x % 2
  {
    HalfSum(x, Pow2(j - 1));
  }

  lemma HalfSum(x: nat, p: nat)
    ensures (x + 2 * p) / 2 == x / 2 + p && (x + 2 * p) % 2 == x % 2
  {
  }

  lemma HalfDifference(x: nat, p: nat)
    requires x >= 2 * p
    ensures (x - 2 * p) / 2 == x / 2 - p && (x - 2 * p) % 2 == x % 2
  {
  }

  /** Setting and clearing one bit leaves the others alone. */
  lemma {:induction false} SetBitMeans(x: nat, j: nat, i: nat)
    ensures BitOf(SetBit(x, j), i) == (i == j || BitOf(x, i))
  {
    if j > 0 {
      SetBitHalf(x, j);
      if i > 0 {
        SetBitMeans(x / 2, j - 1, i - 1);
      }
    } else {
      SetLowest(x, i);
    }
  }

  lemma SetLowest(x: nat, i: nat)
    ensures BitOf(SetBit(x, 0), i) == (i == 0 || BitOf(x, i))
  {
    assert SetBit(x, 0) == if x % 2 == 1 then x else x + 1;
    assert SetBit(x, 0) / 2 == x / 2;
  }

  lemma {:induction false} ClearBitMeans(x: nat, j: nat, i: nat)
    ensures BitOf(ClearBit(x, j), i) == (i != j && BitOf(x, i))
  {
    if j > 0 {
      ClearBitHalf(x, j);
      if i > 0 {
        ClearBitMeans(x / 2, j - 1, i - 1);
      }
    } else {
      ClearLowest(x, i);
    }
  }

  lemma ClearBitHalf(x: nat, j: nat)
    requires j > 0
    ensures ClearBit(x, j) / 2 == ClearBit(x / 2, j - 1) && ClearBit(x, j) % 2 == x % 2
  {
    if BitOf(x, j) {
      BitWeighs(x, j);
      HalfDifference(x, Pow2(j - 1));
    }
  }

  lemma ClearLowest(x: nat, i: nat)
    ensures BitOf(ClearBit(x, 0), i) == (i != 0 && BitOf(x, i))
  {
    assert ClearBit(x, 0) == if x % 2 == 1 then x - 1 else x;
    assert ClearBit(x, 0) / 2 == x / 2;
  }
}
