/** The compact target format of src/arith_uint256.cpp and the block work of src/chain.cpp. */
module Compact {
  import opened Bytes
  import opened Integers
  import opened Arith
  import opened ArithShift
  import opened ArithDivide

  /** The weight of the exponent: 256^size. */
  function Bytes256(size: nat): (p: nat)
    ensures p > 0
  {
    if size == 0 then 1 else 256 * Bytes256(size - 1)
  }

  const SCALE := 0x100_0000     // 256^3
  const SIGN := 0x80_0000

  lemma {:induction false} BytesArePow(size: nat)
    ensures Bytes256(size) == Pow2(8 * size)
  {
    if size > 0 {
      BytesArePow(size - 1);
      PowJoin(8, 8 * (size - 1));
      assert Pow2(2) == 4 && Pow2(4) == 16;
      PowJoin(4, 4);
    }
  }

  lemma {:induction false} BytesJoin(a: nat, b: nat)
    ensures Bytes256(a + b) == Bytes256(a) * Bytes256(b)
  {
    if a > 0 {
      BytesJoin(a - 1, b);
      Times256(Bytes256(a - 1), Bytes256(b), Bytes256(a - 1 + b));
      assert Bytes256(a + b) == 256 * Bytes256(a - 1 + b);
    }
  }

  lemma Times256(x: nat, y: nat, z: nat)
    requires z == x * y
    ensures 256 * z == (256 * x) * y
  {
  }

  lemma BytesOfScale()
    ensures Bytes256(3) == SCALE
  {
    assert Bytes256(1) == 256 && Bytes256(2) == 256 * 256;
  }

  lemma BytesOfAll()
    ensures Bytes256(32) == TWO256
  {
    BytesArePow(32);
    Pow256();
  }

  // ----- What a mantissa and an exponent stand for -----

  /** word * 256^(size - 3), rounded down. */
  function Exact(word: nat, size: nat): nat {
    word * Bytes256(size) / SCALE
  }

  lemma ExactSmall(word: nat, size: nat)
    requires size <= 3
    ensures Exact(word, size) == word / Bytes256(3 - size) <= word
  {
    BytesJoin(size, 3 - size);
    BytesOfScale();
    Rescale(word, Bytes256(size), Bytes256(3 - size));
  }

  /** Multiplying by p and dividing by p * q is dividing by q. */
  lemma Rescale(word: nat, p: nat, q: nat)
    requires p > 0 && q > 0 && p * q == SCALE
    ensures word * p / SCALE == word / q <= word
  {
    var w, r := word / q, word % q;
    assert word == q * w + r;
    assert word * p == w * (p * q) + r * p;
    Monotone(r, q - 1, p);
    assert (q - 1) * p == p * q - p;
    Monotone(0, r, p);
    QuotientIs(word * p, SCALE, w, r * p);
    Monotone(1, q, w);
  }

  lemma ExactLarge(word: nat, size: nat)
    requires size >= 3
    ensures Exact(word, size) == word * Bytes256(size - 3)
  {
    var p := Bytes256(size - 3);
    BytesJoin(3, size - 3);
    BytesOfScale();
    assert word * (SCALE * p) == (word * p) * SCALE;
    Monotone(0, word, p);
    QuotientIs(word * Bytes256(size), SCALE, word * p, 0);
  }

  /** The code's overflow test. */
  predicate Overflows(word: nat, size: nat) {
    word != 0 && (size > 34 || (word > 0xff && size > 33) || (word > 0xffff && size > 32))
  }

  /** It holds exactly when the number does not fit 256 bits. */
  lemma OverflowExact(word: nat, size: nat)
    requires word < SIGN && size > 3
    ensures Overflows(word, size) <==> Exact(word, size) >= TWO256
  {
    ExactLarge(word, size);
    BytesOfAll();
    var p := Bytes256(size - 3);
    if size - 3 >= 32 {
      BytesJoin(32, size - 35);
      Monotone(1, Bytes256(size - 35), TWO256);
      if word > 0 {
        Monotone(1, word, p);
      }
    } else {
      BytesJoin(35 - size, size - 3);
      RestOf(35 - size);
      FitsWhen(word, p, Bytes256(35 - size));
    }
  }

  lemma FitsWhen(word: nat, p: nat, rest: nat)
    requires p > 0 && rest * p == TWO256
    ensures word * p >= TWO256 <==> word >= rest
  {
    if word >= rest {
      Monotone(rest, word, p);
    } else {
      Monotone(word, rest - 1, p);
      assert (rest - 1) * p == TWO256 - p;
    }
  }

  lemma RestOf(k: nat)
    ensures k == 1 ==> Bytes256(k) == 256
    ensures k == 2 ==> Bytes256(k) == 65536
    ensures k >= 3 ==> Bytes256(k) >= SCALE
  {
    if k >= 3 {
      BytesJoin(3, k - 3);
      BytesOfScale();
      Monotone(1, Bytes256(k - 3), SCALE);
    }
    assert Bytes256(1) == 256 && Bytes256(2) == 256 * Bytes256(1);
  }

  // ----- Encoding -----

  function BitsOf(v: nat): nat {
    if v == 0 then 0 else 1 + BitsOf(v / 2)
  }

  lemma {:induction false} BitsOfIs(v: nat)
    ensures IsLength(v, BitsOf(v))
  {
    if v != 0 {
      BitsOfIs(v / 2);
    }
  }

  lemma LengthUnique(v: nat, n: nat, m: nat)
    requires IsLength(v, n) && IsLength(v, m)
    ensures n == m
  {
    if n < m {
      PowGrows(n, m - 1);
    } else if m < n {
      PowGrows(m, n - 1);
    }
  }

  /** The mantissa of v at an exponent: v * 256^3 / 256^size, rounded down. */
  function Mantissa(v: nat, size: nat): nat {
    Over(v * SCALE, Bytes256(size))
  }

  function Over(a: nat, p: nat): nat
    requires p > 0
  {
    a / p
  }

  datatype Parts = Parts(word: nat, size: nat)

  /** The mantissa and exponent GetCompact settles on. */
  function Encode(v: nat): Parts {
    var size := (BitsOf(v) + 7) / 8;
    Unsigned(Mantissa(v, size), Mantissa(v, size + 1), size)
  }

  /** The mantissa must not reach the sign bit. */
  function Unsigned(word: nat, next: nat, size: nat): Parts {
    if word >= SIGN then Parts(next, size + 1) else Parts(word, size)
  }

  /** A mantissa that is neither short of 16 bits nor reaches the sign bit. */
  predicate InRange(word: nat) {
    0x8000 <= word < SIGN
  }

  lemma MantissaMeans(v: nat, size: nat)
    ensures var m, p := Mantissa(v, size), Bytes256(size); m * p <= v * SCALE < (m + 1) * p
  {
    OverMeans(v * SCALE, Bytes256(size));
  }

  lemma OverMeans(a: nat, p: nat)
    requires p > 0
    ensures var m := Over(a, p); m * p <= a < (m + 1) * p
  {
    var m := Over(a, p);
    assert a == p * m + a % p;
    assert (m + 1) * p == p * m + p;
  }

  /** One byte up in the exponent, one byte less in the mantissa. */
  lemma MantissaNext(v: nat, size: nat)
    ensures Mantissa(v, size + 1) == Mantissa(v, size) / 256
  {
    var m, p := Mantissa(v, size), Bytes256(size);
    MantissaMeans(v, size);
    var h, l := m / 256, m % 256;
    var rest := v * SCALE - m * p;
    assert (m + 1) * p == m * p + p;
    assert m * p == h * (256 * p) + l * p;
    Monotone(l, 255, p);
    Monotone(0, l, p);
    QuotientIs(v * SCALE, 256 * p, h, l * p + rest);
  }

  /** A number of that many bytes has a mantissa of 17 to 24 bits. */
  lemma MantissaFull(v: nat, size: nat)
    requires size > 0 && Bytes256(size - 1) <= v < Bytes256(size)
    ensures 0x1_0000 <= Mantissa(v, size) < SCALE
  {
    var q, m := Bytes256(size - 1), Mantissa(v, size);
    MantissaMeans(v, size);
    if m >= SCALE {
      Monotone(SCALE, m, 256 * q);
    }
    if m + 1 <= 0x1_0000 {
      Monotone(m + 1, 0x1_0000, 256 * q);
    }
  }

  lemma EncodeInRange(v: nat)
    requires v > 0
    ensures InRange(Encode(v).word) && Encode(v).word == Mantissa(v, Encode(v).size) && Encode(v).size > 0
  {
    var n := BitsOf(v);
    var size := (n + 7) / 8;
    BitsOfIs(v);
    BytesArePow(size);
    BytesArePow(size - 1);
    PowGrows(n, 8 * size);
    PowGrows(8 * (size - 1), n - 1);
    MantissaFull(v, size);
    MantissaNext(v, size);
  }

  /** No other exponent brings the mantissa into range. */
  lemma {:induction false} MantissaFalls(v: nat, size: nat, more: nat)
    requires Mantissa(v, size) < SIGN && more > 0
    ensures Mantissa(v, size + more) < 0x8000
    decreases more
  {
    MantissaNext(v, size);
    if more > 1 {
      MantissaFalls(v, size + 1, more - 1);
      assert size + 1 + (more - 1) == size + more;
    }
  }

  lemma EncodeUnique(v: nat, size: nat)
    requires v > 0 && InRange(Mantissa(v, size))
    ensures Encode(v) == Parts(Mantissa(v, size), size)
  {
    EncodeInRange(v);
    var s := Encode(v).size;
    if s < size {
      MantissaFalls(v, s, size - s);
    } else if size < s {
      MantissaFalls(v, size, s - size);
    }
  }

  // ----- The round trip -----

  /** What decoding the encoding of v gives. */
  function Rounded(v: nat): nat {
    Exact(Encode(v).word, Encode(v).size)
  }

  /** At exponents up to 3 nothing is cut off. */
  lemma RoundSmall(v: nat, size: nat)
    requires size <= 3
    ensures Exact(Mantissa(v, size), size) == v
  {
    var p, q := Bytes256(size), Bytes256(3 - size);
    BytesJoin(size, 3 - size);
    BytesOfScale();
    assert v * SCALE == p * (v * q);
    Monotone(0, v, q);
    QuotientIs(v * SCALE, p, v * q, 0);
    assert (v * q) * p == v * SCALE;
  }

  /** At larger exponents the mantissa times the unit is cut off below. */
  lemma RoundLarge(v: nat, size: nat)
    requires size >= 3
    ensures var m, unit := Mantissa(v, size), Bytes256(size - 3);
            Exact(m, size) == m * unit && m * unit <= v < m * unit + unit
  {
    var m, unit := Mantissa(v, size), Bytes256(size - 3);
    ExactLarge(m, size);
    BytesJoin(3, size - 3);
    BytesOfScale();
    MantissaMeans(v, size);
    assert m * (SCALE * unit) == (m * unit) * SCALE && (m + 1) * (SCALE * unit) == (m * unit + unit) * SCALE;
  }

  /** Encoding and decoding rounds down, by less than one part in 2^15. */
  lemma RoundsDown(v: nat)
    requires v > 0
    ensures Rounded(v) <= v && (v - Rounded(v)) * 0x8000 < v
  {
    EncodeInRange(v);
    var m, size := Encode(v).word, Encode(v).size;
    if size <= 3 {
      RoundSmall(v, size);
    } else {
      RoundLarge(v, size);
      var unit := Bytes256(size - 3);
      Monotone(0x8000, m, unit);
    }
  }

  lemma RoundedMantissa(v: nat, size: nat)
    ensures Mantissa(Exact(Mantissa(v, size), size), size) == Mantissa(v, size)
  {
    if size <= 3 {
      RoundSmall(v, size);
    } else {
      var m, unit := Mantissa(v, size), Bytes256(size - 3);
      RoundLarge(v, size);
      BytesJoin(3, size - 3);
      BytesOfScale();
      assert (m * unit) * SCALE == (SCALE * unit) * m;
      QuotientIs((m * unit) * SCALE, SCALE * unit, m, 0);
    }
  }

  /** Encoding is idempotent through that round trip. */
  lemma RoundsOnce(v: nat)
    ensures Encode(Rounded(v)) == Encode(v) && Rounded(Rounded(v)) == Rounded(v)
  {
    if v > 0 {
      EncodeInRange(v);
      var size := Encode(v).size;
      RoundedMantissa(v, size);
      RoundsDown(v);
      EncodeUnique(Rounded(v), size);
    } else {
      EncodeZero();
    }
  }

  lemma EncodeZero()
    ensures Mantissa(0, 0) == 0 && Encode(0) == Parts(0, 0) && Rounded(0) == 0
  {
    assert Over(0, 1) == 0 && Mantissa(0, 0) == Over(0, 1);
  }

  /** The encoding of a 256-bit number fits its fields, so neither assertion of GetCompact fails. */
  lemma EncodeFits(v: nat)
    requires v < TWO256
    ensures Encode(v).word < SIGN && Encode(v).size <= 33
  {
    BitsOfIs(v);
    Pow256();
    if BitsOf(v) > 256 {
      PowGrows(256, BitsOf(v) - 1);
    }
    if v > 0 {
      EncodeInRange(v);
    } else {
      EncodeZero();
    }
  }
}
