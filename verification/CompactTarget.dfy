/** SetCompact, GetCompact and GetBlockProof on limb arrays: src/arith_uint256.cpp and src/chain.cpp. */
module CompactTarget {
  import opened Bytes
  import opened Integers
  import opened Limbs
  import opened Arith
  import opened ArithShift
  import opened ArithDivide
  import opened Compact

  function WordOf(nCompact: uint32): nat {
    nCompact % SIGN
  }

  function SizeOf(nCompact: uint32): nat {
    nCompact / SCALE
  }

  predicate SignOf(nCompact: uint32) {
    (nCompact / SIGN) % 2 == 1
  }

  /** The number a compact form stands for, without its sign. */
  function Target(nCompact: uint32): nat {
    Exact(WordOf(nCompact), SizeOf(nCompact))
  }

  /** Targets of known compact forms. */
  lemma KnownTargets()
    ensures Target(0x0112_3456) == 0x12 && Target(0x0212_3456) == 0x1234 && Target(0x0312_3456) == 0x12_3456
    ensures Target(0x0412_3456) == 0x1234_5600 && Target(0x0500_9234) == 0x9234_0000
    ensures Target(0x0492_3456) == 0x1234_5600 && SignOf(0x0492_3456) && !SignOf(0x0412_3456)
    ensures Target(0x01fe_dcba) == 0x7e && SignOf(0x01fe_dcba)
  {
    assert Bytes256(1) == 0x100 && Bytes256(2) == 0x1_0000 && Bytes256(3) == 0x100_0000;
    assert Bytes256(4) == 0x1_0000_0000 && Bytes256(5) == 0x100_0000_0000;
  }

  /** SetCompact: the number modulo 2^256, and whether it is negative or too large. */
  method SetCompact(pn: array<uint32>, nCompact: uint32) returns (negative: bool, overflow: bool)
    requires pn.Length == WIDTH
    modifies pn
    ensures Value(pn[..]) == Wrap(Target(nCompact))
    ensures overflow <==> Target(nCompact) >= TWO256
    ensures negative <==> Target(nCompact) != 0 && SignOf(nCompact)
  {
    var nSize, nWord := nCompact / SCALE, nCompact % SIGN;
    ghost var word := nWord;
    if nSize <= 3 {
      BytesArePow(3 - nSize);
      ExactSmall(word, nSize);
      nWord := Over(nWord, Pow2(8 * (3 - nSize)));
      Assign(pn, nWord);
    } else {
      BytesArePow(nSize - 3);
      ExactLarge(word, nSize);
      OverflowExact(word, nSize);
      Assign(pn, nWord);
      ShiftLeft(pn, 8 * (nSize - 3));
      NonZero(word, Bytes256(nSize - 3));
    }
    negative := nWord != 0 && (nCompact / SIGN) % 2 == 1;
    overflow := nWord != 0 && (nSize > 34 || (nWord > 0xff && nSize > 33) || (nWord > 0xffff && nSize > 32));
  }

  lemma NonZero(x: nat, p: nat)
    requires p > 0
    ensures x * p == 0 <==> x == 0
  {
    if x > 0 {
      Monotone(1, x, p);
    }
  }

  lemma MantissaSmall(v: nat, size: nat)
    requires size <= 3
    ensures Mantissa(v, size) == v * Bytes256(3 - size)
  {
    var p, q := Bytes256(size), Bytes256(3 - size);
    BytesJoin(size, 3 - size);
    BytesOfScale();
    assert v * SCALE == p * (v * q);
    Monotone(0, v, q);
    QuotientIs(v * SCALE, p, v * q, 0);
  }

  lemma MantissaLarge(v: nat, size: nat)
    requires size >= 3
    ensures Mantissa(v, size) == v / Bytes256(size - 3)
  {
    var unit := Bytes256(size - 3);
    RoundLarge(v, size);
    var m := Mantissa(v, size);
    QuotientIs(v, unit, m, v - m * unit);
  }

  /** The low 64 bits. */
  function GetLow64(s: Limbs): uint64
    requires |s| == WIDTH
  {
    s[0] + BASE * s[1]
  }

  lemma Low64Is(s: Limbs)
    requires |s| == WIDTH && Value(s) < BASE * BASE
    ensures GetLow64(s) == Value(s)
  {
    FromStep(s, 0);
    FromStep(s, 1);
    FromZero(s);
  }

  /** The fields put together. */
  function Joined(parts: Parts, negative: bool): nat {
    parts.word + parts.size * SCALE + if negative && parts.word != 0 then SIGN else 0
  }

  /** GetCompact: the parts of Encode, with the sign bit for a negative number that is not zero. */
  method GetCompact(pn: array<uint32>, fNegative: bool) returns (nCompact: uint32)
    requires pn.Length == WIDTH
    ensures Joined(Encode(Value(pn[..])), fNegative) < BASE
    ensures nCompact == Joined(Encode(Value(pn[..])), fNegative)
  {
    ghost var v := Value(pn[..]);
    Fits(pn[..]);
    var bits := BitLength(pn);
    var nSize := (bits + 7) / 8;
    BitsOfIs(v);
    LengthUnique(v, bits, BitsOf(v));
    var word := TopBytes(pn, nSize);
    EncodeIs(v, word, nSize);
    EncodeFits(v);
    if (word / SIGN) % 2 == 1 {
      word, nSize := word / 256, nSize + 1;
    }
    nCompact := Join(word, nSize, fNegative);
  }

  lemma EncodeIs(v: nat, word: nat, size: nat)
    requires size == (BitsOf(v) + 7) / 8 && word == Mantissa(v, size) < SCALE
    ensures Encode(v) == if (word / SIGN) % 2 == 1 then Parts(word / 256, size + 1) else Parts(word, size)
  {
    MantissaNext(v, size);
    TopBitMeans(word, word / 256, size);
  }

  lemma TopBitMeans(word: nat, next: nat, size: nat)
    requires word < SCALE && next == word / 256
    ensures Unsigned(word, next, size) == if (word / SIGN) % 2 == 1 then Parts(word / 256, size + 1)
        else Parts(word, size)
  {
    TopBit(word);
  }

  lemma TopBit(word: nat)
    requires word < SCALE
    ensures (word / SIGN) % 2 == 1 <==> word >= SIGN
  {
  }

  /** Puts the fields together; the two assertions are those of the code. */
  method Join(word: uint32, nSize: nat, fNegative: bool) returns (nCompact: uint32)
    requires word < SIGN && nSize <= 33
    ensures nCompact == Joined(Parts(word, nSize), fNegative)
  {
    assert word < SIGN && nSize < 256;
    JoinFields(word, nSize);
    nCompact := Or(word, nSize * SCALE);
    if fNegative && nCompact % SIGN != 0 {
      nCompact := nCompact + SIGN;
    }
  }

  lemma JoinFields(word: nat, size: nat)
    requires word < SIGN
    ensures Or(word, size * SCALE) == word + size * SCALE && (word + size * SCALE) % SIGN == word
  {
    Pow24();
    OrDisjoint(word, size, 24);
    LowField(word, size);
  }

  lemma LowField(word: nat, size: nat)
    requires word < SIGN
    ensures (word + size * SCALE) % SIGN == word
  {
  }

  lemma Pow24()
    ensures Pow2(24) == SCALE
  {
    BytesArePow(3);
    BytesOfScale();
  }

  /** The first three bytes of a number of nSize bytes. */
  method TopBytes(pn: array<uint32>, nSize: nat) returns (word: uint32)
    requires pn.Length == WIDTH && nSize == (BitsOf(Value(pn[..])) + 7) / 8
    ensures word == Mantissa(Value(pn[..]), nSize) < SCALE
  {
    ghost var v := Value(pn[..]);
    MantissaBelow(v, nSize);
    if nSize <= 3 {
      MantissaSmall(v, nSize);
      BytesArePow(3 - nSize);
      SmallFits(v, Bytes256(3 - nSize));
      Low64Is(pn[..]);
      word := GetLow64(pn[..]) * Pow2(8 * (3 - nSize));
    } else {
      MantissaLarge(v, nSize);
      BytesArePow(nSize - 3);
      var bn := Copy(pn);
      ShiftRight(bn, 8 * (nSize - 3));
      Low64Is(bn[..]);
      word := GetLow64(bn[..]);
    }
  }

  lemma SmallFits(v: nat, q: nat)
    requires q > 0 && v * q < SCALE
    ensures v < SCALE
  {
    Monotone(1, q, v);
  }

  lemma MantissaBelow(v: nat, size: nat)
    requires size == (BitsOf(v) + 7) / 8
    ensures Mantissa(v, size) < SCALE
  {
    BitsOfIs(v);
    if v > 0 {
      BytesArePow(size);
      BytesArePow(size - 1);
      PowGrows(BitsOf(v), 8 * size);
      PowGrows(8 * (size - 1), BitsOf(v) - 1);
      assert Bytes256(size - 1) <= v < Bytes256(size);
      MantissaFull(v, size);
    } else {
      EncodeZero();
    }
  }

  // ----- Block work -----

  /** The fields of a joined compact form. */
  lemma JoinedFields(parts: Parts, negative: bool)
    requires parts.word < SIGN && parts.size < 256
    ensures var c := Joined(parts, negative);
            && 0 <= c < BASE && WordOf(c) == parts.word && SizeOf(c) == parts.size
            && (SignOf(c) <==> negative && parts.word != 0)
  {
  }

  /** GetCompact and then SetCompact: the number rounded down, with its sign and without overflow. */
  method RoundTrip(pn: array<uint32>, fNegative: bool) returns (negative: bool, overflow: bool)
    requires pn.Length == WIDTH
    modifies pn
    ensures Value(pn[..]) == Rounded(old(Value(pn[..])))
    ensures !overflow && (negative <==> fNegative && old(Value(pn[..])) != 0)
  {
    ghost var v := Value(pn[..]);
    Fits(pn[..]);
    var nCompact := GetCompact(pn, fNegative);
    EncodeFits(v);
    JoinedFields(Encode(v), fNegative);
    negative, overflow := SetCompact(pn, nCompact);
    if v > 0 {
      RoundsDown(v);
      EncodeInRange(v);
    } else {
      EncodeZero();
    }
    WrapZero(Rounded(v));
  }

  /** Nothing below the unit. */
  predicate Whole(word: nat, size: nat) {
    size >= 3 || word % Bytes256(3 - size) == 0
  }

  lemma DivisibleIff(word: nat, q: nat)
    requires q > 0
    ensures (word / q) * q == word <==> word % q == 0
  {
    assert word == q * (word / q) + word % q;
  }

  /** Nothing is lost at this exponent if and only if there is nothing below the unit. */
  lemma MantissaBack(word: nat, size: nat)
    ensures Mantissa(Exact(word, size), size) == word <==> Whole(word, size)
  {
    if size >= 3 {
      ExactLarge(word, size);
      MantissaBackLarge(word, size, Bytes256(size - 3));
    } else {
      ExactSmall(word, size);
      MantissaSmall(Exact(word, size), size);
      DivisibleIff(word, Bytes256(3 - size));
    }
  }

  lemma MantissaBackLarge(word: nat, size: nat, p: nat)
    requires size >= 3 && p == Bytes256(size - 3)
    ensures word * p >= 0 && Mantissa(word * p, size) == word
  {
    Monotone(0, word, p);
    MantissaLarge(word * p, size);
    QuotientIs(word * p, p, word, 0);
  }

  lemma JoinedIs(parts: Parts, nCompact: uint32)
    requires 0 < parts.word < SIGN && parts.size < 256 && WordOf(nCompact) > 0
    ensures Joined(parts, SignOf(nCompact)) == nCompact <==> parts == Parts(WordOf(nCompact), SizeOf(nCompact))
  {
    JoinedFields(parts, SignOf(nCompact));
  }

  /** A compact form that does not overflow comes back from SetCompact and GetCompact unchanged if and
      only if it is zero, or its mantissa has as many bits as possible and nothing below the unit. */
  lemma SurvivesIff(nCompact: uint32)
    requires Target(nCompact) < TWO256
    ensures Joined(Encode(Target(nCompact)), SignOf(nCompact)) == nCompact
       <==> nCompact == 0 || (InRange(WordOf(nCompact)) && Whole(WordOf(nCompact), SizeOf(nCompact)))
  {
    if Target(nCompact) == 0 {
      EncodeZero();
      MantissaBack(WordOf(nCompact), SizeOf(nCompact));
      MantissaZero(SizeOf(nCompact));
    } else {
      EncodeFits(Target(nCompact));
      EncodeInRange(Target(nCompact));
      JoinedIs(Encode(Target(nCompact)), nCompact);
      EncodedIff(WordOf(nCompact), SizeOf(nCompact));
      ZeroForm();
    }
  }

  lemma MantissaZero(size: nat)
    ensures Mantissa(0, size) == 0
  {
    QuotientIs(0, Bytes256(size), 0, 0);
  }

  lemma ZeroForm()
    ensures Target(0) == 0
  {
    assert WordOf(0) == 0 && SizeOf(0) == 0;
    assert 0 * Bytes256(0) == 0;
  }

  lemma EncodedIff(word: nat, size: nat)
    requires Exact(word, size) > 0
    ensures Encode(Exact(word, size)) == Parts(word, size) <==> InRange(word) && Whole(word, size)
  {
    var v := Exact(word, size);
    EncodeInRange(v);
    MantissaBack(word, size);
    if InRange(Mantissa(v, size)) {
      EncodeUnique(v, size);
    }
  }

  /** 2^256 / (t + 1) without leaving 256 bits. */
  lemma ProofIs(t: nat)
    requires t + 1 < TWO256
    ensures (TWO256 - 1 - t) / (t + 1) + 1 == TWO256 / (t + 1)
  {
    var d := t + 1;
    var q, r := TWO256 / d, TWO256 % d;
    assert TWO256 == d * q + r;
    if q < 1 {
      Monotone(q, 0, d);
    }
    assert TWO256 - d == d * (q - 1) + r;
    QuotientIs(TWO256 - d, d, q - 1, r);
  }

  /** A target that fits leaves room for one more. */
  lemma TargetBelowTop(nCompact: uint32)
    requires Target(nCompact) < TWO256
    ensures Target(nCompact) + 1 < TWO256
  {
    var word, size := WordOf(nCompact), SizeOf(nCompact);
    if size <= 3 {
      ExactSmall(word, size);
    } else {
      ExactLarge(word, size);
      var p := Bytes256(size - 4);
      assert word * (256 * p) == 256 * (word * p);
    }
  }

  /** bnTarget == 0 */
  method IsZero(pn: array<uint32>) returns (zero: bool)
    requires pn.Length == WIDTH
    ensures zero <==> Value(pn[..]) == 0
  {
    var i := 0;
    while i < WIDTH
      invariant 0 <= i <= WIDTH && forall k :: 0 <= k < i ==> pn[k] == 0
    {
      if pn[i] != 0 {
        LimbCounts(pn[..], i);
        return false;
      }
      i := i + 1;
    }
    ValueZero(pn[..]);
    return true;
  }

  lemma LimbCounts(s: Limbs, i: nat)
    requires i < |s| && s[i] != 0
    ensures Value(s) > 0
  {
    ValueSplit(s, i);
    FromStep(s, i);
    Monotone(1, From(s, i), Radix(i));
  }

  /** The work of a block: floor(2^256 / (target + 1)), or none for a target that is zero, negative or too large. */
  function Work(nBits: uint32): nat {
    var t := Target(nBits);
    if t == 0 || t >= TWO256 || SignOf(nBits) then 0 else Over(TWO256, t + 1)
  }

  /** GetBlockProof; its division never throws. */
  method GetBlockProof(nBits: uint32) returns (work: array<uint32>, thrown: bool)
    ensures fresh(work) && work.Length == WIDTH && !thrown && Value(work[..]) == Work(nBits)
  {
    var target := new uint32[WIDTH](_ => 0);
    var negative, overflow := SetCompact(target, nBits);
    var zero := IsZero(target);
    ghost var t := Target(nBits);
    if negative || overflow || zero {
      work, thrown := new uint32[WIDTH](_ => 0), false;
      ValueZero(work[..]);
      WrapZero(t);
    } else {
      WrapIs(t, 0, t);
      TargetBelowTop(nBits);
      work, thrown := WorkOf(target, t);
    }
  }

  lemma WrapZero(t: nat)
    ensures t < TWO256 ==> Wrap(t) == t
  {
  }

  method WorkOf(target: array<uint32>, ghost t: nat) returns (work: array<uint32>, thrown: bool)
    requires target.Length == WIDTH && Value(target[..]) == t && 0 < t && t + 1 < TWO256
    ensures fresh(work) && work.Length == WIDTH && !thrown && Value(work[..]) == Over(TWO256, t + 1)
  {
    work := Invert(target);
    var one := new uint32[WIDTH](_ => 0);
    Assign(one, 1);
    var next := Copy(target);
    Add(next, one);
    WrapIs(t + 1, 0, t + 1);
    thrown := Divide(work, next);
    Add(work, one);
    ProofIs(t);
    WorkFits(t);
    WrapIs(Over(TWO256, t + 1), 0, Over(TWO256, t + 1));
  }

  lemma WorkFits(t: nat)
    requires 0 < t
    ensures 0 <= TWO256 / (t + 1) < TWO256
  {
    var q := TWO256 / (t + 1);
    assert q >= 0 && TWO256 == (t + 1) * q + TWO256 % (t + 1);
    Monotone(2, t + 1, q);
  }
}
