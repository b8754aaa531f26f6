/** The buffer sizes that src/base58.cpp allocates always suffice. */
module Base58Bounds {
  import opened Positional

  /** n digits of base b always fit m digits of base c. */
  ghost predicate Room(b: nat, n: nat, c: nat, m: nat) {
    Pow(b, n) <= Pow(c, m)
  }

  /** Whole groups and a remainder. */
  lemma RoomJoin(b: nat, p: nat, c: nat, q: nat, k: nat, r: nat, need: nat, n: nat, m: nat)
    requires c > 0 && Room(b, p, c, q) && Room(b, r, c, need) && n == k * p + r && k * q + need <= m
    ensures Room(b, n, c, m)
  {
    PowCompare(b, p, c, q, k);
    PowJoin(b, k * p, r);
    PowJoin(c, k * q, need);
    ProductGrows(Pow(b, k * p), Pow(b, r), Pow(c, k * q), Pow(c, need));
    PowGrows(c, k * q + need, m);
  }

  lemma PowStep(b: nat, n: nat)
    requires n > 0
    ensures Pow(b, n) == b * Pow(b, n - 1)
  {
  }

  lemma Powers256()
    ensures Pow(256, 0) == 1 && Pow(256, 1) == 0x100 && Pow(256, 2) == 0x10000 && Pow(256, 3) == 0x1000000
    ensures Pow(256, 4) == 0x100000000 && Pow(256, 5) == 0x10000000000 && Pow(256, 6) == 0x1000000000000
    ensures Pow(256, 7) == 0x100000000000000 && Pow(256, 8) == 0x10000000000000000
        && Pow(256, 9) == 0x1000000000000000000
    ensures Pow(256, 10) == 0x100000000000000000000 && Pow(256, 11) == 0x10000000000000000000000
  {
    PowStep(256, 1); PowStep(256, 2); PowStep(256, 3); PowStep(256, 4); PowStep(256, 5); PowStep(256, 6);
    PowStep(256, 7); PowStep(256, 8); PowStep(256, 9); PowStep(256, 10); PowStep(256, 11);
  }

  lemma Powers58()
    ensures Pow(58, 0) == 1 && Pow(58, 1) == 58 && Pow(58, 2) == 3364 && Pow(58, 3) == 195112 && Pow(58, 4) == 11316496
    ensures Pow(58, 5) == 656356768 && Pow(58, 6) == 38068692544 && Pow(58, 7) == 2207984167552
        && Pow(58, 8) == 128063081718016 && Pow(58, 9) == 7427658739644928
    ensures Pow(58, 10) == 430804206899405824 && Pow(58, 11) == 24986644000165537792
        && Pow(58, 12) == 1449225352009601191936 && Pow(58, 13) == 84055070416556869132288
    ensures Pow(58, 14) == 4875194084160298409672704 && Pow(58, 15) == 282761256881297307761016832
  {
    PowStep(58, 1); PowStep(58, 2); PowStep(58, 3); PowStep(58, 4); PowStep(58, 5); PowStep(58, 6); PowStep(58,
        7); PowStep(58, 8);
    PowStep(58, 9); PowStep(58, 10); PowStep(58, 11); PowStep(58, 12); PowStep(58, 13); PowStep(58, 14); PowStep(58,
        15);
  }

  // ----- Encoding -----

  /** Digits of base 58 enough for r bytes. */
  function Need58(r: nat): nat
    requires r <= 8
  {
    [0, 2, 3, 5, 6, 7, 9, 10, 11][r]
  }

  lemma EncodeGroup(r: nat)
    requires r <= 8
    ensures Room(256, r, 58, Need58(r))
  {
    Powers256();
    Powers58();
  }

  lemma EncodeDigits(n: nat, k: nat, r: nat)
    requires n == 8 * k + r && r < 8
    ensures k * 11 + Need58(r) <= n * 138 / 100 + 1
  {
  }

  /** n bytes fit n * 138 / 100 + 1 digits of base 58. */
  lemma EncodeRoom(n: nat)
    ensures Room(256, n, 58, n * 138 / 100 + 1)
  {
    var k, r := n / 8, n % 8;
    EncodeDigits(n, k, r);
    EncodeGroup(8);
    EncodeGroup(r);
    RoomJoin(256, 8, 58, 11, k, r, Need58(r), n, n * 138 / 100 + 1);
  }

  // ----- Decoding -----

  /** Bytes enough for s digits of base 58. */
  function Need256(s: nat): nat
    requires s <= 15
  {
    [0, 1, 2, 3, 3, 4, 5, 6, 6, 7, 8, 9, 9, 10, 11, 11][s]
  }

  lemma DecodeGroup(s: nat)
    requires s <= 15
    ensures Room(58, s, 256, Need256(s))
  {
    Powers256();
    Powers58();
  }

  /** The tightest group: 71 digits fit 52 bytes. */
  lemma Digits71()
    ensures Room(58, 71, 256, 52)
  {
    Powers58();
    PowJoin(58, 15, 15);
    PowJoin(58, 30, 30);
    PowJoin(58, 60, 11);
    Powers256();
    PowJoin(256, 9, 4);
    PowJoin(256, 13, 13);
    PowJoin(256, 26, 26);
  }

  /** Bytes enough for m digits, in groups of 15. */
  function Part256(m: nat): nat {
    m / 15 * 11 + Need256(m % 15)
  }

  lemma DecodePart(m: nat)
    ensures Room(58, m, 256, Part256(m))
  {
    DecodeGroup(15);
    DecodeGroup(m % 15);
    RoomJoin(58, 15, 256, 11, m / 15, m % 15, Need256(m % 15), m, Part256(m));
  }

  lemma DecodeBytes(n: nat, k: nat, m: nat)
    requires n == 71 * k + m && m < 71
    ensures k * 52 + Part256(m) <= n * 733 / 1000 + 1
  {
    var j, s := m / 15, m % 15;
    assert j <= 4 && n == 71 * k + 15 * j + s;
  }

  /** n digits of base 58 fit n * 733 / 1000 + 1 bytes. */
  lemma DecodeRoom(n: nat)
    ensures Room(58, n, 256, n * 733 / 1000 + 1)
  {
    var k, m := n / 71, n % 71;
    DecodeBytes(n, k, m);
    DecodePart(m);
    Digits71();
    RoomJoin(58, 71, 256, 52, k, m, Part256(m), n, n * 733 / 1000 + 1);
  }
}
