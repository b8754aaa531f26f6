/** EncodeBase58 and DecodeBase58 of src/base58.cpp as they run. */
module Base58Codec {
  import opened Chars
  import opened Wrappers
  import opened Positional
  import opened Base58Bounds
  import opened Base58

  // ----- Shared steps -----

  lemma NumberNext(s: Digits, i: nat, base: nat)
    requires i < |s|
    ensures Number(s[..i + 1], base) == base * Number(s[..i], base) + s[i]
  {
    assert s[..i + 1][..i] == s[..i];
  }

  lemma {:induction false} DropZeros(s: Digits, n: nat, base: nat)
    requires n <= |s| && forall j :: 0 <= j < n ==> s[j] == 0
    ensures Number(s, base) == Number(s[n..], base)
  {
    if n > 0 {
      LeadingZero(s, base);
      DropZeros(s[1..], n - 1, base);
      assert s[1..][n - 1..] == s[n..];
    } else {
      assert s[0..] == s;
    }
  }

  /** There is room in the buffer for one more digit. */
  lemma RoomForNext(s: Digits, i: nat, from: nat, to: nat, size: nat)
    requires i < |s| && from > 0 && DigitsOf(s, from) && Room(from, |s|, to, size)
    ensures from * Number(s[..i], from) + s[i] < Pow(to, size)
  {
    NumberNext(s, i, from);
    NumberBelow(s[..i + 1], from);
    PowGrows(from, i + 1, |s|);
  }

  /** Skips the leading zeros of a buffer that ends with the digits of v. */
  method Trim(b: array<nat>, length: nat, base: nat, ghost v: nat) returns (digits: Digits)
    requires base > 1 && DigitsOf(b[..], base) && ZeroAbove(b[..], length) && Number(b[..], base) == v
    ensures digits == Written(v, base)
  {
    var it := b.Length - length;
    while it < b.Length && b[it] == 0
      invariant 0 <= it <= b.Length && forall j :: 0 <= j < it ==> b[j] == 0
    {
      it := it + 1;
    }
    digits := b[it..];
    assert b[..][it..] == digits;
    DropZeros(b[..], it, base);
    WrittenUnique(digits, base);
  }

  // ----- Encoding -----

  method EncodeBase58(b: Digits) returns (str: string)
    requires DigitsOf(b, 256)
    ensures str == Encode(b)
  {
    var zeroes := CountZeroes(b);
    var digits := ToBase58(b[zeroes..]);
    WrittenIs(Number(b[zeroes..], 256), 58);
    str := Translate(zeroes, digits);
  }

  method CountZeroes(b: Digits) returns (zeroes: nat)
    ensures zeroes == Leading(b)
  {
    zeroes := 0;
    while zeroes < |b| && b[zeroes] == 0
      invariant 0 <= zeroes <= |b| && zeroes + Leading(b[zeroes..]) == Leading(b)
    {
      assert b[zeroes..][1..] == b[zeroes + 1..];
      zeroes := zeroes + 1;
    }
  }

  /** Ones for the leading zeros, then the digits in the alphabet. */
  method Translate(zeroes: nat, digits: Digits) returns (str: string)
    requires DigitsOf(digits, 58)
    ensures DigitsOf(Zeros(zeroes) + digits, 58) && str == Text(Zeros(zeroes) + digits)
  {
    str := seq(zeroes, i => '1');
    for i := 0 to |digits|
      invariant |str| == zeroes + i
      invariant forall k :: 0 <= k < zeroes ==> str[k] == '1'
      invariant forall k :: 0 <= k < i ==> str[zeroes + k] == CharOf(digits[k])
    {
      str := str + [ALPHABET[digits[i]]];
    }
    TextOfJoin(zeroes, digits, str);
  }

  lemma TextOfJoin(zeroes: nat, digits: Digits, str: string)
    requires DigitsOf(digits, 58) && |str| == zeroes + |digits| && (forall k :: 0 <= k < zeroes ==> str[k] == '1')
    requires forall k :: 0 <= k < |digits| ==> str[zeroes + k] == CharOf(digits[k])
    ensures DigitsOf(Zeros(zeroes) + digits, 58) && str == Text(Zeros(zeroes) + digits)
  {
    var s := Zeros(zeroes) + digits;
    forall i | 0 <= i < |s| ensures s[i] < 58 && str[i] == CharOf(s[i]) {
      if i >= zeroes {
        assert s[i] == digits[i - zeroes] && str[i] == str[zeroes + (i - zeroes)];
      }
    }
  }

  /** The bytes after the leading zeros. */
  method ToBase58(s: Digits) returns (digits: Digits)
    requires DigitsOf(s, 256)
    ensures digits == Written(Number(s, 256), 58)
  {
    var size := |s| * 138 / 100 + 1;
    EncodeRoom(|s|);
    var b58 := new nat[size](_ => 0);
    var length := 0;
    DropZeros(b58[..], size, 58);
    for p := 0 to |s|
      invariant DigitsOf(b58[..], 58) && ZeroAbove(b58[..], length) && Number(b58[..], 58) == Number(s[..p], 256)
    {
      RoomForNext(s, p, 256, 58, size);
      NumberNext(s, p, 256);
      length := MulAdd(b58, length, 256, 58, s[p]);
    }
    assert s[..|s|] == s;
    digits := Trim(b58, length, 58, Number(s, 256));
  }

  // ----- Decoding -----

  function Spaces(s: string): (n: nat)
    ensures n <= |s|
  {
    if s != "" && IsSpace(s[0]) then 1 + Spaces(s[1..]) else 0
  }

  /** The length of the text up to the next white space. */
  function WordLength(s: string): (n: nat)
    ensures n <= |s|
  {
    if s != "" && !IsSpace(s[0]) then 1 + WordLength(s[1..]) else 0
  }

  /** The text without the white space before it and from its end on. */
  function Core(psz: string): string {
    var t := psz[Spaces(psz)..];
    t[..WordLength(t)]
  }

  /** What follows the core is white space only. */
  ghost predicate Accepted(psz: string) {
    var t := psz[Spaces(psz)..];
    InAlphabet(Core(psz)) && Spaces(t[WordLength(t)..]) == |t| - WordLength(t)
  }

  method SkipSpaces(psz: string) returns (i: nat)
    ensures i == Spaces(psz)
  {
    i := 0;
    while i < |psz| && IsSpace(psz[i])
      invariant 0 <= i <= |psz| && i + Spaces(psz[i..]) == Spaces(psz)
    {
      assert psz[i..][1..] == psz[i + 1..];
      i := i + 1;
    }
  }

  method CountOnes(text: string) returns (zeroes: nat)
    ensures zeroes <= |text| && (forall k :: 0 <= k < zeroes ==> text[k] == '1')
        && (zeroes < |text| ==> text[zeroes] != '1')
    ensures zeroes + WordLength(text[zeroes..]) == WordLength(text)
  {
    zeroes := 0;
    while zeroes < |text| && text[zeroes] == '1'
      invariant 0 <= zeroes <= |text| && forall k :: 0 <= k < zeroes ==> text[k] == '1'
      invariant zeroes + WordLength(text[zeroes..]) == WordLength(text)
    {
      WordStep(text, zeroes);
      zeroes := zeroes + 1;
    }
  }

  lemma WordStep(s: string, p: nat)
    requires p < |s| && !IsSpace(s[p]) && p + WordLength(s[p..]) == WordLength(s)
    ensures p < WordLength(s) && p + 1 + WordLength(s[p + 1..]) == WordLength(s)
  {
    assert s[p..][1..] == s[p + 1..];
  }

  /** DecodeBase58, for a C string. */
  method DecodeBase58(psz: string) returns (r: Option<Digits>)
    requires '\0' !in psz
    ensures r == if Accepted(psz) then Some(Decode(Core(psz))) else None
  {
    var i := SkipSpaces(psz);
    r := DecodeText(psz[i..]);
  }

  /** What a text decodes to, from what follows its ones. */
  lemma WordAfterOnes(text: string, z: nat, n: nat)
    requires z <= n <= |text| && n == WordLength(text) && z + WordLength(text[z..]) == n
    requires (forall k :: 0 <= k < z ==> text[k] == '1') && (z < |text| ==> text[z] != '1')
    ensures var word := text[z..][..n - z];
            && (InAlphabet(text[..n]) <==> InAlphabet(word))
            && (InAlphabet(word) ==> Decode(text[..n]) == Zeros(z) + Written(Number(Values(word), 58), 256))
  {
    assert text[z..][..n - z] == text[..n][z..];
    CoreIs(text[..n], z, text[..n][z..]);
  }

  /** The text from its first character that is not white space. */
  method DecodeText(text: string) returns (r: Option<Digits>)
    ensures var n := WordLength(text);
            r == if InAlphabet(text[..n]) && Spaces(text[n..]) == |text| - n then Some(Decode(text[..n])) else None
  {
    var zeroes := CountOnes(text);
    var word := text[zeroes..];
    var ok, digits, used := FromBase58(word);
    ghost var n := WordLength(text);
    WordAfterOnes(text, zeroes, n);
    if !ok {
      return None;
    }
    var rest := text[zeroes + used..];
    var tail := SkipSpaces(rest);
    if tail != |rest| {
      return None;
    }
    r := Some(Zeros(zeroes) + digits);
  }

  /** A word that starts with ones. */
  lemma CoreIs(core: string, z: nat, rest: string)
    requires z <= |core| && (forall k :: 0 <= k < z ==> core[k] == '1') && (z < |core| ==> core[z] != '1')
        && rest == core[z..]
    ensures InAlphabet(core) <==> InAlphabet(rest)
    ensures InAlphabet(core) ==> Decode(core) == Zeros(z) + Written(Number(Values(rest), 58), 256)
  {
    OnesFirst(core, z);
    if InAlphabet(core) {
      LeadingOnes(core, z);
    }
  }

  /** The alphabet test is not affected by leading ones. */
  lemma OnesFirst(t: string, z: nat)
    requires z <= |t| && forall k :: 0 <= k < z ==> t[k] == '1'
    ensures InAlphabet(t) <==> InAlphabet(t[z..])
  {
    var rest := t[z..];
    forall i ensures InAlphabet(rest) ==> LetterAt(t, i) {
      assert InAlphabet(rest) ==> LetterAt(rest, i - z);
    }
    forall i ensures InAlphabet(t) ==> LetterAt(rest, i) {
      assert InAlphabet(t) ==> LetterAt(t, i + z);
    }
  }

  lemma LeadingOnes(t: string, z: nat)
    requires InAlphabet(t) && z <= |t| && InAlphabet(t[z..]) && (forall k :: 0 <= k < z ==> t[k] == '1')
        && (z < |t| ==> t[z] != '1')
    ensures Decode(t) == Zeros(z) + Written(Number(Values(t[z..]), 58), 256)
  {
    var s, rest := Values(t), Values(t[z..]);
    assert s == Zeros(z) + rest;
    if z < |t| {
      assert LetterAt(t, z);
      CharOfIndex(t[z]);
    }
    LeadingOfJoin(z, rest);
  }

  /** The characters after the leading ones, up to white space; fails on a foreign character. */
  method FromBase58(s: string) returns (ok: bool, digits: Digits, used: nat)
    ensures ok <==> InAlphabet(s[..WordLength(s)])
    ensures ok ==> used == WordLength(s) && digits == Written(Number(Values(s[..used]), 58), 256)
  {
    var size := |s| * 733 / 1000 + 1;
    DecodeRoom(|s|);
    var b256 := new nat[size](_ => 0);
    var length, p := 0, 0;
    DropZeros(b256[..], size, 256);
    ghost var done: Digits := [];
    while p < |s| && !IsSpace(s[p])
      invariant 0 <= p <= |s| && p + WordLength(s[p..]) == WordLength(s) && IsValues(s, p, done)
      invariant DigitsOf(b256[..], 256) && ZeroAbove(b256[..], length) && Number(b256[..], 256) == Number(done, 58)
    {
      var ch := Strchr(s[p]);
      WordStep(s, p);
      if ch == -1 {
        Foreign(s[..WordLength(s)], p);
        return false, [], p;
      }
      done := NextValue(s, p, done, ch);
      NextRoom(done, p, |s|, size);
      length := MulAdd(b256, length, 58, 256, ch);
      p := p + 1;
    }
    assert p == WordLength(s);
    digits := Trim(b256, length, 256, Number(done, 58));
    ok, used := true, p;
  }

  ghost predicate IsValues(s: string, p: nat, done: Digits)
    requires p <= |s|
  {
    InAlphabet(s[..p]) && done == Values(s[..p])
  }

  lemma NextValue(s: string, p: nat, done: Digits, ch: int) returns (next: Digits)
    requires p < |s| && IsValues(s, p, done) && ch == IndexOf(s[p]) >= 0
    ensures ch < 58 && next == done + [ch] && |next| == p + 1 && next[..p] == done && IsValues(s, p + 1, next)
        && DigitsOf(next, 58)
  {
    CharOfIndex(s[p]);
    next := done + [ch];
    var t := s[..p + 1];
    forall i ensures LetterAt(t, i) {
      assert LetterAt(s[..p], i);
    }
    assert next == Values(t);
  }

  lemma Foreign(t: string, p: nat)
    requires p < |t| && IndexOf(t[p]) == -1
    ensures !InAlphabet(t)
  {
    assert !LetterAt(t, p);
  }

  lemma NextRoom(s: Digits, p: nat, n: nat, size: nat)
    requires |s| == p + 1 <= n && DigitsOf(s, 58) && Room(58, n, 256, size)
    ensures 58 * Number(s[..p], 58) + s[p] == Number(s, 58) < Pow(256, size)
  {
    NumberNext(s, p, 58);
    assert s[..p + 1] == s;
    NumberBelow(s, 58);
    PowGrows(58, p + 1, n);
  }

  /** Encoding and decoding any bytes. */
  method RoundTrip(b: Digits) returns (str: string, back: Option<Digits>)
    requires DigitsOf(b, 256)
    ensures back == Some(b)
  {
    str := EncodeBase58(b);
    DecodeEncode(b);
    NoSpaceInText(str);
    back := DecodeBase58(str);
  }

  lemma NoSpaceInText(t: string)
    requires InAlphabet(t)
    ensures Core(t) == t && Accepted(t) && '\0' !in t
  {
    forall i | 0 <= i < |t| ensures !IsSpace(t[i]) && t[i] != '\0' {
      assert LetterAt(t, i);
    }
    OneWord(t);
    assert Spaces(t) == 0 && t[0..] == t && t[..|t|] == t && t[|t|..] == "";
  }

  lemma {:induction false} OneWord(t: string)
    requires forall i :: 0 <= i < |t| ==> !IsSpace(t[i])
    ensures WordLength(t) == |t|
  {
    if t != "" {
      OneWord(t[1..]);
    }
  }

  /** A word followed by white space only is accepted exactly when it is in the alphabet. */
  lemma {:induction false} AcceptedIff(before: string, core: string, after: string)
    requires (forall i :: 0 <= i < |before| ==> IsSpace(before[i]))
        && (forall i :: 0 <= i < |after| ==> IsSpace(after[i]))
    requires core != "" && forall i :: 0 <= i < |core| ==> !IsSpace(core[i])
    ensures Core(before + core + after) == core && (Accepted(before + core + after) <==> InAlphabet(core))
  {
    var s := before + core + after;
    SpacesBefore(before, core + after);
    assert s == before + (core + after) && s[|before|..] == core + after;
    WordBefore(core, after);
    SpacesBefore(after, "");
    assert after + "" == after && (core + after)[|core|..] == after && (core + after)[..|core|] == core;
  }

  lemma {:induction false} SpacesBefore(s: string, rest: string)
    requires (forall i :: 0 <= i < |s| ==> IsSpace(s[i])) && (rest != "" ==> !IsSpace(rest[0]))
    ensures Spaces(s + rest) == |s|
  {
    if s != "" {
      SpacesBefore(s[1..], rest);
      assert (s + rest)[1..] == s[1..] + rest;
    } else {
      assert s + rest == rest;
    }
  }

  lemma {:induction false} WordBefore(s: string, rest: string)
    requires (forall i :: 0 <= i < |s| ==> !IsSpace(s[i])) && (rest != "" ==> IsSpace(rest[0]))
    ensures WordLength(s + rest) == |s|
  {
    if s != "" {
      WordBefore(s[1..], rest);
      assert (s + rest)[1..] == s[1..] + rest;
    } else {
      assert s + rest == rest;
    }
  }
}
