/** Base58 encoding and decoding: src/base58.cpp. */
module Base58 {
  import opened Integers
  import opened Positional

  // ----- Alphabet -----

  /** The alphanumeric characters 1-9, A-Z and a-z in this order, without I, O and l. */
  const ALPHABET: string := seq(58, d requires 0 <= d < 58 => CharOf(d))

  function CharOf(d: nat): char
    requires d < 58
  {
    if d < 9 then '1' + d as char
    else if d < 17 then 'A' + (d - 9) as char
    else if d < 22 then 'J' + (d - 17) as char
    else if d < 33 then 'P' + (d - 22) as char
    else if d < 44 then 'a' + (d - 33) as char
    else 'm' + (d - 44) as char
  }

  /** The place of a character in the alphabet, or -1. */
  function IndexOf(c: char): int {
    if '1' <= c <= '9' then (c - '1') as int
    else if 'A' <= c <= 'H' then 9 + (c - 'A') as int
    else if 'J' <= c <= 'N' then 17 + (c - 'J') as int
    else if 'P' <= c <= 'Z' then 22 + (c - 'P') as int
    else if 'a' <= c <= 'k' then 33 + (c - 'a') as int
    else if 'm' <= c <= 'z' then 44 + (c - 'm') as int
    else -1
  }

  lemma IndexOfChar(d: nat)
    requires d < 58
    ensures IndexOf(CharOf(d)) == d
  {
  }

  lemma CharOfIndex(c: char)
    requires IndexOf(c) >= 0
    ensures IndexOf(c) < 58 && CharOf(IndexOf(c)) == c
  {
  }

  /** strchr on the alphabet. */
  method Strchr(c: char) returns (i: int)
    ensures i == IndexOf(c)
  {
    i := 0;
    while i < 58
      invariant 0 <= i <= 58 && forall k :: 0 <= k < i ==> CharOf(k) != c
    {
      if ALPHABET[i] == c {
        IndexOfChar(i);
        return;
      }
      i := i + 1;
    }
    if IndexOf(c) >= 0 {
      CharOfIndex(c);
    }
    i := -1;
  }

  ghost predicate LetterAt(t: string, i: int) {
    0 <= i < |t| ==> IndexOf(t[i]) >= 0
  }

  ghost predicate InAlphabet(t: string) {
    forall i {:trigger LetterAt(t, i)} :: LetterAt(t, i)
  }

  function Text(s: Digits): string
    requires DigitsOf(s, 58)
  {
    seq(|s|, i requires 0 <= i < |s| => CharOf(s[i]))
  }

  function ValueAt(t: string, i: nat): (d: nat)
    requires InAlphabet(t) && i < |t|
    ensures d < 58 && d == IndexOf(t[i])
  {
    assert LetterAt(t, i);
    CharOfIndex(t[i]);
    IndexOf(t[i])
  }

  function Values(t: string): (s: Digits)
    requires InAlphabet(t)
    ensures |s| == |t| && DigitsOf(s, 58)
  {
    seq(|t|, i requires 0 <= i < |t| => ValueAt(t, i))
  }

  lemma ValuesOfText(s: Digits)
    requires DigitsOf(s, 58)
    ensures InAlphabet(Text(s)) && Values(Text(s)) == s
  {
    var t := Text(s);
    forall i | 0 <= i < |s| ensures IndexOf(t[i]) == s[i] {
      IndexOfChar(s[i]);
    }
    assert forall i {:trigger LetterAt(t, i)} :: LetterAt(t, i);
  }

  lemma TextOfValues(t: string)
    requires InAlphabet(t)
    ensures Text(Values(t)) == t
  {
    forall i | 0 <= i < |t| ensures Text(Values(t))[i] == t[i] {
      assert LetterAt(t, i);
      CharOfIndex(t[i]);
    }
  }

  // ----- Changing base -----

  function Leading(s: Digits): (z: nat)
    ensures z <= |s|
  {
    if s != [] && s[0] == 0 then 1 + Leading(s[1..]) else 0
  }

  function Zeros(n: nat): Digits {
    seq(n, i => 0)
  }

  /** Leading zeros digit by digit, the rest as a number. */
  function Convert(s: Digits, from: nat, to: nat): Digits
    requires from > 1 && to > 1
  {
    Zeros(Leading(s)) + Written(Number(s[Leading(s)..], from), to)
  }

  lemma {:induction false} LeadingSplit(s: Digits)
    ensures s == Zeros(Leading(s)) + s[Leading(s)..] && NoLeadingZero(s[Leading(s)..])
  {
    if s != [] && s[0] == 0 {
      LeadingSplit(s[1..]);
      assert s[1..][Leading(s[1..])..] == s[Leading(s)..];
      assert Zeros(Leading(s)) == [0] + Zeros(Leading(s[1..]));
      assert s == [0] + s[1..];
    }
  }

  lemma {:induction false} LeadingOfJoin(n: nat, s: Digits)
    requires NoLeadingZero(s)
    ensures Leading(Zeros(n) + s) == n && (Zeros(n) + s)[n..] == s
  {
    if n > 0 {
      LeadingOfJoin(n - 1, s);
      assert (Zeros(n) + s)[1..] == Zeros(n - 1) + s;
    } else {
      assert Zeros(0) + s == s;
    }
  }

  /** Changing base and back gives the same digits. */
  lemma ConvertBack(s: Digits, from: nat, to: nat)
    requires from > 1 && to > 1 && DigitsOf(s, from)
    ensures DigitsOf(Convert(s, from, to), to) && Convert(Convert(s, from, to), to, from) == s
  {
    var z := Leading(s);
    var v := Number(s[z..], from);
    LeadingSplit(s);
    WrittenIs(v, to);
    LeadingOfJoin(z, Written(v, to));
    WrittenUnique(s[z..], from);
  }

  /** Bytes to text. */
  function Encode(b: Digits): string
    requires DigitsOf(b, 256)
  {
    ConvertBack(b, 256, 58);
    Text(Convert(b, 256, 58))
  }

  /** Text to bytes. */
  function Decode(t: string): Digits
    requires InAlphabet(t)
  {
    Convert(Values(t), 58, 256)
  }

  /** Decoding what was encoded. */
  lemma DecodeEncode(b: Digits)
    requires DigitsOf(b, 256)
    ensures InAlphabet(Encode(b)) && Decode(Encode(b)) == b
  {
    ConvertBack(b, 256, 58);
    ValuesOfText(Convert(b, 256, 58));
  }

  /** Encoding what was decoded. */
  lemma EncodeDecode(t: string)
    requires InAlphabet(t)
    ensures DigitsOf(Decode(t), 256) && Encode(Decode(t)) == t
  {
    ConvertBack(Values(t), 58, 256);
    TextOfValues(t);
  }

  // ----- The digit buffer -----

  /** Digit k from the end of t is that of x * mul + c[0], given the carries into each digit. */
  ghost predicate MulAt(x: Digits, t: Digits, c: seq<nat>, mul: nat, base: nat, k: int) {
    0 <= k < |x| && |t| == |x| && k + 1 < |c| ==> c[k] + mul * x[|x| - 1 - k] == t[|x| - 1 - k] + base * c[k + 1]
  }

  lemma MulStep(t': nat, top: nat, p: nat, x': nat, mul: nat, base: nat, c': nat, c: nat, d: nat, e: nat)
    requires t' + top * p == mul * x' + c' && c + mul * d == e + base * c'
    ensures (t' * base + e) + top * (base * p) == mul * (x' * base + d) + c
  {
    assert (t' + top * p) * base == t' * base + top * (base * p);
    assert (mul * x' + c') * base == mul * (x' * base) + base * c';
    assert mul * (x' * base + d) == mul * (x' * base) + mul * d;
  }

  lemma {:induction false} MulDigits(x: Digits, t: Digits, c: seq<nat>, mul: nat, base: nat, k: nat)
    requires k <= |x| == |t| == |c| - 1
        && forall j {:trigger MulAt(x, t, c, mul, base, j)} :: MulAt(x, t, c, mul, base, j)
    ensures var n := |x|; Number(t[..n - k], base) + c[n] * Pow(base, n - k) == mul * Number(x[..n - k], base) + c[k]
    decreases |x| - k
  {
    var n := |x|;
    if k < n {
      var m := n - k - 1;
      MulDigits(x, t, c, mul, base, k + 1);
      assert MulAt(x, t, c, mul, base, k);
      assert t[..m + 1][..m] == t[..m] && x[..m + 1][..m] == x[..m];
      MulStep(Number(t[..m], base), c[n], Pow(base, m), Number(x[..m], base), mul, base, c[k + 1], c[k], x[m], t[m]);
    }
  }

  lemma NoCarry(v: nat, carry: nat, p: nat, mul: nat, x: nat, digit: nat)
    requires v + carry * p == mul * x + digit < p
    ensures carry == 0 && v == mul * x + digit
  {
    if carry >= 1 {
      Monotone(1, carry, p);
    }
  }

  /** Everything but the last `length` digits is zero. */
  ghost predicate ZeroAbove(s: Digits, length: nat) {
    length <= |s| && forall j :: 0 <= j < |s| - length ==> s[j] == 0
  }

  lemma MulTotal(x: Digits, t: Digits, c: seq<nat>, mul: nat, base: nat)
    requires |x| == |t| == |c| - 1 && forall j {:trigger MulAt(x, t, c, mul, base, j)} :: MulAt(x, t, c, mul, base, j)
    requires mul * Number(x, base) + c[0] < Pow(base, |x|)
    ensures c[|x|] == 0 && Number(t, base) == mul * Number(x, base) + c[0]
  {
    MulDigits(x, t, c, mul, base, 0);
    assert t[..|x|] == t && x[..|x|] == x;
    NoCarry(Number(t, base), c[|x|], Pow(base, |x|), mul, Number(x, base), c[0]);
  }

  /** The inner loop of both codecs: the number in the buffer times `mul` plus a digit. Its final
      assertion that no carry is left holds whenever the result fits the buffer. */
  method MulAdd(b: array<nat>, length: nat, mul: nat, base: nat, digit: nat) returns (length': nat)
    requires base > 1 && DigitsOf(b[..], base) && ZeroAbove(b[..], length)
    requires mul * Number(b[..], base) + digit < Pow(base, b.Length)
    modifies b
    ensures DigitsOf(b[..], base) && ZeroAbove(b[..], length')
    ensures Number(b[..], base) == mul * old(Number(b[..], base)) + digit
  {
    ghost var x: Digits, n := b[..], b.Length;
    ghost var c: seq<nat> := [digit];
    var carry: nat, i := digit, 0;
    while (carry != 0 || i < length) && i < b.Length
      invariant 0 <= i <= n && |c| == i + 1 && c[i] == carry && c[0] == digit
      invariant forall j :: 0 <= j < n - i ==> b[j] == x[j]
      invariant DigitsOf(b[..], base)
      invariant forall k {:trigger MulAt(x, b[..], c, mul, base, k)} :: MulAt(x, b[..], c, mul, base, k)
      decreases n - i
    {
      ghost var was: Digits, cs := b[..], c;
      var j := b.Length - 1 - i;
      LimbSplit(carry, mul, b[j], base);
      var v: nat := carry + mul * b[j];
      b[j] := v % base;
      carry := v / base;
      c := c + [carry];
      ghost var now: Digits := b[..];
      MulNext(x, was, now, cs, c, mul, base, i);
      i := i + 1;
    }
    c := PadCarries(x, b[..], c, mul, base, i);
    MulTotal(x, b[..], c, mul, base);
    assert carry == 0;
    length' := i;
  }

  /** One more digit done. */
  lemma MulNext(x: Digits, t: Digits, t': Digits, c: seq<nat>, c': seq<nat>, mul: nat, base: nat, i: nat)
    requires i < |x| == |t| == |t'| && |c| == i + 1 && |c'| == i + 2 && c'[..i + 1] == c
    requires t' == t[|x| - 1 - i := t'[|x| - 1 - i]]
    requires c[i] + mul * x[|x| - 1 - i] == t'[|x| - 1 - i] + base * c'[i + 1]
    requires forall k {:trigger MulAt(x, t, c, mul, base, k)} :: MulAt(x, t, c, mul, base, k)
    ensures forall k {:trigger MulAt(x, t', c', mul, base, k)} :: MulAt(x, t', c', mul, base, k)
  {
    forall k ensures MulAt(x, t', c', mul, base, k) {
      assert MulAt(x, t, c, mul, base, k);
      assert 0 <= k <= i ==> c'[k] == c'[..i + 1][k];
      assert 0 <= k < i ==> c'[k + 1] == c'[..i + 1][k + 1];
    }
  }

  /** Beyond the point where the loop stops there is nothing to carry and nothing to multiply. */
  lemma PadCarries(x: Digits, t: Digits, c: seq<nat>, mul: nat, base: nat, i: nat) returns (all: seq<nat>)
    requires i <= |x| == |t| && |c| == i + 1 && (i < |x| ==> c[i] == 0)
    requires forall j :: 0 <= j < |x| - i ==> x[j] == 0 && t[j] == 0
    requires forall k {:trigger MulAt(x, t, c, mul, base, k)} :: MulAt(x, t, c, mul, base, k)
    ensures |all| == |x| + 1 && all[0] == c[0] && all[|x|] == c[i]
    ensures forall k {:trigger MulAt(x, t, all, mul, base, k)} :: MulAt(x, t, all, mul, base, k)
  {
    all := c + seq(|x| - i, j => 0);
    forall k ensures MulAt(x, t, all, mul, base, k) {
      assert MulAt(x, t, c, mul, base, k);
    }
  }

  lemma LimbSplit(carry: nat, mul: nat, d: nat, base: nat)
    requires base > 0
    ensures var v := carry + mul * d;
            v >= 0 && v == v % base + base * (v / base) && 0 <= v % base < base && v / base >= 0
  {
    Monotone(0, mul, d);
  }
}
