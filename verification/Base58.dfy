/** Base-58 text: the encoder and the decoder, with their buffers. */
module Base58 {
  import opened Options
  import opened Powers
  import opened Numerals

  /** All alphanumeric characters except for "0", "I", "O" and "l". */
  const ALPHABET: string := "123456789" + "ABCDEFGH" + "JKLMN" + "PQRSTUVWXYZ" + "abcdefghijk" + "mnopqrstuvwxyz"

  /** The digit of a character, or -1. */
  function MapBase58(c: char): (d: int)
    ensures -1 <= d < 58
  {
    if '1' <= c <= '9' then c as int - '1' as int
    else if 'A' <= c <= 'H' then c as int - 'A' as int + 9
    else if 'J' <= c <= 'N' then c as int - 'J' as int + 17
    else if 'P' <= c <= 'Z' then c as int - 'P' as int + 22
    else if 'a' <= c <= 'k' then c as int - 'a' as int + 33
    else if 'm' <= c <= 'z' then c as int - 'm' as int + 44
    else -1
  }

  predicate Run(s: string, first: char) {
    forall i :: 0 <= i < |s| ==> s[i] as int == first as int + i
  }

  lemma Runs()
    ensures Run("123456789", '1') && Run("ABCDEFGH", 'A') && Run("JKLMN", 'J')
    ensures Run("PQRSTUVWXYZ", 'P') && Run("abcdefghijk", 'a') && Run("mnopqrstuvwxyz", 'm')
  {}

  /** The alphabet and the map are inverse to each other. */
  lemma AlphabetToDigit(d: int)
    requires 0 <= d < 58
    ensures |ALPHABET| == 58 && MapBase58(ALPHABET[d]) == d
  {
    Runs();
  }

  lemma DigitToAlphabet(c: char)
    requires MapBase58(c) != -1
    ensures |ALPHABET| == 58 && ALPHABET[MapBase58(c)] == c
  {
    AlphabetToDigit(MapBase58(c));
    SameDigit(c, ALPHABET[MapBase58(c)]);
  }

  lemma SameDigit(c: char, d: char)
    requires MapBase58(c) == MapBase58(d) != -1
    ensures c == d
  {}

  /** The alphabet is in the order of ASCII. */
  lemma AlphabetIncreases(i: int, j: int)
    requires 0 <= i < j < 58
    ensures |ALPHABET| == 58 && ALPHABET[i] < ALPHABET[j]
  {
    Runs();
  }

  /** It has all digits and letters but the four that look like others. */
  lemma AlphabetHas(c: char)
    ensures c in ALPHABET <==> MapBase58(c) != -1
    ensures c in ALPHABET <==>
      ('0' <= c <= '9' || 'A' <= c <= 'Z' || 'a' <= c <= 'z') && c != '0' && c != 'I' && c != 'O' && c != 'l'
  {
    if MapBase58(c) != -1 {
      DigitToAlphabet(c);
      assert ALPHABET[MapBase58(c)] == c;
    }
    if c in ALPHABET {
      var d :| 0 <= d < |ALPHABET| && ALPHABET[d] == c;
      AlphabetToDigit(d);
    }
  }

  /** The six white-space characters of ASCII. */
  lemma SpaceExactly(c: char)
    ensures IsSpace(c) <==> 9 <= c as int <= 13 || c as int == 32
  {
  }

  predicate IsSpace(c: char) {
    c == ' ' || c == '\U{c}' || c == '\n' || c == '\r' || c == '\t' || c == '\U{b}'
  }

  // ---------- The buffer sizes ----------

  /** Powers are strictly monotone in the base. */
  lemma {:induction false} PowBase(x: nat, y: nat, k: nat)
    requires x < y && k > 0
    ensures Pow(x, k) < Pow(y, k)
  {
    if k > 1 {
      PowBase(x, y, k - 1);
      MulLess(x, y, Pow(x, k - 1), Pow(y, k - 1));
    }
  }

  lemma MulLess(x: nat, y: nat, p: nat, q: nat)
    requires x < y && p < q
    ensures x * p < y * q
  {
    MulOrder(x, y, p);
    MulOrder(p + 1, q, y);
  }

  lemma PowBaseWeak(x: nat, y: nat, k: nat)
    requires x <= y
    ensures Pow(x, k) <= Pow(y, k)
  {
    if x < y && k > 0 {
      PowBase(x, y, k);
    }
  }

  /** An order between powers carries over to their roots. */
  lemma PowRoot(x: nat, y: nat, k: nat)
    requires k > 0 && Pow(x, k) <= Pow(y, k)
    ensures x <= y
  {
    if y < x {
      PowBase(y, x, k);
    }
  }

  lemma Pow58()
    ensures Pow(58, 11) == 24986644000165537792
  {
    assert Pow(58, 5) == 656356768;
    PowAdd(58, 5, 5);
    PowAdd(58, 10, 1);
    assert Pow(58, 1) == 58;
  }

  /** The space for 138 digits per 100 bytes is always enough. */
  lemma EncodeBuffer(n: nat)
    ensures Pow(256, n) <= Pow(58, n * 138 / 100 + 1)
  {
    hide Pow;
    var size := n * 138 / 100 + 1;
    Pow58();
    PowSmall();
    PowOfPow(2, 8, 8);
    PowAdd(2, 32, 32);
    PowBaseWeak(Pow(256, 8), Pow(58, 11), n);
    PowOfPow(256, 8, n);
    PowOfPow(256, n, 8);
    PowOfPow(58, 11, n);
    PowGrows(58, 11 * n, size * 8);
    PowOfPow(58, size, 8);
    PowRoot(Pow(256, n), Pow(58, size), 8);
  }

  /** The space for 733 bytes per 1000 digits is always enough. */
  lemma DecodeBuffer(n: nat)
    ensures Pow(58, n) <= Pow(256, n * 733 / 1000 + 1)
  {
    hide Pow;
    var size := n * 733 / 1000 + 1;
    Pow58();
    PowAdd(58, 11, 11);
    PowSmall();
    PowAdd(2, 32, 32);
    PowAdd(2, 64, 64);
    PowAdd(2, 128, 1);
    PowFirst();
    PowBaseWeak(Pow(58, 22), Pow(2, 129), n);
    PowOfPow(58, 22, n);
    PowOfPow(58, n, 22);
    PowOfPow(2, 129, n);
    PowGrows(2, 129 * n, 8 * size * 22);
    PowOfPow(2, 8 * size, 22);
    PowRoot(Pow(58, n), Pow(2, 8 * size), 22);
    PowOfPow(2, 8, size);
  }

  lemma PowFirst()
    ensures Pow(2, 1) == 2
  {}

  // ---------- What the text means ----------

  /** The characters of base-58 digits. */
  function Text(d: seq<nat>): (s: string)
    requires AreDigits(d, 58)
    ensures |s| == |d| && forall i :: 0 <= i < |d| ==> MapBase58(s[i]) == d[i]
  {
    if d == [] then ""
    else
      AlphabetToDigit(d[|d| - 1]);
      Text(d[..|d| - 1]) + [ALPHABET[d[|d| - 1]]]
  }

  predicate IsText(s: string) {
    forall i :: 0 <= i < |s| ==> MapBase58(s[i]) != -1
  }

  function DigitsOf(s: string): (d: seq<nat>)
    requires IsText(s)
    ensures |d| == |s| && AreDigits(d, 58) && forall i :: 0 <= i < |s| ==> d[i] == MapBase58(s[i])
  {
    if s == "" then [] else DigitsOf(s[..|s| - 1]) + [MapBase58(s[|s| - 1])]
  }

  /** The text of a byte string. */
  function Encoded(bytes: seq<nat>): string {
    Text(Convert(bytes, 256, 58))
  }

  /** The number of leading characters that are, or are not, spaces. */
  function Leading(s: string, space: bool): (n: nat)
    ensures n <= |s| && (forall i :: 0 <= i < n ==> IsSpace(s[i]) == space) && (n < |s| ==> IsSpace(s[n]) != space)
  {
    if s == "" || IsSpace(s[0]) != space then 0 else 1 + Leading(s[1..], space)
  }

  predicate AllSpaces(s: string) {
    forall i :: 0 <= i < |s| ==> IsSpace(s[i])
  }

  /** The bytes of a word, if it is made of the alphabet and does not have too many. */
  function WordBytes(word: string, maxLength: int): Option<seq<nat>> {
    if !IsText(word) then None
    else
      var v := Convert(DigitsOf(word), 58, 256);
      if word == "" || |v| <= maxLength then Some(v) else None
  }

  /** The bytes of a text, which may stand between spaces. */
  function Decoded(s: string, maxLength: int): Option<seq<nat>> {
    var i := Leading(s, true);
    var e := i + Leading(s[i..], false);
    if '\0' in s || !AllSpaces(s[e..]) then None else WordBytes(s[i..e], maxLength)
  }

  // ---------- The number in the buffer ----------

  /** The buffer holds digits, of which the last `length` matter, and the number is not shorter than that. */
  ghost predicate Holds(s: seq<nat>, b: nat, length: nat) {
    && AreDigits(s, b) && length <= |s| && (forall i :: 0 <= i < |s| - length ==> s[i] == 0)
    && (length > 0 ==> Pow(b, length - 1) <= Value(s, b))
  }

  /** One column of the product. */
  lemma Column(s: seq<nat>, t: seq<nat>, x: nat, b: nat, m: nat, carry: nat, digit: nat)
    requires b > 0 && |s| == |t| && Value(t, b) + carry * Pow(b, |t|) == m * Value(s, b) + digit
    ensures var n := carry + m * x;
            Value([n % b] + t, b) + n / b * Pow(b, |t| + 1) == m * Value([x] + s, b) + digit
  {
    hide Pow, Value;
    var n := carry + m * x;
    ValueCons(n % b, t, b);
    ValueCons(x, s, b);
    PowNext(b, |t|);
    ColumnTotal(n, b, m, x, carry, Pow(b, |t|), Value(t, b), Value(s, b), digit);
  }

  lemma ColumnTotal(n: nat, b: nat, m: nat, x: nat, carry: nat, p: nat, v: nat, w: nat, digit: nat)
    requires b > 0 && n == carry + m * x && v + carry * p == m * w + digit
    ensures n % b * p + v + n / b * (b * p) == m * (x * p + w) + digit
  {
    ColumnSum(n, b, m, x, carry, p);
    Times(m, x, p, w);
  }

  lemma ColumnSum(n: nat, b: nat, m: nat, x: nat, carry: nat, p: nat)
    requires b > 0 && n == carry + m * x
    ensures n % b * p + n / b * (b * p) == carry * p + m * x * p
  {
    var q, r := n / b, n % b;
    assert n == q * b + r;
    assert q * (b * p) == q * b * p;
    assert (q * b + r) * p == q * b * p + r * p;
    assert (carry + m * x) * p == carry * p + m * x * p;
  }

  lemma Times(m: int, x: int, p: int, v: int)
    ensures m * (x * p + v) == m * x * p + m * v
  {}

  lemma ValueCons(x: nat, t: seq<nat>, b: nat)
    ensures Value([x] + t, b) == x * Pow(b, |t|) + Value(t, b)
  {
    ValueConcat([x], t, b);
    assert [x][..0] == [];
  }

  /** Zeros in front do not matter. */
  lemma LowDigits(s: seq<nat>, b: nat, i: nat)
    requires i <= |s| && forall k :: 0 <= k < |s| - i ==> s[k] == 0
    ensures Value(s, b) == Value(s[|s| - i..], b)
  {
    hide Pow, Value;
    var j := |s| - i;
    assert s == s[..j] + s[j..];
    ValueConcat(s[..j], s[j..], b);
    ValueOfZeros(s[..j], b);
  }

  lemma CarryBound(carry: nat, m: nat, x: nat, b: nat)
    requires carry < m && x < b
    ensures 0 <= carry + m * x && (carry + m * x) / b < m
  {
    var n := carry + m * x;
    MulOrder(x, b - 1, m);
    assert n < m * b by { assert m * (b - 1) == m * b - m; assert x * m == m * x; }
    if n / b >= m {
      MulOrder(m, n / b, b);
    }
  }

  lemma NoDigits(b: nat)
    ensures Value([], b) == 0 && Pow(b, 0) == 1
  {}

  /** The last i digits of the buffer t have been multiplied; s is the buffer before. */
  ghost predicate Partial(s: seq<nat>, t: seq<nat>, b: nat, m: nat, digit: nat, carry: nat, i: nat, length: nat) {
    && |s| == |t| && i <= |t| && carry < m && AreDigits(t, b) && (forall k :: 0 <= k < |t| - i ==> t[k] == s[k])
    && Value(t[|t| - i..], b) + carry * Pow(b, i) == m * Value(s[|s| - i..], b) + digit
    && (i > length ==> Pow(b, i - 1) <= m * Value(s, b) + digit)
  }

  lemma PartialStart(s: seq<nat>, b: nat, m: nat, digit: nat, length: nat)
    requires AreDigits(s, b) && digit < m
    ensures Partial(s, s, b, m, digit, digit, 0, length)
  {
    NoDigits(b);
    assert s[|s|..] == [];
  }

  lemma PartialStep(s: seq<nat>, t: seq<nat>, b: nat, m: nat, digit: nat, carry: nat, i: nat, length: nat)
    requires b >= 2 && Holds(s, b, length) && Partial(s, t, b, m, digit, carry, i, length)
    requires i < |t| && (carry != 0 || i < length)
    ensures var j := |t| - 1 - i;
            var n: nat := carry + m * t[j];
            n / b >= 0 && n % b >= 0 && Partial(s, t[j := n % b], b, m, digit, n / b, i + 1, length)
  {
    hide Pow, Value;
    var j := |t| - 1 - i;
    var n: nat := carry + m * t[j];
    ColumnOf(s, t, b, m, digit, carry, i);
    CarryBound(carry, m, t[j], b);
    DivSplit(n, b);
    if i >= length {
      LowDigits(s, b, i);
      MulAtLeast(carry, Pow(b, i));
    }
  }

  /** One column of the product, at its place in the buffer. */
  lemma ColumnOf(s: seq<nat>, t: seq<nat>, b: nat, m: nat, digit: nat, carry: nat, i: nat)
    requires b > 0 && |s| == |t| && i < |t| && t[|t| - 1 - i] == s[|t| - 1 - i]
    requires Value(t[|t| - i..], b) + carry * Pow(b, i) == m * Value(s[|s| - i..], b) + digit
    ensures var j := |t| - 1 - i;
            var n: nat := carry + m * t[j];
            Value(t[j := n % b][j..], b) + n / b * Pow(b, i + 1) == m * Value(s[j..], b) + digit
  {
    hide Pow, Value;
    var j := |t| - 1 - i;
    var n: nat := carry + m * t[j];
    Column(s[j + 1..], t[j + 1..], t[j], b, m, carry, digit);
    assert t[j := n % b][j..] == [n % b] + t[j + 1..] && s[j..] == [s[j]] + s[j + 1..];
  }

  lemma PartialDone(s: seq<nat>, t: seq<nat>, b: nat, m: nat, digit: nat, carry: nat, i: nat, length: nat)
    requires b >= 2 && Holds(s, b, length) && Partial(s, t, b, m, digit, carry, i, length)
    requires (carry == 0 && i >= length) || i == |t|
    requires m * Value(s, b) + digit < Pow(b, |s|)
    ensures carry == 0 && Value(t, b) == m * Value(s, b) + digit && Holds(t, b, i) && length <= i
  {
    hide Pow, Value;
    LowDigits(s, b, i);
    NoCarry(Value(t[|t| - i..], b), carry, Pow(b, i), m * Value(s, b) + digit, i == |t|);
    LowDigits(t, b, i);
    if 0 < i == length {
      MulAtLeast(m, Value(s, b));
    }
  }

  /** A carry out of a full buffer would make the number too large. */
  lemma NoCarry(v: nat, carry: nat, p: nat, total: nat, full: bool)
    requires v + carry * p == total && (full ==> total < p) && (!full ==> carry == 0)
    ensures carry == 0 && v == total
  {
    if carry > 0 {
      MulAtLeast(carry, p);
    }
  }

  /** Multiplies the number in the buffer by m and adds a digit. The carry never leaves the buffer. */
  method Accumulate(buf: array<nat>, b: nat, m: nat, digit: nat, length: nat) returns (r: nat)
    requires b >= 2 && digit < m && Holds(buf[..], b, length)
    requires m * Value(buf[..], b) + digit < Pow(b, buf.Length)
    modifies buf
    ensures Value(buf[..], b) == m * old(Value(buf[..], b)) + digit && Holds(buf[..], b, r) && length <= r
  {
    hide Pow, Value, Partial;
    ghost var s := buf[..];
    PartialStart(s, b, m, digit, length);
    var carry: nat, i := digit, 0;
    while (carry != 0 || i < length) && i < buf.Length
      invariant 0 <= i <= buf.Length && Partial(s, buf[..], b, m, digit, carry, i, length)
    {
      PartialStep(s, buf[..], b, m, digit, carry, i, length);
      var j := buf.Length - 1 - i;
      ghost var t: seq<nat> := buf[..];
      var n: nat := carry + m * buf[j];
      buf[j] := n % b;
      carry := n / b;
      assert buf[..] == t[j := n % b];
      i := i + 1;
    }
    PartialDone(s, buf[..], b, m, digit, carry, i, length);
    assert carry == 0;
    r := i;
  }

  // ---------- The codec ----------

  /** The buffer takes one more digit of a number that is still within the size it was made for. */
  lemma RoomForDigit(s: seq<nat>, j: nat, b: nat, c: nat, n: nat, size: nat)
    requires c > 0 && AreDigits(s, c) && j < |s| <= n && Pow(c, n) <= Pow(b, size)
    ensures Value(s[..j + 1], c) == c * Value(s[..j], c) + s[j] < Pow(b, size)
  {
    assert s[..j + 1][..j] == s[..j];
    ValueBound(s[..j + 1], c);
    PowGrows(c, j + 1, n);
  }

  lemma EmptyBuffer(s: seq<nat>, b: nat)
    requires b >= 2 && forall i :: 0 <= i < |s| ==> s[i] == 0
    ensures Holds(s, b, 0) && Value(s, b) == 0
  {
    ValueOfZeros(s, b);
  }

  lemma AfterZeros(s: seq<nat>, n: nat)
    requires n <= |s| && (forall k :: 0 <= k < n ==> s[k] == 0) && (n < |s| ==> s[n] != 0)
    ensures LeadingZeros(s) == n && Value(s, 256) == Value(s[n..], 256)
  {
    assert s == Zeros(n) + s[n..];
    LeadingZerosOf(n, s[n..]);
    ValueOfConverted(n, s[n..], 256);
  }

  method EncodeBase58(input: seq<nat>) returns (str: string)
    requires AreDigits(input, 256)
    ensures str == Encoded(input)
  {
    hide Pow, Value, Holds, ALPHABET, Text, ToDigits, LeadingZeros;
    var zeroes := 0;
    while zeroes < |input| && input[zeroes] == 0
      invariant zeroes <= |input| && forall k :: 0 <= k < zeroes ==> input[k] == 0
    {
      zeroes := zeroes + 1;
    }
    var rest := input[zeroes..];
    AfterZeros(input, zeroes);
    var size := |rest| * 138 / 100 + 1;
    EncodeBuffer(|rest|);
    var b58 := new nat[size](_ => 0);
    EmptyBuffer(b58[..], 58);
    NoDigits(256);
    var length, j := 0, 0;
    while j < |rest|
      invariant 0 <= j <= |rest| && Holds(b58[..], 58, length) && Value(b58[..], 58) == Value(rest[..j], 256)
    {
      RoomForDigit(rest, j, 58, 256, |rest|, size);
      length := Accumulate(b58, 58, 256, rest[j], length);
      j := j + 1;
    }
    assert rest[..j] == rest;
    var it := SkipZeros(b58, length);
    str := Spell(b58, it, zeroes);
  }

  /** Skips the zeros in front of the number in the buffer. */
  method SkipZeros(b58: array<nat>, length: nat) returns (it: nat)
    requires Holds(b58[..], 58, length)
    ensures it <= b58.Length && b58[it..] == ToDigits(Value(b58[..], 58), 58)
  {
    hide Pow, Value, ToDigits;
    it := b58.Length - length;
    while it != b58.Length && b58[it] == 0
      invariant b58.Length - length <= it <= b58.Length
      invariant forall k :: 0 <= k < it ==> b58[k] == 0
    {
      it := it + 1;
    }
    LowDigits(b58[..], 58, b58.Length - it);
    assert b58[it..] == b58[..][it..];
    DigitsOfValue(b58[it..], 58);
  }

  /** Translates the end of the buffer into text. */
  method Spell(b58: array<nat>, from: nat, zeroes: nat) returns (str: string)
    requires from <= b58.Length && AreDigits(b58[from..], 58)
    ensures str == Text(Zeros(zeroes) + b58[from..])
  {
    hide Text, ALPHABET;
    ghost var all := Zeros(zeroes) + b58[from..];
    TextStart(all);
    str := "";
    var i := 0;
    while i < zeroes
      invariant i <= zeroes && str == Text(all[..i])
    {
      TextNext(all, i);
      str := str + ['1'];
      i := i + 1;
    }
    var it := from;
    while it != b58.Length
      invariant from <= it <= b58.Length && str == Text(all[..zeroes + it - from])
      decreases b58.Length - it
    {
      TextNext(all, zeroes + it - from);
      str := str + [ALPHABET[b58[it]]];
      it := it + 1;
    }
    assert all[..|all|] == all;
  }

  lemma TextStart(d: seq<nat>)
    ensures Text(d[..0]) == ""
  {}

  lemma TextNext(d: seq<nat>, i: nat)
    requires AreDigits(d, 58) && i < |d|
    ensures |ALPHABET| == 58 && ALPHABET[0] == '1' && Text(d[..i + 1]) == Text(d[..i]) + [ALPHABET[d[i]]]
  {
    AlphabetToDigit(d[i]);
    assert d[..i + 1][..i] == d[..i];
  }

  // ---------- Decoding ----------

  /** The word starts at i and ends before e. */
  ghost predicate IsWord(s: string, i: nat, e: nat) {
    && i <= e <= |s| && i == Leading(s, true) && e == i + Leading(s[i..], false)
  }

  lemma WordEnds(s: string, i: nat, e: nat)
    requires IsWord(s, i, e)
    ensures i <= e <= |s| && forall k :: i <= k < e ==> !IsSpace(s[k])
    ensures e < |s| ==> IsSpace(s[e])
  {
    forall k | i <= k < e ensures !IsSpace(s[k]) {
      assert s[k] == s[i..][k - i];
    }
  }

  lemma {:induction false} LeadingIs(s: string, space: bool, n: nat)
    requires n <= |s| && (forall i :: 0 <= i < n ==> IsSpace(s[i]) == space) && (n < |s| ==> IsSpace(s[n]) != space)
    ensures Leading(s, space) == n
  {
    if n > 0 {
      LeadingIs(s[1..], space, n - 1);
    }
  }

  lemma ReachesPower(v: nat, b: nat, p: nat)
    requires b > 0 && b * p <= v
    ensures p <= v / b
  {
    DivSplit(v, b);
    if v / b < p {
      MulOrder(v / b + 1, p, b);
    }
  }

  lemma {:induction false} DigitCount(v: nat, b: nat, k: nat)
    requires b >= 2 && k > 0 && Pow(b, k - 1) <= v
    ensures |ToDigits(v, b)| >= k
    decreases k
  {
    hide Pow, ToDigits;
    DigitsStep(v, b);
    if k > 1 {
      PowNext(b, k - 2);
      ReachesPower(v, b, Pow(b, k - 2));
      DigitCount(v / b, b, k - 1);
    }
  }

  lemma {:induction false} ZerosLead(s: seq<nat>, z: nat)
    requires z <= |s| && forall k :: 0 <= k < z ==> s[k] == 0
    ensures LeadingZeros(s) >= z
  {
    if z > 0 {
      ZerosLead(s[1..], z - 1);
    }
  }

  /** A longer numeral is not smaller. */
  lemma PrefixValue(s: seq<nat>, k: nat, b: nat)
    requires k <= |s| && b > 0
    ensures Value(s[..k], b) <= Value(s, b)
  {
    assert s == s[..k] + s[k..];
    ValueConcat(s[..k], s[k..], b);
    MulAtLeast(Pow(b, |s| - k), Value(s[..k], b));
  }

  /** However the word goes on, it stands for at least the bytes found so far. */
  lemma AtLeastSoFar(d: seq<nat>, z: nat, k: nat, length: nat)
    requires z <= k <= |d| && AreDigits(d, 58) && forall i :: 0 <= i < z ==> d[i] == 0
    requires length > 0 ==> Pow(256, length - 1) <= Value(d[z..k], 58)
    ensures |Convert(d, 58, 256)| >= z + length
  {
    hide Pow, Value, ToDigits;
    ZerosLead(d, z);
    if length > 0 {
      assert d[..k] == d[..z] + d[z..k];
      assert d[..z] == Zeros(z);
      ValueOfConverted(z, d[z..k], 58);
      PrefixValue(d, k, 58);
      DigitCount(Value(d, 58), 256, length);
    }
  }

  /** The bytes in the buffer are those of the number. */
  lemma BufferDigits(s: seq<nat>, b: nat, length: nat)
    requires b >= 2 && Holds(s, b, length)
    ensures s[|s| - length..] == ToDigits(Value(s, b), b)
  {
    hide Pow, Value, ToDigits;
    var t := s[|s| - length..];
    LowDigits(s, b, length);
    if length > 0 && t[0] == 0 {
      LowDigits(t, b, length - 1);
      ValueBound(t[1..], b);
    }
    DigitsOfValue(t, b);
  }

  method SkipSpaces(str: string, from: nat) returns (p: nat)
    requires from <= |str|
    ensures from <= p <= |str| && (forall k :: from <= k < p ==> IsSpace(str[k])) && (p < |str| ==> !IsSpace(str[p]))
  {
    p := from;
    while p < |str| && IsSpace(str[p])
      invariant from <= p <= |str| && forall k :: from <= k < p ==> IsSpace(str[k])
    {
      p := p + 1;
    }
  }

  /** Counts leading ones, which stand for zero bytes. Fails as soon as there are too many. */
  method CountOnes(str: string, i: nat, ghost e: nat, maxLength: int) returns (ok: bool, zeroes: nat)
    requires IsWord(str, i, e)
    ensures i + zeroes <= e && forall k :: i <= k < i + zeroes ==> str[k] == '1'
    ensures ok ==> (zeroes > 0 ==> zeroes <= maxLength) && (i + zeroes < |str| ==> str[i + zeroes] != '1')
    ensures !ok ==> zeroes > 0 && zeroes > maxLength
  {
    WordEnds(str, i, e);
    zeroes := 0;
    while i + zeroes < |str| && str[i + zeroes] == '1'
      invariant i + zeroes <= e && (forall k :: i <= k < i + zeroes ==> str[k] == '1')
      invariant zeroes > 0 ==> zeroes <= maxLength
    {
      zeroes := zeroes + 1;
      if zeroes > maxLength {
        return false, zeroes;
      }
    }
    return true, zeroes;
  }

  /** Reads the digits after the leading ones. Fails on a foreign character or when there are too many bytes. */
  method ReadDigits(str: string, start: nat, ghost i: nat, ghost e: nat, zeroes: nat, maxLength: int)
    returns (r: Option<seq<nat>>, p: nat)
    requires IsWord(str, i, e) && start == i + zeroes <= e && forall k :: i <= k < start ==> str[k] == '1'
    requires start < |str| ==> str[start] != '1'
    requires zeroes > 0 ==> zeroes <= maxLength
    ensures r.Some? ==> p == e && WordBytes(str[i..e], maxLength) == Some(Zeros(zeroes) + r.value)
    ensures r.None? ==> WordBytes(str[i..e], maxLength) == None
  {
    hide Pow, Value, Holds, MapBase58, WordBytes, IsWord, Leading, IsText, DigitsOf, IsSpace, ReadSoFar;
    WordEnds(str, i, e);
    var size := (|str| - start) * 733 / 1000 + 1;
    var b256 := new nat[size](_ => 0);
    NothingRead(str, start, b256[..]);
    var length: nat := 0;
    p := start;
    while p < |str| && !IsSpace(str[p])
      invariant start <= p <= e && ReadSoFar(str, start, p, b256[..], length)
      invariant if p > start then zeroes + length <= maxLength else length == 0
    {
      var carry := MapBase58(str[p]);
      if carry == -1 {
        ForeignCharacter(str, i, e, p, maxLength);
        return None, p;
      }
      length := ReadDigit(b256, str, start, p, carry, length);
      p := p + 1;
      if length + zeroes > maxLength {
        FoundTooMany(str, i, e, zeroes, p, length, b256[..], maxLength);
        return None, p;
      }
    }
    WordRead(str, i, e, zeroes, b256[..], length, maxLength);
    assert b256[..][size - length..] == b256[size - length..];
    r := Some(b256[size - length..]);
  }

  /** The buffer holds the number that the digits from start up to p stand for. */
  ghost predicate ReadSoFar(str: string, start: nat, p: nat, s: seq<nat>, length: nat) {
    && start <= p <= |str| && IsText(str[start..p]) && Holds(s, 256, length)
    && Value(s, 256) == Value(DigitsOf(str[start..p]), 58)
  }

  lemma NothingRead(str: string, start: nat, s: seq<nat>)
    requires start <= |str| && forall i :: 0 <= i < |s| ==> s[i] == 0
    ensures ReadSoFar(str, start, start, s, 0)
  {
    hide Value, Holds, IsText, DigitsOf;
    EmptyBuffer(s, 256);
    EmptyText(str, start);
  }

  /** One more digit goes into the buffer, which has the size for all of them. */
  method ReadDigit(b256: array<nat>, str: string, start: nat, p: nat, carry: int, length: nat) returns (r: nat)
    requires p < |str| && ReadSoFar(str, start, p, b256[..], length) && carry == MapBase58(str[p]) != -1
    requires b256.Length == (|str| - start) * 733 / 1000 + 1
    modifies b256
    ensures ReadSoFar(str, start, p + 1, b256[..], r)
  {
    hide Pow, Value, Holds, MapBase58, IsText, DigitsOf;
    DecodeBuffer(|str| - start);
    DigitsNext(str, start, p);
    RoomForDigit(DigitsOf(str[start..p + 1]), p - start, 256, 58, |str| - start, b256.Length);
    r := Accumulate(b256, 256, 58, carry, length);
  }

  lemma ForeignCharacter(str: string, i: nat, e: nat, p: nat, maxLength: int)
    requires i <= p < e <= |str| && MapBase58(str[p]) == -1
    ensures WordBytes(str[i..e], maxLength) == None
  {
    assert str[i..e][p - i] == str[p];
  }

  lemma WordRead(str: string, i: nat, e: nat, zeroes: nat, s: seq<nat>, length: nat, maxLength: int)
    requires i + zeroes <= e <= |str| && forall k :: i <= k < i + zeroes ==> str[k] == '1'
    requires i + zeroes < |str| ==> str[i + zeroes] != '1'
    requires ReadSoFar(str, i + zeroes, e, s, length)
    requires i < e ==> zeroes + length <= maxLength
    ensures length <= |s| && WordBytes(str[i..e], maxLength) == Some(Zeros(zeroes) + s[|s| - length..])
  {
    hide Value, ToDigits, Convert, Pow;
    BufferDigits(s, 256, length);
    WordDigits(str, i, e, zeroes);
  }

  lemma EmptyText(str: string, start: nat)
    requires start <= |str|
    ensures IsText(str[start..start]) && Value(DigitsOf(str[start..start]), 58) == 0
  {}

  lemma DigitsNext(str: string, start: nat, p: nat)
    requires start <= p < |str| && IsText(str[start..p]) && MapBase58(str[p]) != -1
    ensures IsText(str[start..p + 1]) && DigitsOf(str[start..p + 1]) == DigitsOf(str[start..p]) + [MapBase58(str[p])]
    ensures DigitsOf(str[start..p + 1])[..p - start] == DigitsOf(str[start..p])
    ensures DigitsOf(str[start..p + 1])[..p - start + 1] == DigitsOf(str[start..p + 1])
  {
    assert str[start..p + 1][..p - start] == str[start..p];
  }

  lemma FoundTooMany(str: string, i: nat, e: nat, z: nat, p: nat, length: nat, s: seq<nat>, maxLength: int)
    requires i + z < p <= e <= |str| && forall k :: i <= k < i + z ==> str[k] == '1'
    requires ReadSoFar(str, i + z, p, s, length)
    requires z + length > maxLength
    ensures WordBytes(str[i..e], maxLength) == None
  {
    hide Convert, Value, Pow, MapBase58;
    if IsText(str[i..e]) {
      var d := DigitsOf(str[i..e]);
      SubDigits(str, i, e, i + z, p);
      Ones(str, i, e, z);
      AtLeastSoFar(d, z, p - i, length);
    }
  }

  lemma SubDigits(str: string, i: nat, e: nat, j: nat, k: nat)
    requires i <= j <= k <= e <= |str| && IsText(str[i..e]) && IsText(str[j..k])
    ensures DigitsOf(str[j..k]) == DigitsOf(str[i..e])[j - i..k - i]
  {
    hide MapBase58;
    forall n | 0 <= n < k - j ensures DigitsOf(str[j..k])[n] == DigitsOf(str[i..e])[j - i + n] {
      assert str[j..k][n] == str[i..e][j - i + n];
    }
  }

  lemma Ones(str: string, i: nat, e: nat, z: nat)
    requires i + z <= e <= |str| && IsText(str[i..e]) && forall k :: i <= k < i + z ==> str[k] == '1'
    ensures forall k :: 0 <= k < z ==> DigitsOf(str[i..e])[k] == 0
  {}

  lemma WordDigits(str: string, i: nat, e: nat, zeroes: nat)
    requires i + zeroes <= e <= |str| && IsText(str[i + zeroes..e]) && forall k :: i <= k < i + zeroes ==> str[k] == '1'
    requires i + zeroes < |str| ==> str[i + zeroes] != '1'
    ensures IsText(str[i..e])
    ensures Convert(DigitsOf(str[i..e]), 58, 256)
         == Zeros(zeroes) + ToDigits(Value(DigitsOf(str[i + zeroes..e]), 58), 256)
  {
    hide Value, ToDigits, MapBase58;
    OneIsZero();
    var t := DigitsOf(str[i + zeroes..e]);
    forall k | 0 <= k < e - i ensures MapBase58(str[i..e][k]) == if k < zeroes then 0 else t[k - zeroes] {
      if k >= zeroes {
        assert str[i..e][k] == str[i + zeroes..e][k - zeroes];
      }
    }
    assert DigitsOf(str[i..e]) == Zeros(zeroes) + t;
    if t != [] {
      OnlyOneIsZero(str[i + zeroes]);
    }
    LeadingZerosOf(zeroes, t);
    ValueOfConverted(zeroes, t, 58);
  }

  lemma OneIsZero()
    ensures MapBase58('1') == 0
  {}

  lemma OnlyOneIsZero(c: char)
    ensures MapBase58(c) == 0 <==> c == '1'
  {}

  method DecodeBase58(str: string, maxLength: int) returns (r: Option<seq<nat>>)
    ensures r == Decoded(str, maxLength)
  {
    hide WordBytes, IsText;
    if '\0' in str {
      return None;
    }
    var i := SkipSpaces(str, 0);
    ghost var e := i + Leading(str[i..], false);
    LeadingIs(str, true, i);
    assert IsWord(str, i, e);
    var ok, zeroes := CountOnes(str, i, e, maxLength);
    if !ok {
      OnesTooMany(str, i, e, zeroes, maxLength);
      return None;
    }
    var bytes, p := ReadDigits(str, i + zeroes, i, e, zeroes, maxLength);
    if bytes.None? {
      return None;
    }
    p := SkipSpaces(str, p);
    if p != |str| {
      assert !AllSpaces(str[e..]) by { assert str[e..][p - e] == str[p]; }
      return None;
    }
    r := Some(Zeros(zeroes) + bytes.value);
  }

  lemma OnesTooMany(str: string, i: nat, e: nat, z: nat, maxLength: int)
    requires i + z <= e <= |str| && z > 0 && z > maxLength && forall k :: i <= k < i + z ==> str[k] == '1'
    ensures WordBytes(str[i..e], maxLength) == None
  {
    hide Convert, Value, MapBase58;
    if IsText(str[i..e]) {
      Ones(str, i, e, z);
      AtLeastSoFar(DigitsOf(str[i..e]), z, z, 0);
    }
  }

  // ---------- Round trips ----------

  lemma EncodedWord(bytes: seq<nat>)
    requires AreDigits(bytes, 256)
    ensures var text := Encoded(bytes);
            && IsText(text) && (text == "" <==> bytes == []) && DigitsOf(text) == Convert(bytes, 256, 58)
            && forall i :: 0 <= i < |text| ==> !IsSpace(text[i])
  {
    hide Convert, Text;
    ConvertBack(bytes, 256, 58);
    ConvertNothing();
  }

  lemma ConvertNothing()
    ensures Convert([], 256, 58) == [] == Convert([], 58, 256)
  {}

  /** Every byte string is read back from its text, between any spaces, whenever it is not too long. */
  lemma DecodesEncoded(bytes: seq<nat>, before: string, after: string, maxLength: int)
    requires AreDigits(bytes, 256) && AllSpaces(before) && AllSpaces(after)
    ensures Decoded(before + Encoded(bytes) + after, maxLength)
         == if bytes == [] || |bytes| <= maxLength then Some(bytes) else None
  {
    hide Convert, Encoded, IsText;
    var text := Encoded(bytes);
    EncodedWord(bytes);
    ConvertBack(bytes, 256, 58);
    if text == "" {
      assert before + text + after == (before + after) + text + "";
      Between(before + after, text, "");
    } else {
      Between(before, text, after);
    }
  }

  lemma Between(before: string, word: string, after: string)
    requires AllSpaces(before) && AllSpaces(after) && IsText(word) && forall i :: 0 <= i < |word| ==> !IsSpace(word[i])
    requires word == "" ==> after == ""
    ensures var s := before + word + after;
            && Leading(s, true) == |before| && s[|before|..] == word + after && Leading(word + after, false) == |word|
            && '\0' !in s && s[|before|..|before| + |word|] == word && s[|before| + |word|..] == after
  {
    hide MapBase58, Leading, IsSpace, IsText;
    var s := before + word + after;
    Parts(before, word, after);
    forall i | 0 <= i < |before| ensures IsSpace(s[i]) {
      assert s[i] == before[i];
    }
    if |before| < |s| {
      FirstAfter(before, word, after);
    }
    LeadingIs(s, true, |before|);
    LeadingIs(word + after, false, |word|);
    NoNul(before, word);
    NoNul(after, word);
  }

  lemma Parts(before: string, word: string, after: string)
    ensures var s := before + word + after;
            s[|before|..] == word + after && s[|before|..|before| + |word|] == word && s[|before| + |word|..] == after
  {}

  lemma FirstAfter(before: string, word: string, after: string)
    requires word != ""
    ensures (before + word + after)[|before|] == word[0]
  {}

  lemma NoNul(spaces: string, word: string)
    requires AllSpaces(spaces) && IsText(word)
    ensures '\0' !in spaces && '\0' !in word
  {}

  /** A text that is accepted is the text of its bytes, up to surrounding spaces. */
  lemma EncodesDecoded(s: string, maxLength: int) returns (before: string, after: string)
    requires Decoded(s, maxLength).Some?
    ensures AllSpaces(before) && AllSpaces(after) && s == before + Encoded(Decoded(s, maxLength).value) + after
  {
    hide WordBytes, Leading, Encoded;
    var i := Leading(s, true);
    var e := i + Leading(s[i..], false);
    before, after := s[..i], s[e..];
    EncodedOfWord(s[i..e], maxLength);
    assert s == s[..i] + s[i..e] + s[e..];
  }

  lemma EncodedOfWord(word: string, maxLength: int)
    requires WordBytes(word, maxLength).Some?
    ensures Encoded(WordBytes(word, maxLength).value) == word
  {
    hide Convert, Encoded;
    EncodedOfDigits(word);
  }

  lemma EncodedOfDigits(word: string)
    requires IsText(word)
    ensures Encoded(Convert(DigitsOf(word), 58, 256)) == word
  {
    hide Convert, MapBase58;
    ConvertBack(DigitsOf(word), 58, 256);
    var text := Text(DigitsOf(word));
    forall i | 0 <= i < |word| ensures text[i] == word[i] {
      SameDigit(text[i], word[i]);
    }
  }
}
