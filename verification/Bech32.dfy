/** Bech32 and Bech32m strings. */
module Bech32 {
  import opened Options
  import opened PolyMods

  datatype Encoding = INVALID | BECH32 | BECH32M

  datatype DecodeResult = DecodeResult(encoding: Encoding, hrp: string, data: seq<bv8>)

  const FAILED := DecodeResult(INVALID, "", [])
  const CHECKSUM_SIZE: nat := 6
  const SEPARATOR: char := '1'

  // ---------- Characters ----------

  function ToCharLow(v: bv8): char {
    if v == 0 then 'q' else if v == 1 then 'p' else if v == 2 then 'z' else if v == 3 then 'r'
    else if v == 4 then 'y' else if v == 5 then '9' else if v == 6 then 'x' else if v == 7 then '8'
    else if v == 8 then 'g' else if v == 9 then 'f' else if v == 10 then '2' else if v == 11 then 't'
    else if v == 12 then 'v' else if v == 13 then 'd' else if v == 14 then 'w'
    else '0'
  }

  function ToCharHigh(v: bv8): char {
    if v == 16 then 's' else if v == 17 then '3' else if v == 18 then 'j' else if v == 19 then 'n'
    else if v == 20 then '5' else if v == 21 then '4' else if v == 22 then 'k' else if v == 23 then 'h'
    else if v == 24 then 'c' else if v == 25 then 'e' else if v == 26 then '6' else if v == 27 then 'm'
    else if v == 28 then 'u' else if v == 29 then 'a' else if v == 30 then '7'
    else 'l'
  }

  /** The character of a five-bit value. */
  function ToChar(v: bv8): char {
    if v < 16 then ToCharLow(v) else ToCharHigh(v)
  }

  function FromLowerLow(c: char): bv8 {
    if c == 'q' then 0 else if c == 'p' then 1 else if c == 'z' then 2 else if c == 'r' then 3
    else if c == 'y' then 4 else if c == '9' then 5 else if c == 'x' then 6 else if c == '8' then 7
    else if c == 'g' then 8 else if c == 'f' then 9 else if c == '2' then 10 else if c == 't' then 11
    else if c == 'v' then 12 else if c == 'd' then 13 else if c == 'w' then 14 else if c == '0' then 15
    else 255
  }

  function FromLowerHigh(c: char): bv8 {
    if c == 's' then 16 else if c == '3' then 17 else if c == 'j' then 18 else if c == 'n' then 19
    else if c == '5' then 20 else if c == '4' then 21 else if c == 'k' then 22 else if c == 'h' then 23
    else if c == 'c' then 24 else if c == 'e' then 25 else if c == '6' then 26 else if c == 'm' then 27
    else if c == 'u' then 28 else if c == 'a' then 29 else if c == '7' then 30 else if c == 'l' then 31
    else 255
  }

  /** The five-bit value of a digit or lower-case letter, or 255. */
  function FromLower(c: char): bv8 {
    if FromLowerLow(c) != 255 then FromLowerLow(c) else FromLowerHigh(c)
  }

  /** The five-bit value of a character in either case, or 255. */
  function FromChar(c: char): bv8 {
    FromLower(LowerCase(c))
  }

  predicate IsLower(c: char) {
    'a' <= c <= 'z'
  }

  predicate IsUpper(c: char) {
    'A' <= c <= 'Z'
  }

  predicate IsPrintable(c: char) {
    33 <= c as int <= 126
  }

  function LowerCase(c: char): char {
    if IsUpper(c) then (c as int - 'A' as int + 'a' as int) as char else c
  }

  lemma LowInverse(v: bv8)
    requires v < 16
    ensures FromLowerLow(ToCharLow(v)) == v
  {}

  lemma HighInverse(v: bv8)
    requires 16 <= v < 32
    ensures FromLowerHigh(ToCharHigh(v)) == v
  {}

  lemma HighIsNotLow(v: bv8)
    requires 16 <= v < 32
    ensures FromLowerLow(ToCharHigh(v)) == 255
  {}

  lemma ToCharInverse(v: bv8)
    requires v < 32
    ensures FromLower(ToChar(v)) == v
  {
    hide FromLowerLow, FromLowerHigh, ToCharLow, ToCharHigh;
    if v < 16 {
      LowInverse(v);
    } else {
      HighInverse(v);
      HighIsNotLow(v);
    }
  }

  lemma ToCharClass(v: bv8)
    ensures ToChar(v) != SEPARATOR && IsPrintable(ToChar(v)) && !IsUpper(ToChar(v))
  {}

  lemma CharOfValue(v: bv8)
    requires v < 32
    ensures FromChar(ToChar(v)) == v && ToChar(v) != SEPARATOR && IsPrintable(ToChar(v)) && !IsUpper(ToChar(v))
  {
    hide ToChar, FromLower;
    ToCharInverse(v);
    ToCharClass(v);
  }

  lemma FromLowInverse(c: char)
    requires FromLowerLow(c) != 255
    ensures FromLowerLow(c) < 16 && ToCharLow(FromLowerLow(c)) == c
  {}

  lemma FromHighInverse(c: char)
    requires FromLowerHigh(c) != 255
    ensures 16 <= FromLowerHigh(c) < 32 && ToCharHigh(FromLowerHigh(c)) == c
  {}

  lemma FromLowerInverse(c: char)
    requires FromLower(c) != 255
    ensures FromLower(c) < 32 && ToChar(FromLower(c)) == c
  {
    hide FromLowerLow, FromLowerHigh, ToCharLow, ToCharHigh;
    if FromLowerLow(c) != 255 {
      FromLowInverse(c);
    } else {
      FromHighInverse(c);
    }
  }

  lemma ValueOfChar(c: char)
    requires FromChar(c) != 255
    ensures FromChar(c) < 32 && ToChar(FromChar(c)) == LowerCase(c)
  {
    hide ToChar, FromLower;
    FromLowerInverse(LowerCase(c));
  }

  lemma LowerValue(c: char)
    ensures FromChar(LowerCase(c)) == FromChar(c) && (LowerCase(c) == SEPARATOR <==> c == SEPARATOR)
    ensures !IsUpper(LowerCase(c)) && (IsPrintable(LowerCase(c)) <==> IsPrintable(c))
  {
    hide FromLower;
  }

  predicate AllPrintable(s: string) {
    forall i :: 0 <= i < |s| ==> IsPrintable(s[i])
  }

  predicate HasUpper(s: string) {
    exists i :: 0 <= i < |s| && IsUpper(s[i])
  }

  predicate HasLower(s: string) {
    exists i :: 0 <= i < |s| && IsLower(s[i])
  }

  function Lower(s: string): (r: string)
    ensures |r| == |s| && forall i :: 0 <= i < |s| ==> r[i] == LowerCase(s[i])
  {
    seq(|s|, i requires 0 <= i < |s| => LowerCase(s[i]))
  }

  function Chars(v: seq<bv8>): (r: string)
    ensures |r| == |v| && forall i :: 0 <= i < |v| ==> r[i] == ToChar(v[i])
  {
    seq(|v|, i requires 0 <= i < |v| => ToChar(v[i]))
  }

  /** The character set in the order of the values. */
  lemma CharacterSet(k: nat)
    requires k < 32
    ensures ToChar(k as bv8) == "qpzry9x8gf2tvdw0s3jn54khce6mua7l"[k]
  {
    hide ToCharLow, ToCharHigh;
    if k < 16 {
      LowSet(k);
      assert "qpzry9x8gf2tvdw0s3jn54khce6mua7l"[..16] == "qpzry9x8gf2tvdw0";
    } else {
      HighSet(k);
      assert "qpzry9x8gf2tvdw0s3jn54khce6mua7l"[16..] == "s3jn54khce6mua7l";
    }
  }

  lemma LowSet(k: nat)
    requires k < 16
    ensures k as bv8 < 16 && ToCharLow(k as bv8) == "qpzry9x8gf2tvdw0"[k]
  {
  }

  lemma HighSet(k: nat)
    requires 16 <= k < 32
    ensures 16 <= k as bv8 && ToCharHigh(k as bv8) == "s3jn54khce6mua7l"[k - 16]
  {
  }

  /** Visible characters of ASCII. */
  lemma PrintableExactly(c: char)
    ensures IsPrintable(c) <==> '!' <= c <= '~'
  {
  }

  /** Upper case is 32 places before lower case. */
  lemma LowerCaseExactly(c: char)
    ensures LowerCase(c) as int == c as int + if 'A' <= c <= 'Z' then 32 else 0
  {
  }

  // ---------- The encoding ----------

  predicate IsBytes(s: string) {
    forall i :: 0 <= i < |s| ==> s[i] as int < 256
  }

  /** A signed character shifted right by five, as a byte. */
  function HighBits(c: char): bv8
    requires c as int < 256
  {
    ((if c as int < 128 then 0 else 248) + c as int / 32) as bv8
  }

  function LowBits(c: char): bv8 {
    (c as int % 32) as bv8
  }

  /** The human-readable part, expanded for the checksum. */
  function Expanded(hrp: string): seq<bv8>
    requires IsBytes(hrp)
  {
    seq(|hrp|, i requires 0 <= i < |hrp| => HighBits(hrp[i])) + [0]
    + seq(|hrp|, i requires 0 <= i < |hrp| => LowBits(hrp[i]))
  }

  function EncodingConstant(e: Encoding): bv32
    requires e != INVALID
  {
    if e == BECH32 then 1 else 0x2bc830a3
  }

  lemma ConstantsFit(e: Encoding)
    requires e != INVALID
    ensures Fits(EncodingConstant(e))
    ensures EncodingConstant(BECH32) != EncodingConstant(BECH32M)
  {}

  /** The string that stands for a payload. */
  function Encoded(e: Encoding, hrp: string, data: seq<bv8>): string
    requires e != INVALID && IsBytes(hrp)
  {
    hrp + [SEPARATOR] + Chars(data + Checksum(Expanded(hrp) + data, EncodingConstant(e)))
  }

  /** What a payload must be like to have a readable string. */
  predicate IsPayload(e: Encoding, hrp: string, data: seq<bv8>) {
    && e != INVALID && hrp != "" && AllPrintable(hrp) && !HasUpper(hrp) && IsBytes(hrp) && AreSymbols(data)
  }

  /** A string, not of mixed case and not too long, that stands for a payload. */
  predicate Reads(str: string, limit: nat, r: DecodeResult) {
    && IsPayload(r.encoding, r.hrp, r.data) && |str| <= limit && !(HasLower(str) && HasUpper(str))
    && Lower(str) == Encoded(r.encoding, r.hrp, r.data)
  }

  /** The upper three bits of a character, with the sign before them, and the lower five. */
  lemma BitsAre(c: char)
    requires c as int < 256
    ensures HighBits(c) == ((if c as int < 128 then 0 else 248) + c as int / 32) as bv8 && LowBits(c) == (c as int % 32) as bv8
  {
  }

  method PreparePolynomialCoefficients(hrp: string, values: seq<bv8>) returns (r: seq<bv8>)
    requires IsBytes(hrp)
    ensures r == Expanded(hrp) + values && |r| == 2 * |hrp| + 1 + |values|
    ensures forall i :: 0 <= i < |hrp| ==> r[i] == HighBits(hrp[i]) && r[|hrp| + 1 + i] == LowBits(hrp[i])
    ensures r[|hrp|] == 0 && r[2 * |hrp| + 1..] == values
  {
    hide HighBits, LowBits;
    ghost var high := seq(|hrp|, i requires 0 <= i < |hrp| => HighBits(hrp[i]));
    ghost var low := seq(|hrp|, i requires 0 <= i < |hrp| => LowBits(hrp[i]));
    r := [];
    var i := 0;
    while i < |hrp|
      invariant 0 <= i <= |hrp| && r == high[..i]
    {
      r := r + [HighBits(hrp[i])];
      i := i + 1;
    }
    r := r + [0];
    i := 0;
    while i < |hrp|
      invariant 0 <= i <= |hrp| && r == high + [0] + low[..i]
    {
      r := r + [LowBits(hrp[i])];
      i := i + 1;
    }
    assert low[..i] == low;
    r := r + values;
  }

  method VerifyChecksum(hrp: string, values: seq<bv8>) returns (e: Encoding)
    requires IsBytes(hrp)
    ensures e != INVALID ==> PolyMod(Expanded(hrp) + values) == EncodingConstant(e)
    ensures e == INVALID ==> forall k :: k != INVALID ==> PolyMod(Expanded(hrp) + values) != EncodingConstant(k)
  {
    hide PolyMod, Expanded;
    var enc := PreparePolynomialCoefficients(hrp, values);
    var check := ComputePolyMod(enc);
    if check == EncodingConstant(BECH32) {
      return BECH32;
    }
    if check == EncodingConstant(BECH32M) {
      return BECH32M;
    }
    return INVALID;
  }

  method CreateChecksum(e: Encoding, hrp: string, values: seq<bv8>) returns (r: seq<bv8>)
    requires e != INVALID && IsBytes(hrp)
    ensures r == Checksum(Expanded(hrp) + values, EncodingConstant(e))
  {
    hide PolyMod, Expanded, EncodingConstant;
    var enc := PreparePolynomialCoefficients(hrp, values);
    enc := enc + Zeros(CHECKSUM_SIZE);
    var mod := ComputePolyMod(enc);
    mod := Xor(mod, EncodingConstant(e));
    r := [((mod >> 25) & 31) as bv8, ((mod >> 20) & 31) as bv8, ((mod >> 15) & 31) as bv8,
          ((mod >> 10) & 31) as bv8, ((mod >> 5) & 31) as bv8, (mod & 31) as bv8];
  }

  method Encode(e: Encoding, hrp: string, values: seq<bv8>) returns (r: string)
    requires e != INVALID && IsBytes(hrp) && !HasUpper(hrp) && AreSymbols(values)
    ensures r == Encoded(e, hrp, values)
  {
    hide Checksum, Expanded, ToChar;
    r := hrp + [SEPARATOR];
    var i := 0;
    while i < |values|
      invariant 0 <= i <= |values| && r == hrp + [SEPARATOR] + Chars(values[..i])
    {
      r := r + [ToChar(values[i])];
      i := i + 1;
    }
    var sum := CreateChecksum(e, hrp, values);
    assert values[..i] == values;
    i := 0;
    while i < |sum|
      invariant 0 <= i <= |sum| && r == hrp + [SEPARATOR] + Chars(values + sum[..i])
    {
      r := r + [ToChar(sum[i])];
      i := i + 1;
    }
    assert sum[..i] == sum;
  }

  predicate IsLetter(c: char) {
    IsLower(c) || IsUpper(c)
  }

  /** The first letter of a string. It decides which case the string is to be in. */
  function FirstLetter(s: string): (r: Option<char>)
    ensures r.Some? ==> IsLetter(r.value)
  {
    if s == "" then None
    else
      var first := FirstLetter(s[..|s| - 1]);
      if first.None? && IsLetter(s[|s| - 1]) then Some(s[|s| - 1]) else first
  }

  /** A letter of the other case than the first one, or a character that is not allowed at all. */
  predicate Wrong(str: string, k: nat)
    requires k < |str|
  {
    if IsLetter(str[k]) then
      FirstLetter(str[..k]).Some? && IsUpper(FirstLetter(str[..k]).value) != IsUpper(str[k])
    else !IsPrintable(str[k])
  }

  /** The positions of characters that are not allowed, or that mix upper and lower case. */
  method CheckCharacters(str: string) returns (errors: seq<nat>)
    ensures forall i, j :: 0 <= i < j < |errors| ==> errors[i] < errors[j]
    ensures forall k: nat :: k in errors <==> k < |str| && Wrong(str, k)
    ensures errors == [] <==> AllPrintable(str) && !(HasLower(str) && HasUpper(str))
  {
    errors := [];
    var lower, upper := false, false;
    var i := 0;
    while i < |str|
      invariant 0 <= i <= |str|
      invariant forall j, k :: 0 <= j < k < |errors| ==> errors[j] < errors[k]
      invariant (forall k: nat :: k in errors <==> k < i && Wrong(str, k)) && forall j :: 0 <= j < |errors| ==> errors[j] < i
      invariant lower == (FirstLetter(str[..i]).Some? && IsLower(FirstLetter(str[..i]).value))
      invariant upper == (FirstLetter(str[..i]).Some? && IsUpper(FirstLetter(str[..i]).value))
      invariant errors == [] <==> AllPrintable(str[..i]) && !(HasLower(str[..i]) && HasUpper(str[..i]))
      invariant errors == [] ==> lower == HasLower(str[..i]) && upper == HasUpper(str[..i])
    {
      var c := str[i];
      OneMore(str, i);
      assert str[..i + 1][..i] == str[..i];
      if IsLower(c) {
        if upper {
          errors := errors + [i];
        } else {
          lower := true;
        }
      } else if IsUpper(c) {
        if lower {
          errors := errors + [i];
        } else {
          upper := true;
        }
      } else if !IsPrintable(c) {
        errors := errors + [i];
      }
      i := i + 1;
    }
    assert str[..i] == str;
  }

  lemma OneMore(str: string, i: nat)
    requires i < |str|
    ensures AllPrintable(str[..i + 1]) <==> AllPrintable(str[..i]) && IsPrintable(str[i])
    ensures HasLower(str[..i + 1]) <==> HasLower(str[..i]) || IsLower(str[i])
    ensures HasUpper(str[..i + 1]) <==> HasUpper(str[..i]) || IsUpper(str[i])
  {
    assert str[..i + 1] == str[..i] + [str[i]];
  }

  /** The last position of the separator, or -1. */
  method RFind(str: string) returns (pos: int)
    ensures -1 <= pos < |str| && (pos >= 0 ==> str[pos] == SEPARATOR)
    ensures forall k :: pos < k < |str| ==> str[k] != SEPARATOR
  {
    pos := |str| - 1;
    while pos >= 0 && str[pos] != SEPARATOR
      invariant -1 <= pos < |str| && forall k :: pos < k < |str| ==> str[k] != SEPARATOR
    {
      pos := pos - 1;
    }
  }

  // ---------- Decoding ----------

  /** The values of characters that are all in the character set. */
  ghost predicate Valued(t: string, v: seq<bv8>) {
    |v| == |t| && forall i :: 0 <= i < |v| ==> v[i] == FromChar(t[i]) && v[i] != 255
  }

  /** The shape of a string that can be read: where the separator stands, and what follows it. */
  lemma ReadsForm(str: string, limit: nat, r: DecodeResult)
    requires Reads(str, limit, r)
    ensures var pos := |r.hrp|;
            var all := r.data + Checksum(Expanded(r.hrp) + r.data, EncodingConstant(r.encoding));
            && |str| == pos + 1 + |all| && |all| == |r.data| + 6 && AreSymbols(all) && AllPrintable(str)
            && str[pos] == SEPARATOR && Lower(str[..pos]) == r.hrp
            && (forall k :: pos < k < |str| ==> str[k] != SEPARATOR) && Valued(str[pos + 1..], all)
            && PolyMod(Expanded(r.hrp) + all) == EncodingConstant(r.encoding)
  {
    hide Checksum, Expanded, EncodingConstant, AllPrintable, PolyMod, Fits;
    var sum := Checksum(Expanded(r.hrp) + r.data, EncodingConstant(r.encoding));
    var all := r.data + sum;
    ConstantsFit(r.encoding);
    ChecksumVerifies(Expanded(r.hrp) + r.data, EncodingConstant(r.encoding));
    assert Expanded(r.hrp) + all == (Expanded(r.hrp) + r.data) + sum;
    Layout(str, r.hrp, all);
    AllArePrintable(str, r, all);
  }

  /** Where the separator stands, and what surrounds it. */
  lemma Layout(str: string, hrp: string, all: seq<bv8>)
    requires AreSymbols(all) && Lower(str) == hrp + [SEPARATOR] + Chars(all)
    ensures |str| == |hrp| + 1 + |all| && str[|hrp|] == SEPARATOR && Lower(str[..|hrp|]) == hrp
    ensures (forall k :: |hrp| < k < |str| ==> str[k] != SEPARATOR) && Valued(str[|hrp| + 1..], all)
  {
    hide ToChar, FromChar, LowerCase;
    var pos, code, t := |hrp|, hrp + [SEPARATOR] + Chars(all), str[|hrp| + 1..];
    assert Lower(t) == Lower(str)[pos + 1..] == Chars(all);
    assert Lower(str[..pos]) == Lower(str)[..pos] == hrp;
    LowerValue(str[pos]);
    assert LowerCase(str[pos]) == Lower(str)[pos];
    forall i | 0 <= i < |all| ensures t[i] != SEPARATOR && all[i] == FromChar(t[i]) != 255 {
      assert LowerCase(t[i]) == Chars(all)[i];
      LowerValue(t[i]);
      CharOfValue(all[i]);
    }
    assert forall k :: pos < k < |str| ==> str[k] == t[k - pos - 1];
  }

  lemma AllArePrintable(str: string, r: DecodeResult, all: seq<bv8>)
    requires AllPrintable(r.hrp) && AreSymbols(all) && Lower(str) == r.hrp + [SEPARATOR] + Chars(all)
    ensures AllPrintable(str)
  {
    hide ToChar, LowerCase, IsPrintable;
    SeparatorPrintable();
    forall k | 0 <= k < |str| ensures IsPrintable(str[k]) {
      LowerValue(str[k]);
      if k > |r.hrp| {
        CharOfValue(all[k - |r.hrp| - 1]);
        assert LowerCase(str[k]) == ToChar(all[k - |r.hrp| - 1]);
      } else {
        assert LowerCase(str[k]) == if k < |r.hrp| then r.hrp[k] else SEPARATOR;
      }
    }
  }

  lemma SeparatorPrintable()
    ensures IsPrintable(SEPARATOR)
  {}

  /** A string stands for at most one payload. */
  lemma ReadsUnique(str: string, limit: nat, r: DecodeResult, q: DecodeResult)
    requires Reads(str, limit, r) && Reads(str, limit, q)
    ensures r == q
  {
    hide Checksum, Expanded, Reads, FromChar, EncodingConstant, PolyMod;
    ReadsForm(str, limit, r);
    ReadsForm(str, limit, q);
    assert IsPayload(r.encoding, r.hrp, r.data) && IsPayload(q.encoding, q.hrp, q.data) by { PayloadOf(str, limit, r); PayloadOf(str, limit, q); }
    assert |r.hrp| == |q.hrp| && r.hrp == q.hrp;
    var e := Expanded(r.hrp);
    var rs := Checksum(e + r.data, EncodingConstant(r.encoding));
    var qs := Checksum(e + q.data, EncodingConstant(q.encoding));
    assert r.data + rs == q.data + qs;
    assert r.data == (r.data + rs)[..|r.data|] && q.data == (q.data + qs)[..|r.data|];
    ConstantsFit(r.encoding);
    ConstantsFit(q.encoding);
    ChecksumVerifies(e + r.data, EncodingConstant(r.encoding));
    ChecksumVerifies(e + q.data, EncodingConstant(q.encoding));
    assert rs == (r.data + rs)[|r.data|..] && qs == (q.data + qs)[|q.data|..];
    SameConstant(r.encoding, q.encoding);
  }

  lemma SameConstant(e: Encoding, f: Encoding)
    requires e != INVALID && f != INVALID && EncodingConstant(e) == EncodingConstant(f)
    ensures e == f
  {}

  lemma PayloadOf(str: string, limit: nat, r: DecodeResult)
    requires Reads(str, limit, r)
    ensures IsPayload(r.encoding, r.hrp, r.data) && |str| <= limit && !(HasLower(str) && HasUpper(str))
  {}

  /** A string whose checksum is right stands for its payload. */
  lemma Accepted(str: string, limit: nat, pos: nat, v: seq<bv8>, e: Encoding)
    requires 0 < pos && pos + 6 < |str| <= limit && AllPrintable(str) && !(HasLower(str) && HasUpper(str))
    requires str[pos] == SEPARATOR && Valued(str[pos + 1..], v)
    requires e != INVALID && IsBytes(Lower(str[..pos]))
    requires PolyMod(Expanded(Lower(str[..pos])) + v) == EncodingConstant(e)
    ensures Reads(str, limit, DecodeResult(e, Lower(str[..pos]), v[..|v| - 6]))
  {
    hide Checksum, Expanded, FromChar, EncodingConstant, PolyMod, Lower, Chars, AllPrintable, HasUpper, HasLower, Fits;
    var hrp, d, sum := Lower(str[..pos]), v[..|v| - 6], v[|v| - 6..];
    LowerParts(str, pos, v);
    LowerHrp(str, pos);
    assert Expanded(hrp) + v == (Expanded(hrp) + d) + sum;
    ConstantsFit(e);
    ChecksumUnique(Expanded(hrp) + d, sum, EncodingConstant(e));
    assert d + sum == v;
  }

  lemma LowerParts(str: string, pos: nat, v: seq<bv8>)
    requires pos < |str| && str[pos] == SEPARATOR && Valued(str[pos + 1..], v)
    ensures AreSymbols(v) && Lower(str) == Lower(str[..pos]) + [SEPARATOR] + Chars(v)
  {
    hide FromChar, LowerCase, ToChar;
    var t := str[pos + 1..];
    forall i | 0 <= i < |v| ensures v[i] < 32 && ToChar(v[i]) == LowerCase(t[i]) {
      ValueOfChar(t[i]);
    }
    assert Lower(t) == Chars(v);
    LowerSeparator();
    assert str == str[..pos] + [SEPARATOR] + t;
    assert Lower(str) == Lower(str[..pos]) + [SEPARATOR] + Lower(t);
  }

  lemma LowerSeparator()
    ensures LowerCase(SEPARATOR) == SEPARATOR
  {}

  lemma LowerHrp(str: string, pos: nat)
    requires 0 < pos <= |str| && AllPrintable(str)
    ensures Lower(str[..pos]) != "" && AllPrintable(Lower(str[..pos])) && !HasUpper(Lower(str[..pos]))
  {
    hide LowerCase, IsPrintable, IsUpper;
    forall k | 0 <= k < pos ensures IsPrintable(LowerCase(str[k])) && !IsUpper(LowerCase(str[k])) {
      LowerValue(str[k]);
    }
  }

  method Decode(str: string, limit: nat) returns (r: DecodeResult)
    ensures r.encoding != INVALID ==> Reads(str, limit, r)
    ensures r.encoding == INVALID ==> r == FAILED && forall q :: !Reads(str, limit, q)
  {
    hide Reads, PolyMod, Expanded, FromChar, LowerCase, EncodingConstant;
    forall q | Reads(str, limit, q) ensures Readable(str, limit, |q.hrp|, q) {
      IsReadable(str, limit, q);
    }
    var errors := CheckCharacters(str);
    if errors != [] {
      return FAILED;
    }
    var pos := RFind(str);
    if |str| > limit {
      return FAILED;
    }
    if pos == -1 || pos == 0 || pos + CHECKSUM_SIZE >= |str| {
      return FAILED;
    }
    var values: seq<bv8> := [];
    ghost var t := str[pos + 1..];
    var i := 0;
    while i < |str| - 1 - pos
      invariant 0 <= i <= |t| && Valued(t[..i], values)
    {
      var rev := FromChar(str[i + pos + 1]);
      assert str[i + pos + 1] == t[i];
      if rev == 255 {
        return FAILED;
      }
      values := values + [rev];
      i := i + 1;
    }
    assert t[..i] == t;
    var hrp := "";
    i := 0;
    while i < pos
      invariant 0 <= i <= pos && hrp == Lower(str[..pos])[..i]
    {
      hrp := hrp + [LowerCase(str[i])];
      i := i + 1;
    }
    assert hrp == Lower(str[..pos]);
    LowerBytes(str, pos);
    var e := VerifyChecksum(hrp, values);
    if e == INVALID {
      forall q ensures !Reads(str, limit, q) {
        if Reads(str, limit, q) {
          WouldVerify(str, limit, pos, values, q);
        }
      }
      return FAILED;
    }
    Accepted(str, limit, pos, values, e);
    r := DecodeResult(e, hrp, values[..|values| - CHECKSUM_SIZE]);
  }

  /** What holds of every string that can be read. */
  ghost predicate Readable(str: string, limit: nat, pos: nat, q: DecodeResult) {
    && 0 < pos && pos + 6 < |str| <= limit && AllPrintable(str) && !(HasLower(str) && HasUpper(str))
    && str[pos] == SEPARATOR && (forall k :: pos < k < |str| ==> str[k] != SEPARATOR && FromChar(str[k]) != 255)
  }

  lemma IsReadable(str: string, limit: nat, q: DecodeResult)
    requires Reads(str, limit, q)
    ensures Readable(str, limit, |q.hrp|, q)
  {
    hide FromChar, Expanded, PolyMod, Checksum;
    ReadsForm(str, limit, q);
    var t := str[|q.hrp| + 1..];
    assert forall k :: |q.hrp| < k < |str| ==> str[k] == t[k - |q.hrp| - 1];
  }

  lemma WouldVerify(str: string, limit: nat, pos: nat, v: seq<bv8>, q: DecodeResult)
    requires Reads(str, limit, q) && pos < |str| && str[pos] == SEPARATOR && Valued(str[pos + 1..], v)
    requires forall k :: pos < k < |str| ==> str[k] != SEPARATOR
    ensures IsBytes(Lower(str[..pos])) && q.encoding != INVALID
    ensures PolyMod(Expanded(Lower(str[..pos])) + v) == EncodingConstant(q.encoding)
  {
    hide FromChar, Expanded, PolyMod, Checksum, EncodingConstant, Lower;
    ReadsForm(str, limit, q);
    PayloadOf(str, limit, q);
    assert pos == |q.hrp|;
    assert v == q.data + Checksum(Expanded(q.hrp) + q.data, EncodingConstant(q.encoding));
  }

  lemma LowerBytes(str: string, pos: nat)
    requires pos <= |str| && AllPrintable(str)
    ensures IsBytes(Lower(str[..pos]))
  {
    forall k | 0 <= k < pos ensures LowerCase(str[k]) as int < 256 {
      LowerValue(str[k]);
    }
  }

  // ---------- Round trip ----------

  lemma LowerIsSame(s: string)
    requires !HasUpper(s)
    ensures Lower(s) == s
  {}

  lemma EncodedIsLower(e: Encoding, hrp: string, data: seq<bv8>)
    requires e != INVALID && IsBytes(hrp) && !HasUpper(hrp) && AreSymbols(data)
    ensures !HasUpper(Encoded(e, hrp, data)) && Lower(Encoded(e, hrp, data)) == Encoded(e, hrp, data)
  {
    hide Checksum, Expanded, ToChar, IsUpper, EncodingConstant, Fits, PolyMod;
    var sum := Checksum(Expanded(hrp) + data, EncodingConstant(e));
    ConstantsFit(e);
    ChecksumVerifies(Expanded(hrp) + data, EncodingConstant(e));
    var all := data + sum;
    forall i | 0 <= i < |all| ensures !IsUpper(Chars(all)[i]) {
      CharOfValue(all[i]);
    }
    SeparatorLower();
    LowerIsSame(Encoded(e, hrp, data));
  }

  lemma SeparatorLower()
    ensures !IsUpper(SEPARATOR)
  {}

  /** An encoded string can be read exactly when the human-readable part is there, printable, and all is short enough. */
  lemma EncodedReads(e: Encoding, hrp: string, data: seq<bv8>, limit: nat, q: DecodeResult)
    requires e != INVALID && IsBytes(hrp) && !HasUpper(hrp) && AreSymbols(data)
    ensures Reads(Encoded(e, hrp, data), limit, q)
       <==> hrp != "" && AllPrintable(hrp) && |Encoded(e, hrp, data)| <= limit && q == DecodeResult(e, hrp, data)
  {
    hide Expanded, EncodingConstant, Encoded;
    var code := Encoded(e, hrp, data);
    EncodedIsLower(e, hrp, data);
    if Reads(code, limit, q) {
      PayloadOf(code, limit, q);
      EncodedSame(e, hrp, data, q, limit);
    }
  }

  lemma EncodedSame(e: Encoding, hrp: string, data: seq<bv8>, q: DecodeResult, limit: nat)
    requires e != INVALID && IsBytes(hrp) && !HasUpper(hrp) && AreSymbols(data)
    requires Reads(Encoded(e, hrp, data), limit, q)
    ensures q == DecodeResult(e, hrp, data)
  {
    hide Checksum, Expanded, EncodingConstant, Fits, PolyMod, Chars, Reads;
    var code := Encoded(e, hrp, data);
    var sum := Checksum(Expanded(hrp) + data, EncodingConstant(e));
    ConstantsFit(e);
    ChecksumVerifies(Expanded(hrp) + data, EncodingConstant(e));
    EncodedIsLower(e, hrp, data);
    Layout(code, hrp, data + sum);
    LowerIsSame(hrp);
    WouldVerify(code, limit, |hrp|, data + sum, q);
    ReadsForm(code, limit, q);
    assert q.hrp == hrp;
    assert Expanded(hrp) + (data + sum) == (Expanded(hrp) + data) + sum;
    SameConstant(e, q.encoding);
    var qsum := Checksum(Expanded(hrp) + q.data, EncodingConstant(e));
    assert q.data + qsum == data + sum;
    assert q.data == (q.data + qsum)[..|data|] && data == (data + sum)[..|data|];
  }

  /** Decoding what was encoded gives the payload back. */
  method RoundTrip(e: Encoding, hrp: string, data: seq<bv8>, limit: nat) returns (r: DecodeResult)
    requires e != INVALID && IsBytes(hrp) && !HasUpper(hrp) && AreSymbols(data)
    ensures r == if hrp != "" && AllPrintable(hrp) && |hrp| + |data| + 7 <= limit then DecodeResult(e, hrp, data) else FAILED
  {
    hide Reads, Encoded;
    var str := Encode(e, hrp, data);
    r := Decode(str, limit);
    EncodedLength(e, hrp, data);
    EncodedReads(e, hrp, data, limit, r);
    EncodedReads(e, hrp, data, limit, DecodeResult(e, hrp, data));
  }

  lemma EncodedLength(e: Encoding, hrp: string, data: seq<bv8>)
    requires e != INVALID && IsBytes(hrp)
    ensures |Encoded(e, hrp, data)| == |hrp| + |data| + 7
  {}

  /**
   * Two strings of the same encoding that differ only within six neighbouring characters after the separator, none of
   * them a separator, stand for the same payload: such a corruption cannot produce another valid string.
   */
  lemma CorruptionDetected(str: string, t: string, limit: nat, r: DecodeResult, q: DecodeResult, from: nat, n: nat)
    requires Reads(str, limit, r) && Reads(t, limit, q) && r.encoding == q.encoding
    requires |str| == |t| && |r.hrp| < from && n <= 6 && from + n <= |str|
    requires forall k :: 0 <= k < from || from + n <= k < |str| ==> str[k] == t[k]
    requires forall k :: |r.hrp| < k < |t| ==> t[k] != SEPARATOR
    ensures r == q
  {
    hide Checksum, Expanded, EncodingConstant, PolyMod, FromChar, Reads, Fits, Lower, AllPrintable, AreSymbols;
    var pos := |r.hrp|;
    ReadsForm(str, limit, r);
    ReadsForm(t, limit, q);
    PayloadOf(str, limit, r);
    PayloadOf(t, limit, q);
    assert |q.hrp| == pos;
    assert str[..pos] == t[..pos] && r.hrp == q.hrp;
    var e := Expanded(r.hrp);
    var x := r.data + Checksum(e + r.data, EncodingConstant(r.encoding));
    var y := q.data + Checksum(e + q.data, EncodingConstant(q.encoding));
    SameValues(str, t, pos, from, n, x, y);
    var i := from - pos - 1;
    Windows(e, x, y, i, n);
    PartSymbols(x, i, i + n);
    PartSymbols(y, i, i + n);
    if x[i..i + n] != y[i..i + n] {
      Detects(e + x[..i], x[i..i + n], y[i..i + n], x[i + n..]);
    }
    assert x == y;
    assert r.data == x[..|r.data|] && q.data == y[..|r.data|];
  }

  /**
   * So does a change of up to six neighbouring characters of the human-readable part, as long as each stays in its row of
   * 32 characters, as all lower case letters do: the checksum covers it as well.
   */
  lemma HrpCorruptionDetected(str: string, t: string, limit: nat, r: DecodeResult, q: DecodeResult, from: nat, n: nat)
    requires Reads(str, limit, r) && Reads(t, limit, q) && r.encoding == q.encoding
    requires |str| == |t| && n <= 6 && from + n <= |r.hrp|
    requires forall k :: 0 <= k < from || from + n <= k < |str| ==> str[k] == t[k]
    requires |q.hrp| == |r.hrp| && forall k :: 0 <= k < |r.hrp| ==> r.hrp[k] as int / 32 == q.hrp[k] as int / 32
    ensures r == q
  {
    hide Checksum, EncodingConstant, PolyMod, FromChar, Reads, Fits, Lower, AllPrintable, AreSymbols, Expanded;
    var pos := |r.hrp|;
    ReadsForm(str, limit, r);
    ReadsForm(t, limit, q);
    PayloadOf(str, limit, r);
    PayloadOf(t, limit, q);
    var all := r.data + Checksum(Expanded(r.hrp) + r.data, EncodingConstant(r.encoding));
    var all' := q.data + Checksum(Expanded(q.hrp) + q.data, EncodingConstant(q.encoding));
    assert str[pos + 1..] == t[pos + 1..];
    assert all == all';
    assert r.data == all[..|r.data|] && q.data == all'[..|r.data|];
    HrpOutside(str, t, pos, from, n);
    if r.hrp != q.hrp {
      HrpDetects(r.hrp, q.hrp, from, n, all);
    }
  }

  lemma HrpOutside(str: string, t: string, pos: nat, from: nat, n: nat)
    requires |str| == |t| && pos <= |str| && from + n <= pos
    requires forall k :: 0 <= k < from || from + n <= k < |str| ==> str[k] == t[k]
    ensures forall k :: 0 <= k < from || from + n <= k < pos ==> Lower(str[..pos])[k] == Lower(t[..pos])[k]
  {
    hide LowerCase;
  }

  lemma HrpDetects(a: string, b: string, from: nat, n: nat, w: seq<bv8>)
    requires IsBytes(a) && IsBytes(b) && |a| == |b| && n <= 6 && from + n <= |a| && a != b
    requires forall k :: 0 <= k < from || from + n <= k < |a| ==> a[k] == b[k]
    requires forall k :: 0 <= k < |a| ==> a[k] as int / 32 == b[k] as int / 32
    ensures PolyMod(Expanded(a) + w) != PolyMod(Expanded(b) + w)
  {
    hide PolyMod, AreSymbols;
    var x, y := Lows(a), Lows(b);
    var high := seq(|a|, i requires 0 <= i < |a| => HighBits(a[i]));
    HrpParts(a, b);
    assert Expanded(a) == high + [0] + x && Expanded(b) == high + [0] + y;
    Windows(high + [0], x, y, from, n);
    PartSymbols(x, from, from + n);
    PartSymbols(y, from, from + n);
    Detects(high + [0] + x[..from], x[from..from + n], y[from..from + n], x[from + n..] + w);
    Rejoin(high + [0] + x[..from], x[from..from + n], x[from + n..], w);
    Rejoin(high + [0] + x[..from], y[from..from + n], x[from + n..], w);
  }

  ghost function Lows(a: string): (r: seq<bv8>)
    ensures |r| == |a| && forall i :: 0 <= i < |a| ==> r[i] == LowBits(a[i])
  {
    seq(|a|, i requires 0 <= i < |a| => LowBits(a[i]))
  }

  /** Strings that are the same but for the lower bits have the same upper parts and, if they differ, other lower parts. */
  lemma HrpParts(a: string, b: string)
    requires IsBytes(a) && IsBytes(b) && |a| == |b| && a != b
    requires forall k :: 0 <= k < |a| ==> a[k] as int / 32 == b[k] as int / 32
    ensures seq(|a|, i requires 0 <= i < |a| => HighBits(a[i])) == seq(|b|, i requires 0 <= i < |b| => HighBits(b[i]))
    ensures AreSymbols(Lows(a)) && AreSymbols(Lows(b)) && Lows(a) != Lows(b)
  {
    hide HighBits, LowBits;
    forall i | 0 <= i < |a|
      ensures HighBits(a[i]) == HighBits(b[i]) && LowBits(a[i]) < 32 && LowBits(b[i]) < 32
      ensures LowBits(a[i]) == LowBits(b[i]) ==> a[i] == b[i]
    {
      SameRow(a[i], b[i]);
    }
    var k :| 0 <= k < |a| && a[k] != b[k];
    assert Lows(a)[k] != Lows(b)[k];
  }

  lemma Rejoin(u: seq<bv8>, a: seq<bv8>, b: seq<bv8>, w: seq<bv8>)
    ensures u + a + (b + w) == u + a + b + w
  {
  }

  /** Two characters with the same upper bits are the same if their lower bits are. */
  lemma SameRow(c: char, d: char)
    requires c as int < 256 && d as int < 256 && c as int / 32 == d as int / 32
    ensures HighBits(c) == HighBits(d) && LowBits(c) < 32 && LowBits(d) < 32 && (LowBits(c) == LowBits(d) ==> c == d)
  {
    SameLow(c as int % 32, d as int % 32);
  }

  lemma SameLow(k: int, l: int)
    requires 0 <= k < 32 && 0 <= l < 32
    ensures k as bv8 < 32 && l as bv8 < 32 && (k as bv8 == l as bv8 ==> k == l)
  {
    LowInRange(k);
    LowInRange(l);
  }

  lemma LowInRange(k: int)
    requires 0 <= k < 32
    ensures k as bv8 < 32 && (k as bv8) as int == k
  {
  }

  /** Decoding refuses a string after such a change of one character before the separator, or takes it for the other encoding. */
  method ChangedHrpRefused(str: string, limit: nat, at: nat, c: char) returns (r: DecodeResult, q: DecodeResult)
    requires at < |str| && SEPARATOR in str[at + 1..]
    requires LowerCase(c) != LowerCase(str[at]) && LowerCase(c) as int / 32 == LowerCase(str[at]) as int / 32
    ensures r.encoding == INVALID || q.encoding == INVALID || r.encoding != q.encoding
  {
    hide Reads, LowerCase, FromChar, AllPrintable, Checksum, Expanded, EncodingConstant, PolyMod;
    var t := str[at := c];
    r := Decode(str, limit);
    q := Decode(t, limit);
    if r.encoding == q.encoding && r.encoding != INVALID {
      ReadsForm(str, limit, r);
      ReadsForm(t, limit, q);
      var k :| 0 <= k < |str[at + 1..]| && str[at + 1..][k] == SEPARATOR;
      assert str[at + 1 + k] == SEPARATOR && t[at + 1 + k] == SEPARATOR;
      assert at < |r.hrp| == |q.hrp|;
      assert r.hrp[at] == LowerCase(str[at]) && q.hrp[at] == LowerCase(t[at]);
      HrpCorruptionDetected(str, t, limit, r, q, at, 1);
      assert false;
    }
  }

  /** The answers that are given in BIP 173 and BIP 350. */
  lemma KnownAnswers()
    ensures Encoded(BECH32, "a", []) == "a12uel5l" && Encoded(BECH32M, "a", []) == "a1lqfn3a"
  {
    hide PolyMod;
    KnownRemainder();
    assert Expanded("a") + [] == [3, 0, 1];
  }

  lemma PartSymbols(x: seq<bv8>, i: nat, j: nat)
    requires AreSymbols(x) && i <= j <= |x|
    ensures AreSymbols(x[i..j])
  {}

  lemma SameValues(str: string, t: string, pos: nat, from: nat, n: nat, x: seq<bv8>, y: seq<bv8>)
    requires |str| == |t| && pos < from && from + n <= |str|
    requires forall k :: 0 <= k < from || from + n <= k < |str| ==> str[k] == t[k]
    requires Valued(str[pos + 1..], x) && Valued(t[pos + 1..], y)
    ensures |x| == |y| && x[..from - pos - 1] == y[..from - pos - 1] && x[from - pos - 1 + n..] == y[from - pos - 1 + n..]
  {
    hide FromChar;
    var u, v := str[pos + 1..], t[pos + 1..];
    assert forall k :: 0 <= k < from - pos - 1 || from - pos - 1 + n <= k < |u| ==> u[k] == v[k];
  }

  lemma Windows(e: seq<bv8>, x: seq<bv8>, y: seq<bv8>, i: nat, n: nat)
    requires |x| == |y| && i + n <= |x| && x[..i] == y[..i] && x[i + n..] == y[i + n..]
    ensures e + x == e + x[..i] + x[i..i + n] + x[i + n..] && e + y == e + x[..i] + y[i..i + n] + x[i + n..]
    ensures x[i..i + n] == y[i..i + n] ==> x == y
  {
    InThree(x, i, i + n);
    InThree(y, i, i + n);
    JoinThree(e, x[..i], x[i..i + n], x[i + n..]);
    JoinThree(e, y[..i], y[i..i + n], y[i + n..]);
  }

  lemma InThree<T>(x: seq<T>, i: nat, j: nat)
    requires i <= j <= |x|
    ensures x == x[..i] + x[i..j] + x[j..]
  {}

  lemma JoinThree<T>(e: seq<T>, a: seq<T>, b: seq<T>, c: seq<T>)
    ensures e + (a + b + c) == e + a + b + c
  {}
}
