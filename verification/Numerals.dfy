/** Big-endian numerals in any base, with leading zeros kept as in base-58 text. */
module Numerals {
  import opened Powers

  predicate AreDigits(s: seq<nat>, b: nat) {
    forall i :: 0 <= i < |s| ==> s[i] < b
  }

  /** The number a numeral stands for. */
  function Value(s: seq<nat>, b: nat): nat {
    if s == [] then 0 else Value(s[..|s| - 1], b) * b + s[|s| - 1]
  }

  function Zeros(n: nat): (r: seq<nat>)
    ensures |r| == n && forall i :: 0 <= i < n ==> r[i] == 0
  {
    seq(n, _ => 0)
  }

  function LeadingZeros(s: seq<nat>): (n: nat)
    ensures n <= |s| && s[..n] == Zeros(n) && (n < |s| ==> s[n] != 0)
  {
    if s == [] || s[0] != 0 then 0
    else
      var n := 1 + LeadingZeros(s[1..]);
      assert s[..n] == [0] + s[1..][..n - 1];
      n
  }

  /** The numeral of a number, without leading zeros. */
  function ToDigits(v: nat, b: nat): (s: seq<nat>)
    requires b >= 2
    ensures AreDigits(s, b) && (s != [] ==> s[0] != 0)
    decreases v
  {
    if v == 0 then [] else ToDigits(v / b, b) + [v % b]
  }

  /** The same number in another base, behind as many leading zeros. */
  function Convert(s: seq<nat>, b: nat, c: nat): (r: seq<nat>)
    requires c >= 2
    ensures AreDigits(r, c)
  {
    Zeros(LeadingZeros(s)) + ToDigits(Value(s, b), c)
  }

  lemma ValueAppend(s: seq<nat>, x: nat, b: nat)
    ensures Value(s + [x], b) == Value(s, b) * b + x
  {
    assert (s + [x])[..|s|] == s;
  }

  lemma {:induction false} ValueConcat(s: seq<nat>, t: seq<nat>, b: nat)
    ensures Value(s + t, b) == Value(s, b) * Pow(b, |t|) + Value(t, b)
    decreases |t|
  {
    if t == [] {
      assert s + t == s;
    } else {
      var n := |t| - 1;
      assert (s + t)[..|s + t| - 1] == s + t[..n];
      ValueConcat(s, t[..n], b);
      Widen(Value(s, b), Pow(b, n), Value(t[..n], b), b);
    }
  }

  lemma Widen(v: int, p: int, w: int, b: int)
    ensures (v * p + w) * b == v * (b * p) + w * b
  {}

  lemma {:induction false} ValueOfZeros(s: seq<nat>, b: nat)
    requires forall i :: 0 <= i < |s| ==> s[i] == 0
    ensures Value(s, b) == 0
  {
    if s != [] {
      ValueOfZeros(s[..|s| - 1], b);
    }
  }

  lemma {:induction false} ValueBound(s: seq<nat>, b: nat)
    requires AreDigits(s, b)
    ensures Value(s, b) < Pow(b, |s|)
  {
    if s != [] {
      var n := |s| - 1;
      ValueBound(s[..n], b);
      Below(s[n], Value(s[..n], b), b, Pow(b, n));
    }
  }

  lemma DigitsStep(v: nat, b: nat)
    requires b >= 2
    ensures ToDigits(v, b) == if v == 0 then [] else ToDigits(v / b, b) + [v % b]
  {}

  lemma ValueOfNothing(b: nat)
    ensures Value([], b) == 0
  {}

  lemma {:induction false} ValueOfDigits(v: nat, b: nat)
    requires b >= 2
    ensures Value(ToDigits(v, b), b) == v
    decreases v
  {
    hide Value, ToDigits;
    DigitsStep(v, b);
    if v == 0 {
      ValueOfNothing(b);
    } else {
      DivSmaller(v, b);
      ValueOfDigits(v / b, b);
      ValueAppend(ToDigits(v / b, b), v % b, b);
      DivSplit(v, b);
    }
  }

  /** A numeral without leading zeros is determined by its value. */
  lemma {:induction false} DigitsOfValue(s: seq<nat>, b: nat)
    requires b >= 2 && AreDigits(s, b) && (s != [] ==> s[0] != 0)
    ensures ToDigits(Value(s, b), b) == s
    decreases |s|
  {
    if s != [] {
      var n := |s| - 1;
      DigitsOfValue(s[..n], b);
      DivUnique(Value(s, b), b, Value(s[..n], b), s[n]);
      assert n > 0 ==> Value(s[..n], b) > 0;
      assert Value(s, b) > 0;
      assert s == s[..n] + [s[n]];
    }
  }

  lemma {:induction false} LeadingZerosOf(n: nat, t: seq<nat>)
    requires t != [] ==> t[0] != 0
    ensures LeadingZeros(Zeros(n) + t) == n
  {
    var s := Zeros(n) + t;
    if n == 0 {
      assert s == t;
    } else {
      assert s[1..] == Zeros(n - 1) + t;
      LeadingZerosOf(n - 1, t);
    }
  }

  lemma ValueOfConverted(n: nat, t: seq<nat>, b: nat)
    ensures Value(Zeros(n) + t, b) == Value(t, b)
  {
    ValueConcat(Zeros(n), t, b);
    ValueOfZeros(Zeros(n), b);
  }

  /** Converting to another base and back gives the numeral again, leading zeros included. */
  lemma ConvertBack(s: seq<nat>, b: nat, c: nat)
    requires b >= 2 && c >= 2 && AreDigits(s, b)
    ensures Convert(Convert(s, b, c), c, b) == s
  {
    var n := LeadingZeros(s);
    var v := Value(s, b);
    var t := s[n..];
    assert s == Zeros(n) + t;
    ValueOfConverted(n, t, b);
    DigitsOfValue(t, b);
    LeadingZerosOf(n, ToDigits(v, c));
    ValueOfConverted(n, ToDigits(v, c), c);
    ValueOfDigits(v, c);
  }
}
