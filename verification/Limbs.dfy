/** Little-endian sequences of 32-bit limbs and the number they stand for. */
module Limbs {
  import opened Powers

  const BASE: int := 0x1_0000_0000

  type Limb = x: int | 0 <= x < BASE

  /** The weight of limb k. */
  function Radix(k: nat): (r: nat)
    ensures r > 0
  {
    if k == 0 then 1 else BASE * Radix(k - 1)
  }

  /** The number a sequence of limbs stands for. */
  function Val(s: seq<Limb>): nat {
    if s == [] then 0 else Val(s[..|s| - 1]) + s[|s| - 1] * Radix(|s| - 1)
  }

  lemma {:induction false} RadixIsPow(k: nat)
    ensures Radix(k) == Pow(2, 32 * k)
  {
    if k > 0 {
      RadixIsPow(k - 1);
      PowSmall();
      PowAdd(2, 32, 32 * (k - 1));
    }
  }

  lemma RadixStep(k: nat)
    ensures Radix(0) == 1 && Radix(k + 1) == BASE * Radix(k)
  {}

  lemma RadixAdd(m: nat, n: nat)
    ensures Radix(m + n) == Radix(m) * Radix(n)
  {
    RadixIsPow(m);
    RadixIsPow(n);
    RadixIsPow(m + n);
    PowAdd(2, 32 * m, 32 * n);
  }

  lemma {:induction false} ValBound(s: seq<Limb>)
    ensures Val(s) < Radix(|s|)
  {
    hide Radix;
    RadixStep(if s == [] then 0 else |s| - 1);
    if s != [] {
      ValBound(s[..|s| - 1]);
      Below(Val(s[..|s| - 1]), s[|s| - 1], Radix(|s| - 1), BASE);
    }
  }

  /** One more limb. */
  lemma ValPrefix(s: seq<Limb>, i: nat)
    requires i < |s|
    ensures Val(s[..i + 1]) == Val(s[..i]) + s[i] * Radix(i)
  {
    assert s[..i + 1][..i] == s[..i];
  }

  lemma {:induction false} ValConcat(s: seq<Limb>, t: seq<Limb>)
    ensures Val(s + t) == Val(s) + Val(t) * Radix(|s|)
    decreases |t|
  {
    if t == [] {
      assert s + t == s;
    } else {
      var n := |t| - 1;
      assert (s + t)[..|s + t| - 1] == s + t[..n];
      ValConcat(s, t[..n]);
      RadixAdd(|s|, n);
      Spread(Val(t[..n]), t[n], Radix(n), Radix(|s|));
    }
  }

  /** Changing one limb. */
  lemma {:induction false} ValUpdate(s: seq<Limb>, k: nat, x: Limb)
    requires k < |s|
    ensures Val(s[k := x]) == Val(s) + (x - s[k]) * Radix(k)
    decreases |s|
  {
    var n := |s| - 1;
    if k == n {
      assert s[k := x][..n] == s[..n];
      assert x * Radix(k) == s[k] * Radix(k) + (x - s[k]) * Radix(k);
    } else {
      assert s[k := x][..n] == s[..n][k := x];
      ValUpdate(s[..n], k, x);
    }
  }

  /** A number below the radix is its own residue. */
  lemma Residue(s: seq<Limb>, q: int, x: int)
    requires Val(s) + q * Radix(|s|) == x
    ensures Val(s) == x % Radix(|s|)
  {
    ValBound(s);
    DivUnique(x, Radix(|s|), q, Val(s));
  }

  lemma {:induction false} ValZero(s: seq<Limb>)
    requires forall i :: 0 <= i < |s| ==> s[i] == 0
    ensures Val(s) == 0
  {
    if s != [] {
      ValZero(s[..|s| - 1]);
    }
  }

  /** The limbs from i up decide the order of two numbers that agree above them. */
  lemma ValOrder(s: seq<Limb>, t: seq<Limb>, i: nat)
    requires |s| == |t| && i < |s| && s[i] < t[i] && forall j :: i < j < |s| ==> s[j] == t[j]
    ensures Val(s) < Val(t)
  {
    hide Val, Radix;
    assert s[i + 1..] == t[i + 1..];
    ValBound(s[..i]);
    ValPrefix(s, i);
    ValPrefix(t, i);
    Below(Val(s[..i]), s[i], Radix(i), t[i]);
    ValConcat(s[..i + 1], s[i + 1..]);
    ValConcat(t[..i + 1], t[i + 1..]);
    assert s == s[..i + 1] + s[i + 1..] && t == t[..i + 1] + t[i + 1..];
  }
}
