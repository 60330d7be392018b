/** The heights that skip pointers lead to, and how many steps a descent by them takes. */
module SkipHeights {
  import opened Powers

  /** Turns the lowest 1 bit into a 0. */
  function InvertLowestOne(n: nat): nat {
    if n == 0 then 0 else And(n, n - 1)
  }

  /** Clearing the lowest 1 bit of an odd number subtracts one; of an even one, it works on the half. */
  lemma InvertLowestOneIs(n: nat)
    ensures n % 2 == 1 ==> InvertLowestOne(n) == n - 1
    ensures n % 2 == 0 ==> InvertLowestOne(n) == 2 * InvertLowestOne(n / 2)
    ensures n > 0 ==> InvertLowestOne(n) < n
  {
    if n > 0 && n % 2 == 1 {
      AndSelf(n / 2);
      assert (n - 1) / 2 == n / 2;
    } else if n > 0 {
      assert (n - 1) / 2 == n / 2 - 1;
    }
  }

  /** The height to which the skip pointer of a block jumps back. */
  function SkipHeight(height: nat): nat {
    if height < 2 then 0
    else if height % 2 == 1 then InvertLowestOne(InvertLowestOne(height - 1)) + 1
    else InvertLowestOne(height)
  }

  lemma SkipIsBelow(height: nat)
    requires height > 0
    ensures SkipHeight(height) < height
  {
    InvertLowestOneIs(height);
    InvertLowestOneIs(height - 1);
    InvertLowestOneIs(InvertLowestOne(height - 1));
  }

  // ---------- The descent ----------

  /** Whether the descent from w to t follows the skip pointer: only if pprev->pskip is not better than pskip->pprev. */
  predicate FollowsSkip(w: nat, t: nat)
    requires w > 0
  {
    var skip, skipPrev := SkipHeight(w), SkipHeight(w - 1);
    skip == t || (skip > t && !(skipPrev < skip - 2 && skipPrev >= t))
  }

  /** The next height on the way from w down to t. */
  function NextHeight(w: nat, t: nat): (h: nat)
    requires w > t
    ensures t <= h < w
  {
    SkipIsBelow(w);
    if FollowsSkip(w, t) then SkipHeight(w) else w - 1
  }

  /** The number of pointers followed on the way from w down to t. */
  function Steps(w: nat, t: nat): nat
    decreases w
  {
    if w <= t then 0 else 1 + Steps(NextHeight(w, t), t)
  }

  /** The number of bits that are set. */
  function Ones(n: nat): nat {
    if n == 0 then 0 else n % 2 + Ones(n / 2)
  }

  lemma {:induction false} OnesCleared(n: nat)
    requires n > 0
    ensures Ones(InvertLowestOne(n)) == Ones(n) - 1
    ensures InvertLowestOne(n) == 0 <==> Ones(n) == 1
  {
    hide InvertLowestOne, Ones;
    InvertLowestOneIs(n);
    HalfOnes(n);
    HalfOnes(InvertLowestOne(n));
    if n % 2 == 0 {
      OnesCleared(n / 2);
    } else {
      SomeOnes(n / 2);
    }
  }

  lemma {:induction false} SomeOnes(n: nat)
    ensures Ones(n) == 0 <==> n == 0
  {
    if n > 0 {
      SomeOnes(n / 2);
    }
  }

  lemma {:induction false} OnesBound(n: nat, k: nat)
    requires n < Pow(2, k)
    ensures Ones(n) <= k && (n % 2 == 0 && k > 0 ==> Ones(n) < k)
  {
    if k > 0 && n > 0 {
      OnesBound(n / 2, k - 1);
    }
  }

  lemma NoBits(k: nat, r: nat)
    requires 0 < r < Pow(2, k)
    ensures k > 0
  {}

  /** Clearing the lowest 1 bit of the part of a number below bit k leaves the part above alone. */
  lemma {:induction false} ClearsBelow(a: nat, k: nat, r: nat)
    requires a % Pow(2, k) == 0 && 0 < r < Pow(2, k)
    ensures InvertLowestOne(a + r) == a + InvertLowestOne(r)
  {
    hide Pow, InvertLowestOne;
    NoBits(k, r);
    var q := a / Pow(2, k);
    assert a == q * Pow(2, k) by { DivSplit(a, Pow(2, k)); }
    PowNext(2, k - 1);
    MulSwap(q, 2, Pow(2, k - 1));
    var h := q * Pow(2, k - 1);
    assert a == 2 * h;
    InvertLowestOneIs(a + r);
    InvertLowestOneIs(r);
    if r % 2 == 0 {
      DivUnique(h, Pow(2, k - 1), q, 0);
      ClearsBelow(h, k - 1, r / 2);
    }
  }

  /** The part of the chain from a, a multiple of 2^(j+1), with its middle at a + 2^j; t lies below the middle. */
  ghost predicate LowHalf(a: nat, j: nat, t: nat) {
    j > 0 && a % Pow(2, j + 1) == 0 && a <= t < a + Pow(2, j)
  }

  /** Multiples of 2^(j+1), and the numbers between them. */
  lemma Multiples(a: nat, p: nat)
    requires p % 2 == 0 && p > 0 && a % (2 * p) == 0
    ensures a % 2 == 0 && (a + p) % p == 0
  {
    var q := a / (2 * p);
    DivSplit(a, 2 * p);
    MulSwap(q, 2, p);
    Odds(q, p);
    DivUnique(a + p, p, 2 * q + 1, 0);
  }

  lemma Odds(q: int, p: int)
    ensures 2 * (q * p) + p == (2 * q + 1) * p
  {}

  /** Clearing bits at and above the middle. */
  lemma ClearsMiddle(a: nat, j: nat, t: nat)
    requires LowHalf(a, j, t)
    ensures a <= t < a + Pow(2, j) && a % 2 == 0 && Pow(2, j) % 2 == 0 && Pow(2, j) >= 2
    ensures InvertLowestOne(a + Pow(2, j)) == a
    ensures if a > 0 then InvertLowestOne(a) + 1 < a else InvertLowestOne(a) == 0
  {
    hide Pow, InvertLowestOne;
    PowNext(2, j);
    PowNext(2, j - 1);
    Multiples(a, Pow(2, j));
    OnlyBit(j);
    ClearsBelow(a, j + 1, Pow(2, j));
    InvertLowestOneIs(a);
    ClearsNothing();
  }

  lemma ClearsNothing()
    ensures InvertLowestOne(0) == 0
  {}

  lemma {:induction false} OnlyBit(j: nat)
    ensures InvertLowestOne(Pow(2, j)) == 0
  {
    InvertLowestOneIs(Pow(2, j));
    if j > 0 {
      PowNext(2, j - 1);
      OnlyBit(j - 1);
    }
  }

  lemma ClearsUpper(a: nat, j: nat, t: nat, e: nat)
    requires LowHalf(a, j, t) && 0 < e < Pow(2, j)
    ensures InvertLowestOne(a + Pow(2, j) + e) == a + Pow(2, j) + InvertLowestOne(e)
  {
    hide InvertLowestOne, Pow;
    PowNext(2, j);
    PowNext(2, j - 1);
    Multiples(a, Pow(2, j));
    ClearsBelow(a + Pow(2, j), j, e);
  }

  /** An even number stays even and gets smaller. */
  lemma ClearedEven(e: nat)
    requires e % 2 == 0 && e > 0
    ensures InvertLowestOne(e) % 2 == 0 && InvertLowestOne(e) < e
  {
    InvertLowestOneIs(e);
  }

  /** From an odd height the skip pointer is followed unless it leads too far. */
  lemma OddHeight(x: nat, t: nat)
    requires x % 2 == 0 && x > 0
    ensures SkipHeight(x + 1) == InvertLowestOne(InvertLowestOne(x)) + 1
    ensures FollowsSkip(x + 1, t) <==> SkipHeight(x + 1) >= t
  {
    ClearedEven(x);
    if InvertLowestOne(x) > 0 {
      ClearedEven(InvertLowestOne(x));
    }
  }

  /** From an even height it is not followed either if two steps by way of the odd height below lead further. */
  lemma EvenHeight(x: nat)
    requires x % 2 == 0 && x >= 4
    ensures SkipHeight(x) == InvertLowestOne(x)
    ensures SkipHeight(x - 1) == InvertLowestOne(InvertLowestOne(x - 2)) + 1
  {
  }

  lemma StepIs(w: nat, t: nat)
    requires w > t
    ensures Steps(w, t) == 1 + Steps(NextHeight(w, t), t)
  {}

  lemma Follows(w: nat, t: nat)
    requires w > t && FollowsSkip(w, t)
    ensures SkipHeight(w) >= t && Steps(w, t) == 1 + Steps(SkipHeight(w), t)
  {}

  lemma WalksOn(w: nat, t: nat)
    requires w > t && !FollowsSkip(w, t)
    ensures Steps(w, t) == 1 + Steps(w - 1, t)
  {}

  lemma LastStep(t: nat, w: nat)
    requires t <= w <= t + 1
    ensures Steps(w, t) <= 1
  {
  }

  // ---------- An upper bound ----------

  /** Where the skip pointer of the block before an even height beyond the middle leads. */
  lemma SkipBefore(a: nat, j: nat, e: nat, t: nat)
    requires LowHalf(a, j, t) && 0 < e < Pow(2, j) && e % 2 == 0
    ensures var f := if e == 2 then 0 else InvertLowestOne(e - 2);
            var s := SkipHeight(a + Pow(2, j) + e - 1);
            if f > 0 then s == a + Pow(2, j) + InvertLowestOne(f) + 1
            else if e == 2 then s == InvertLowestOne(a) + 1 else s == a + 1
    ensures SkipHeight(a + Pow(2, j) + e) == a + Pow(2, j) + InvertLowestOne(e)
  {
    hide LowHalf, Pow, InvertLowestOne, SkipHeight;
    var mid := a + Pow(2, j);
    ClearsMiddle(a, j, t);
    ClearsUpper(a, j, t, e);
    EvenHeight(mid + e);
    if e > 2 {
      assert mid + (e - 2) == mid + e - 2;
      ClearsUpper(a, j, t, e - 2);
      TwoBitsLess(a, j, e - 2, t);
    } else {
      assert mid + e - 2 == mid;
    }
  }

  /** With one bit set beyond the middle, the middle is next. */
  lemma OneBitLeft(a: nat, j: nat, e: nat, t: nat)
    requires LowHalf(a, j, t) && 0 < e < Pow(2, j) && e % 2 == 0 && InvertLowestOne(e) == 0 && t > a + 1
    ensures Steps(a + Pow(2, j) + e, t) == 1 + Steps(a + Pow(2, j), t)
  {
    hide LowHalf, Pow, InvertLowestOne, SkipHeight, Steps;
    ClearsMiddle(a, j, t);
    SkipBefore(a, j, e, t);
    Follows(a + Pow(2, j) + e, t);
  }

  /** From an odd height beyond the middle, two bits go with every step, and two more steps lead to the middle. */
  lemma {:induction false} OddWalk(a: nat, j: nat, e: nat, t: nat)
    requires LowHalf(a, j, t) && e < Pow(2, j) && e % 2 == 0
    ensures Steps(a + Pow(2, j) + e + 1, t) <= Ones(e) / 2 + 2 + Steps(a + Pow(2, j), t)
    decreases e
  {
    hide LowHalf, Pow, InvertLowestOne, SkipHeight, Ones, Steps, FollowsSkip;
    var mid := a + Pow(2, j);
    ClearsMiddle(a, j, t);
    OddHeight(mid + e, t);
    if e > 0 {
      ClearsUpper(a, j, t, e);
      ClearedEven(e);
      OnesCleared(e);
      TwoBitsLess(a, j, e, t);
      if InvertLowestOne(e) == 0 && t > a + 1 {
        OneBitLeft(a, j, e, t);
      }
    }
    if !FollowsSkip(mid + e + 1, t) {
      WalksOn(mid + e + 1, t);
    } else {
      Follows(mid + e + 1, t);
      if e == 0 || InvertLowestOne(e) == 0 {
        LastStep(t, SkipHeight(mid + e + 1));
      } else {
        OddWalk(a, j, InvertLowestOne(InvertLowestOne(e)), t);
      }
    }
  }

  /** Clearing the second bit. */
  lemma TwoBitsLess(a: nat, j: nat, e: nat, t: nat)
    requires LowHalf(a, j, t) && 0 < e < Pow(2, j) && e % 2 == 0
    ensures var f := InvertLowestOne(e);
            f > 0 ==>
              && f % 2 == 0 && InvertLowestOne(f) % 2 == 0 && InvertLowestOne(f) < f < e
              && Ones(InvertLowestOne(f)) == Ones(e) - 2
              && InvertLowestOne(a + Pow(2, j) + f) == a + Pow(2, j) + InvertLowestOne(f)
  {
    hide LowHalf, Pow, InvertLowestOne, Ones;
    ClearedEven(e);
    OnesCleared(e);
    var f := InvertLowestOne(e);
    if f > 0 {
      ClearedEven(f);
      OnesCleared(f);
      ClearsUpper(a, j, t, f);
    }
  }

  /** From an even height beyond the middle, at least one bit goes with every step. */
  lemma {:induction false} EvenWalk(a: nat, j: nat, e: nat, t: nat)
    requires LowHalf(a, j, t) && e < Pow(2, j) && e % 2 == 0
    ensures Steps(a + Pow(2, j) + e, t) <= Ones(e) + 2 + Steps(a + Pow(2, j), t)
    decreases e
  {
    hide LowHalf, Pow, InvertLowestOne, SkipHeight, Ones, Steps;
    if e > 0 {
      var w := a + Pow(2, j) + e;
      ClearsMiddle(a, j, t);
      SkipBefore(a, j, e, t);
      ClearedEven(e);
      OnesCleared(e);
      if FollowsSkip(w, t) {
        Follows(w, t);
        EvenWalk(a, j, InvertLowestOne(e), t);
      } else {
        WalksOn(w, t);
        OddWalk(a, j, e - 2, t);
        BetterBelow(e);
      }
    }
  }

  /** If the odd height below leads further, it has no more bits set. */
  lemma BetterBelow(e: nat)
    requires e > 0 && e % 2 == 0
    requires var f := if e == 2 then 0 else InvertLowestOne(e - 2);
             f > 0 ==> InvertLowestOne(f) + 1 < InvertLowestOne(e) - 2
    ensures Ones(e - 2) / 2 + 1 <= Ones(e)
  {
    hide InvertLowestOne, Ones;
    SomeOnes(e);
    Eighths(e);
    var m := e / 8;
    LowBits(m);
    assert e % 8 != 0;
    if e % 8 == 2 {
      assert e == 8 * m + 2;
    } else if e % 8 == 4 {
      assert e == 8 * m + 4;
    } else {
      assert e == 8 * m + 6;
    }
  }

  /** Below a multiple of eight, two clearings only reach the next multiple. */
  lemma Eighths(e: nat)
    requires e > 0
    ensures e % 8 == 0 ==>
              InvertLowestOne(e - 2) == e - 4 && InvertLowestOne(e - 4) == e - 8 && InvertLowestOne(e) <= e - 8
  {
    hide InvertLowestOne;
    if e % 8 == 0 {
      var m := e / 8;
      InvertLowestOneIs(e - 2);
      InvertLowestOneIs(e / 2 - 1);
      InvertLowestOneIs(e - 4);
      InvertLowestOneIs(e / 2 - 2);
      InvertLowestOneIs(e / 4 - 1);
      InvertLowestOneIs(e);
      InvertLowestOneIs(e / 2);
      InvertLowestOneIs(e / 4);
      InvertLowestOneIs(m);
    }
  }

  lemma HalfOnes(n: nat)
    ensures Ones(n) == n % 2 + Ones(n / 2)
  {}

  lemma LowBits(m: nat)
    ensures Ones(8 * m) == Ones(m) && Ones(8 * m + 2) == Ones(8 * m + 4) == Ones(m) + 1 && Ones(8 * m + 6) == Ones(m) + 2
  {
    hide Ones;
    HalfOnes(8 * m);
    HalfOnes(8 * m + 2);
    HalfOnes(8 * m + 4);
    HalfOnes(8 * m + 6);
    HalfOnes(4 * m);
    HalfOnes(4 * m + 1);
    HalfOnes(4 * m + 2);
    HalfOnes(4 * m + 3);
    HalfOnes(2 * m);
    HalfOnes(2 * m + 1);
  }

  /** What the descent takes from the last block of a part of 2^k blocks. */
  function TopBound(k: nat): nat {
    if k <= 1 then k else TopBound(k - 1) + k / 2 + 2
  }

  /** From the middle the descent starts again below, at the last block of the lower half. */
  lemma FromMiddle(a: nat, j: nat, t: nat)
    requires LowHalf(a, j, t)
    ensures Steps(a + Pow(2, j), t) <= 1 + Steps(a + Pow(2, j) - 1, t)
  {
    hide LowHalf, Pow, InvertLowestOne, Steps;
    var mid := a + Pow(2, j);
    ClearsMiddle(a, j, t);
    if FollowsSkip(mid, t) {
      Follows(mid, t);
      assert SkipHeight(mid) == a == t;
      NoStep(t);
    } else {
      WalksOn(mid, t);
    }
  }

  lemma {:induction false} TopWalk(a: nat, k: nat, t: nat)
    requires a % Pow(2, k) == 0 && a <= t < a + Pow(2, k)
    ensures Steps(a + Pow(2, k) - 1, t) <= TopBound(k)
    decreases k
  {
    hide Pow, InvertLowestOne, SkipHeight, Ones, Steps, TopBound, LowHalf;
    PowSmallest();
    TopBoundStep(k);
    if k <= 1 {
      LastStep(t, a + Pow(2, k) - 1);
      if k == 0 {
        NoStep(t);
      }
    } else {
      var p := Pow(2, k - 1);
      Halves(a, k);
      if t >= a + p {
        TopWalk(a + p, k - 1, t);
      } else {
        IsLowHalf(a, k - 1, t);
        OddWalk(a, k - 1, p - 2, t);
        OnesBound(p - 2, k - 1);
        FromMiddle(a, k - 1, t);
        TopWalk(a, k - 1, t);
      }
    }
  }

  lemma TopBoundStep(k: nat)
    ensures TopBound(k) == if k <= 1 then k else TopBound(k - 1) + k / 2 + 2
  {}

  lemma IsLowHalf(a: nat, j: nat, t: nat)
    requires j > 0 && a % Pow(2, j + 1) == 0 && a <= t < a + Pow(2, j)
    ensures LowHalf(a, j, t)
  {}

  /** The two halves of a part of 2^k blocks. */
  lemma Halves(a: nat, k: nat)
    requires k > 1 && a % Pow(2, k) == 0
    ensures Pow(2, k) == 2 * Pow(2, k - 1) && Pow(2, k - 1) % 2 == 0 && Pow(2, k - 1) >= 2
    ensures a % Pow(2, k - 1) == 0 && (a + Pow(2, k - 1)) % Pow(2, k - 1) == 0
  {
    hide Pow;
    PowNext(2, k - 1);
    PowNext(2, k - 2);
    Multiples(a, Pow(2, k - 1));
    LowMultiple(a, Pow(2, k - 1));
  }

  lemma NoStep(t: nat)
    ensures Steps(t, t) == 0
  {}

  lemma PowSmallest()
    ensures Pow(2, 0) == 1 && Pow(2, 1) == 2
  {}

  lemma LowMultiple(a: nat, p: nat)
    requires p > 0 && a % (2 * p) == 0
    ensures a % p == 0
  {
    var q := a / (2 * p);
    DivSplit(a, 2 * p);
    MulSwap(q, 2, p);
    assert 2 * (q * p) == (2 * q) * p;
    DivUnique(a, p, 2 * q, 0);
  }

  /** What the descent takes from any block of a part of 2^k blocks. */
  function AnyBound(k: nat): nat {
    if k == 0 then 0 else TopBound(k - 1) + k + 1
  }

  lemma {:induction false} AnyWalk(a: nat, k: nat, w: nat, t: nat)
    requires a % Pow(2, k) == 0 && a <= t <= w < a + Pow(2, k)
    ensures Steps(w, t) <= AnyBound(k)
    decreases k
  {
    hide Pow, InvertLowestOne, SkipHeight, Ones, Steps, TopBound, LowHalf;
    PowSmallest();
    if k > 1 {
      TopBoundStep(k - 1);
      TopBoundStep(k - 2);
    }
    if k == 0 {
      NoStep(t);
    } else if k == 1 {
      LastStep(t, w);
    } else {
      var p := Pow(2, k - 1);
      Halves(a, k);
      if t >= a + p {
        AnyWalk(a + p, k - 1, w, t);
      } else if w < a + p {
        AnyWalk(a, k - 1, w, t);
      } else {
        IsLowHalf(a, k - 1, t);
        FromMiddle(a, k - 1, t);
        TopWalk(a, k - 1, t);
        BeyondMiddle(a, k - 1, w - (a + p), t);
      }
    }
  }

  lemma BeyondMiddle(a: nat, j: nat, e: nat, t: nat)
    requires LowHalf(a, j, t) && e < Pow(2, j)
    ensures Steps(a + Pow(2, j) + e, t) <= j + 1 + Steps(a + Pow(2, j), t)
  {
    hide Pow, InvertLowestOne, SkipHeight, Ones, Steps;
    if e % 2 == 0 {
      EvenWalk(a, j, e, t);
      OnesBound(e, j);
    } else {
      OddWalk(a, j, e - 1, t);
      OnesBound(e - 1, j);
    }
  }

  /** A quarter of a square, rounded down. */
  lemma QuarterSquare(k: nat)
    ensures k * k / 4 == (k / 2) * (k - k / 2)
  {
    var m := k / 2;
    if k % 2 == 0 {
      assert k * k == 4 * (m * m);
    } else {
      assert k == 2 * m + 1;
      assert k * k == 4 * (m * (m + 1)) + 1;
    }
  }

  lemma QuarterStep(k: nat)
    requires k > 0
    ensures k * k / 4 == (k - 1) * (k - 1) / 4 + k / 2
  {
    QuarterSquare(k);
    QuarterSquare(k - 1);
    var m := k / 2;
    if k % 2 == 0 {
      assert (m - 1) * m + m == m * m;
    } else {
      assert m * m + m == m * (m + 1);
    }
  }

  lemma {:induction false} TopBoundIs(k: nat)
    requires k > 0
    ensures TopBound(k) == k * k / 4 + 2 * k - 1
  {
    if k > 1 {
      TopBoundIs(k - 1);
      QuarterStep(k);
    }
  }

  /** About a quarter of the square of the number of bits of a height. */
  function StepLimit(w: nat): nat
    requires w > 0
  {
    var l := Log2(w);
    l * l / 4 + 3 * l + 1
  }

  /**
   * A descent from height w takes at most about a quarter of the square of the number of bits of w, wherever it leads.
   */
  lemma StepsBounded(w: nat, t: nat)
    requires w > 0
    ensures Steps(w, t) <= StepLimit(w)
  {
    hide Pow, Steps, Log2;
    var l := Log2(w);
    Log2Is(w);
    if t >= w {
      NoStepBelow(w, t);
    } else if l == 0 {
      PowSmallest();
      LastStep(t, w);
    } else {
      AnyWalk(0, l + 1, w, t);
      TopBoundIs(l);
    }
  }

  /** In figures, for heights below 2^20. */
  lemma StepsBelow(w: nat, t: nat)
    requires 0 < w < 0x10_0000
    ensures Steps(w, t) <= 148
  {
    hide Steps, Log2;
    StepsBounded(w, t);
    LogBelow(w);
    LimitBelow(Log2(w));
  }

  lemma LogBelow(w: nat)
    requires 0 < w < 0x10_0000
    ensures Log2(w) <= 19
  {
    hide Pow, Log2;
    Log2Is(w);
    if Log2(w) >= 20 {
      PowSmall();
      SixteenTimes();
      PowAdd(2, 16, 4);
      PowGrows(2, 20, Log2(w));
    }
  }

  lemma SixteenTimes()
    ensures Pow(2, 4) == 16
  {}

  lemma LimitBelow(l: nat)
    requires l <= 19
    ensures l * l / 4 + 3 * l + 1 <= 148
  {
    assert l * l <= 19 * l <= 19 * 19;
  }

  lemma NoStepBelow(w: nat, t: nat)
    requires w <= t
    ensures Steps(w, t) == 0
  {}

  // ---------- A lower bound ----------

  lemma {:induction false} AllOnes(k: nat)
    ensures Ones(Pow(2, k) - 1) == k
  {
    if k > 0 {
      AllOnes(k - 1);
      PowNext(2, k - 1);
      HalfOnes(Pow(2, k) - 1);
    }
  }

  lemma AllButLast(k: nat)
    requires k > 0
    ensures Pow(2, k) >= 2 && Ones(Pow(2, k) - 2) == k - 1
  {
    PowNext(2, k - 1);
    AllOnes(k - 1);
    HalfOnes(Pow(2, k) - 2);
  }

  /** On the way to height two, the walk from an odd height does not take more than two bits at a time. */
  lemma {:induction false} SlowWalk(j: nat, e: nat)
    requires LowHalf(0, j, 2) && e < Pow(2, j) && e % 2 == 0
    ensures Steps(Pow(2, j) + e + 1, 2) >= Ones(e) / 2 + 1 + Steps(Pow(2, j), 2)
    decreases e
  {
    hide LowHalf, Pow, InvertLowestOne, SkipHeight, Ones, Steps, FollowsSkip;
    var mid := Pow(2, j);
    ClearsMiddle(0, j, 2);
    OddHeight(mid + e, 2);
    SomeOnes(0);
    if e > 0 {
      ClearsUpper(0, j, 2, e);
      ClearedEven(e);
      OnesCleared(e);
      TwoBitsLess(0, j, e, 2);
      if InvertLowestOne(e) == 0 {
        OneBitLeft(0, j, e, 2);
      }
    }
    if FollowsSkip(mid + e + 1, 2) {
      Follows(mid + e + 1, 2);
      SlowWalk(j, InvertLowestOne(InvertLowestOne(e)));
    } else {
      WalksOn(mid + e + 1, 2);
    }
  }

  /** The descent from height 2^k to height two does take a quarter of the square of k, so no better bound is to be had. */
  lemma {:induction false} StepsNeeded(k: nat)
    requires k > 0
    ensures Steps(Pow(2, k), 2) >= k * k / 4
  {
    hide Pow, InvertLowestOne, Ones, Steps;
    PowSmallest();
    if k == 2 {
      PowNext(2, 1);
      FromFour();
    } else if k > 2 {
      StepsNeeded(k - 1);
      QuarterStep(k);
      var p := Pow(2, k - 1);
      PowNext(2, k - 1);
      PowNext(2, k - 2);
      PowGrows(2, 2, k - 1);
      PowNext(2, 1);
      AllButLast(k - 1);
      MultipleOfItself(2 * p);
      SlowWalk(k - 1, p - 2);
      OnlyBit(k);
      assert SkipHeight(2 * p) == 0;
      WalksOn(2 * p, 2);
    }
  }

  lemma MultipleOfItself(p: nat)
    requires p > 0
    ensures 0 % p == 0
  {}

  lemma FromFour()
    ensures Steps(4, 2) >= 1
  {}
}
