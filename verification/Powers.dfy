/** Powers, and bitwise operations on natural numbers. */
module Powers {
  /** The largest unsigned 64-bit number. */
  const MAX64: int := 0xffff_ffff_ffff_ffff

  function Pow(b: nat, n: nat): (r: nat)
    ensures b > 0 ==> r > 0
  {
    if n == 0 then 1 else b * Pow(b, n - 1)
  }

  lemma PowNext(b: nat, n: nat)
    ensures Pow(b, n + 1) == b * Pow(b, n)
  {}

  lemma PowNone(b: nat)
    ensures Pow(b, 0) == 1
  {}

  /** A factor can be moved into a product. */
  lemma MulSwap(x: int, y: int, z: int)
    ensures x * (y * z) == y * (x * z)
  {}

  lemma {:induction false} PowAdd(b: nat, m: nat, n: nat)
    ensures Pow(b, m + n) == Pow(b, m) * Pow(b, n)
    decreases n
  {
    hide Pow;
    if n == 0 {
      PowNone(b);
    } else {
      PowAdd(b, m, n - 1);
      PowNext(b, m + (n - 1));
      PowNext(b, n - 1);
      MulSwap(b, Pow(b, m), Pow(b, n - 1));
    }
  }

  /** Powers of a positive base grow with the exponent. */
  lemma {:induction false} PowGrows(b: nat, m: nat, n: nat)
    requires b > 0 && m <= n
    ensures Pow(b, m) <= Pow(b, n)
    decreases n - m
  {
    if m < n {
      PowGrows(b, m, n - 1);
      assert Pow(b, n) == b * Pow(b, n - 1);
    }
  }

  lemma {:induction false} PowOfPow(b: nat, m: nat, n: nat)
    ensures Pow(Pow(b, m), n) == Pow(b, m * n)
    decreases n
  {
    if n > 0 {
      PowOfPow(b, m, n - 1);
      PowAdd(b, m, m * (n - 1));
      assert m + m * (n - 1) == m * n;
    }
  }

  lemma PowSmall()
    ensures Pow(2, 8) == 0x100 && Pow(2, 16) == 0x1_0000 && Pow(2, 24) == 0x100_0000
    ensures Pow(2, 32) == 0x1_0000_0000
  {
    assert Pow(2, 4) == 16;
    PowAdd(2, 4, 4);
    PowAdd(2, 8, 8);
    PowAdd(2, 16, 8);
    PowAdd(2, 16, 16);
  }

  // ---------- Division ----------

  /** Quotient and remainder are determined by the division equation. */
  lemma DivUnique(x: int, m: int, q: int, r: int)
    requires m > 0 && x == q * m + r && 0 <= r < m
    ensures x / m == q && x % m == r
  {
    var d := x / m - q;
    assert x == (x / m) * m + x % m;
    assert d * m == r - x % m by {
      assert (x / m - q) * m == (x / m) * m - q * m;
    }
    if d > 0 {
      MulAtLeast(d, m);
    } else if d < 0 {
      MulAtLeast(-d, m);
    }
  }

  lemma DivSplit(v: nat, b: nat)
    requires b > 0
    ensures v == v / b * b + v % b && 0 <= v % b < b
  {}

  lemma DivSmaller(v: nat, b: nat)
    requires b >= 2 && v > 0
    ensures v / b < v
  {
    DivSplit(v, b);
    MulOrder(2, b, v / b);
  }

  lemma MulAtLeast(d: int, m: int)
    requires d >= 1 && m >= 0
    ensures d * m >= m
  {
    assert d * m == m + (d - 1) * m;
  }

  /** A factor can be kept on one side of an order. */
  lemma MulOrder(a: int, b: int, m: int)
    requires a <= b && m >= 0
    ensures a * m <= b * m
  {
    assert b * m == a * m + (b - a) * m;
  }

  lemma DivTwice(x: nat, p: nat, q: nat)
    requires p > 0 && q > 0
    ensures p * q > 0 && x / p / q == x / (q * p)
  {
    var y := x / p;
    var z := y / q;
    assert x == y * p + x % p && y == z * q + y % q;
    assert x == z * (q * p) + (y % q * p + x % p);
    MulOrder(y % q + 1, q, p);
    MulOrder(0, y % q, p);
    assert q * p > 0 by { MulAtLeast(q, p); }
    DivUnique(x, q * p, z, y % q * p + x % p);
  }

  /** A digit below b on top of a number below r stays below b * r. */
  lemma Below(v: int, x: int, r: int, b: int)
    requires 0 <= v < r && 0 <= x < b
    ensures v + x * r < b * r
  {
    MulOrder(x + 1, b, r);
  }

  lemma Spread(v: int, x: int, r: int, q: int)
    ensures (v + x * r) * q == v * q + x * (q * r)
  {
    assert x * r * q == x * (q * r);
  }

  // ---------- Bitwise operations ----------

  function And(a: nat, b: nat): (r: nat)
    ensures r <= a && r <= b
  {
    if a == 0 || b == 0 then 0
    else 2 * And(a / 2, b / 2) + if a % 2 == 1 && b % 2 == 1 then 1 else 0
  }

  function Or(a: nat, b: nat): nat {
    if a == 0 then b
    else if b == 0 then a
    else 2 * Or(a / 2, b / 2) + if a % 2 == 1 || b % 2 == 1 then 1 else 0
  }

  lemma {:induction false} AndSelf(n: nat)
    ensures And(n, n) == n
  {
    if n > 0 {
      AndSelf(n / 2);
    }
  }

  /** Numbers without a common bit are joined by addition. */
  lemma {:induction false} OrIsSum(a: nat, b: nat, s: nat)
    requires a % Pow(2, s) == 0 && b < Pow(2, s)
    ensures Or(a, b) == a + b == Or(b, a)
    decreases s
  {
    if s > 0 && a > 0 && b > 0 {
      var q := a / Pow(2, s);
      assert a == q * Pow(2, s);
      Half(a, q, Pow(2, s - 1));
      OrIsSum(a / 2, b / 2, s - 1);
    }
  }

  lemma Half(a: nat, q: nat, m: nat)
    requires m > 0 && a == q * (2 * m)
    ensures a % 2 == 0 && a / 2 % m == 0
  {
    assert q * (2 * m) == 2 * (q * m);
    DivUnique(a / 2, m, q, 0);
  }

  /** Joining a bit that is not set adds it. */
  lemma {:induction false} OrBit(a: nat, t: nat)
    requires a / Pow(2, t) % 2 == 0
    ensures Or(a, Pow(2, t)) == a + Pow(2, t)
    decreases t
  {
    if t > 0 && a > 0 {
      DivTwice(a, 2, Pow(2, t - 1));
      OrBit(a / 2, t - 1);
    }
  }

  /** The base-two logarithm, rounded down. */
  function Log2(n: nat): nat
    requires n > 0
  {
    if n == 1 then 0 else 1 + Log2(n / 2)
  }

  lemma {:induction false} LogExceeds(n: nat, k: nat)
    requires n > 0 && Pow(2, k) <= n
    ensures k <= Log2(n)
  {
    if k > 0 {
      LogExceeds(n / 2, k - 1);
    }
  }

  lemma {:induction false} Log2Is(n: nat)
    requires n > 0
    ensures Pow(2, Log2(n)) <= n < Pow(2, Log2(n) + 1)
  {
    if n > 1 {
      Log2Is(n / 2);
    }
  }
}
