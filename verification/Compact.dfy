/** The compact floating format of difficulty targets, on numbers. */
module Compact {
  import opened Powers

  const SIGN: nat := 0x80_0000
  const WORD: nat := 0x100_0000

  // ---------- Reading a compact word ----------

  function Size(c: nat): nat {
    c / WORD
  }

  function Mantissa(c: nat): nat {
    c % SIGN
  }

  predicate SignBit(c: nat) {
    c / SIGN % 2 == 1
  }

  /** The mantissa, cut to the number of bytes the size allows. */
  function Word(c: nat): nat {
    if Size(c) <= 3 then Mantissa(c) / Pow(256, 3 - Size(c)) else Mantissa(c)
  }

  function Exponent(c: nat): nat {
    if Size(c) <= 3 then 0 else Size(c) - 3
  }

  /** The number a compact word stands for, without its sign. */
  function Magnitude(c: nat): nat {
    Word(c) * Pow(256, Exponent(c))
  }

  // ---------- Writing a compact word ----------

  /** n is the number of bytes of x. */
  ghost predicate ByteLength(x: nat, n: nat) {
    if x == 0 then n == 0 else n > 0 && Pow(256, n - 1) <= x < Pow(256, n)
  }

  /** The three leading bytes of x, when it has n bytes. */
  function Leading(x: nat, n: nat): nat {
    if n <= 3 then x * Pow(256, 3 - n) else x / Pow(256, n - 3)
  }

  /** The compact word for x, when it has n bytes. The top bit of the mantissa is kept free for the sign. */
  function Encode(x: nat, n: nat): nat {
    var m := Leading(x, n);
    if m < SIGN then n * WORD + m else (n + 1) * WORD + m / 256
  }

  /** The number of bytes of x. */
  function Bytes(x: nat): nat {
    if x == 0 then 0 else 1 + Bytes(x / 256)
  }

  function CompactOf(x: nat): nat {
    Encode(x, Bytes(x))
  }

  // ---------- Proofs ----------

  lemma Fields(m: nat, n: nat)
    requires m < SIGN
    ensures Size(n * WORD + m) == n && Mantissa(n * WORD + m) == m && !SignBit(n * WORD + m)
  {
    DivUnique(n * WORD + m, WORD, n, m);
    DivUnique(n * WORD + m, SIGN, 2 * n, m);
  }

  /** The leading bytes fill two to three bytes. */
  lemma LeadingRange(x: nat, n: nat)
    requires ByteLength(x, n) && x > 0
    ensures 0x1_0000 <= Leading(x, n) < WORD
  {
    hide Pow;
    Powers256();
    if n <= 3 {
      PowAdd(256, n - 1, 3 - n);
      PowAdd(256, n, 3 - n);
      MulOrder(Pow(256, n - 1), x, Pow(256, 3 - n));
      MulOrder(x + 1, Pow(256, n), Pow(256, 3 - n));
    } else {
      var p := Pow(256, n - 3);
      PowAdd(256, 2, n - 3);
      PowAdd(256, 3, n - 3);
      QuotientRange(x, p, Pow(256, 2), Pow(256, 3));
    }
  }

  lemma QuotientRange(x: nat, p: nat, low: nat, high: nat)
    requires p > 0 && low * p <= x < high * p
    ensures low <= x / p < high
  {
    var q := x / p;
    assert q * p <= x < q * p + p;
    if q < low {
      MulOrder(q + 1, low, p);
    } else if q >= high {
      MulOrder(high, q, p);
    }
  }

  lemma Powers256()
    ensures Pow(256, 0) == 1 && Pow(256, 1) == 256 && Pow(256, 2) == 0x1_0000 && Pow(256, 3) == WORD
  {}

  /** What encoding keeps: the exponent, the mantissa and the number of bytes. */
  lemma EncodedWord(x: nat, n: nat)
    requires ByteLength(x, n)
    ensures var c := Encode(x, n);
            && !SignBit(c) && Word(c) < SIGN && Word(c) == x / Pow(256, Exponent(c))
            && n <= Size(c) <= n + 1 && (Exponent(c) > 0 ==> 0x8000 <= Word(c))
  {
    hide Pow;
    Powers256();
    var m := Leading(x, n);
    if x > 0 {
      LeadingRange(x, n);
    }
    if m < SIGN {
      Fields(m, n);
      if n <= 3 {
        DivUnique(m, Pow(256, 3 - n), x, 0);
        Powers256();
      }
    } else {
      Fields(m / 256, n + 1);
      CutByte(x, n);
    }
  }

  /** The mantissa after making room for the sign. */
  lemma CutByte(x: nat, n: nat)
    requires n > 0
    ensures n <= 2 ==> Leading(x, n) / 256 / Pow(256, 2 - n) == x
    ensures n == 3 ==> Leading(x, n) / 256 == x / Pow(256, 1)
    ensures n > 3 ==> Leading(x, n) / 256 == x / Pow(256, n - 2)
  {
    if n <= 2 {
      var p := Pow(256, 2 - n);
      assert Leading(x, n) == x * (256 * p) == 256 * (x * p);
      DivUnique(Leading(x, n), 256, x * p, 0);
      DivUnique(x * p, p, x, 0);
    } else if n > 3 {
      DivTwice(x, Pow(256, n - 3), 256);
    }
  }

  /** Decoding what was encoded gives a number not above the original, equal up to the digits that were cut off. */
  lemma RoundsDown(x: nat, n: nat)
    requires ByteLength(x, n)
    ensures Magnitude(Encode(x, n)) <= x < Magnitude(Encode(x, n)) + Pow(256, Exponent(Encode(x, n)))
  {
    hide Pow, Word, Encode;
    EncodedWord(x, n);
  }

  /** No compact word stands for a number between the result and the original. */
  lemma Largest(x: nat, n: nat, c: nat)
    requires ByteLength(x, n) && Magnitude(c) <= x
    ensures Magnitude(c) <= Magnitude(Encode(x, n))
  {
    hide Pow, Word, Encode;
    var d := Encode(x, n);
    EncodedWord(x, n);
    WordRange(c);
    var k, e := Exponent(d), Exponent(c);
    if e >= k {
      PowAdd(256, e - k, k);
      CoarserFits(Word(c), Pow(256, e - k), Pow(256, k), x);
    } else {
      FinerIsSmaller(Word(c), e, Word(d), k);
    }
  }

  lemma CoarserFits(w: nat, p: nat, q: nat, x: nat)
    requires q > 0 && w * (p * q) <= x
    ensures w * (p * q) <= x / q * q
  {
    Regroup(w, p, q);
    MultipleBelow(w * p, x, q);
  }

  lemma Regroup(w: int, p: int, q: int)
    ensures w * (p * q) == w * p * q
  {}

  /** Fewer leading bytes make a smaller number, whatever the mantissas. */
  lemma FinerIsSmaller(v: nat, e: nat, w: nat, k: nat)
    requires v < SIGN && e < k && 0x8000 <= w
    ensures v * Pow(256, e) <= w * Pow(256, k)
  {
    hide Pow;
    Powers256();
    PowAdd(256, 1, k - 1);
    PowGrows(256, e, k - 1);
    MulOrder(v, SIGN, Pow(256, e));
    MulOrder(0x8000, w, Pow(256, k));
  }

  lemma MultipleBelow(q: nat, x: nat, p: nat)
    requires p > 0 && q * p <= x
    ensures q * p <= x / p * p
  {
    if q > x / p {
      MulOrder(x / p + 1, q, p);
    }
  }

  lemma WordRange(c: nat)
    ensures Word(c) < SIGN
  {
    if Size(c) <= 3 {
      var p := Pow(256, 3 - Size(c));
      MulAtLeast(p, Word(c));
      assert Word(c) * p <= Mantissa(c);
    }
  }

  /** The rounded number has the same compact word. */
  lemma Stable(x: nat, n: nat)
    requires ByteLength(x, n)
    ensures ByteLength(Magnitude(Encode(x, n)), n) && Encode(Magnitude(Encode(x, n)), n) == Encode(x, n)
  {
    hide Pow;
    Powers256();
    var c := Encode(x, n);
    var y := Magnitude(c);
    EncodedWord(x, n);
    RoundsDown(x, n);
    if Exponent(c) > 0 {
      LeadingRange(x, n);
      var k, w := Exponent(c), Word(c);
      if Leading(x, n) < SIGN {
        Fields(Leading(x, n), n);
        PowAdd(256, 2, n - 3);
        MulOrder(Pow(256, 2), w, Pow(256, n - 3));
        DivUnique(y, Pow(256, n - 3), w, 0);
      } else {
        Fields(Leading(x, n) / 256, n + 1);
        PowAdd(256, 1, n - 2);
        MulOrder(Pow(256, 1), w, Pow(256, n - 2));
        LeadingOfRounded(y, w, n);
        DivUnique(w * 256, 256, w, 0);
      }
    }
  }

  lemma LeadingOfRounded(y: nat, w: nat, n: nat)
    requires n >= 3 && y == w * Pow(256, n - 2)
    ensures Leading(y, n) == w * 256
  {
    var p := Pow(256, n - 3);
    assert y == w * (256 * p) == w * 256 * p;
    DivUnique(y, p, w * 256, 0);
  }

  // ---------- Examples ----------

  /** Words and the numbers they stand for: cut off, whole, with zeros behind, and with a sign. */
  lemma KnownWords()
    ensures Magnitude(0x0112_3456) == 0x12 && Magnitude(0x0212_3456) == 0x1234 && Magnitude(0x0312_3456) == 0x12_3456
    ensures Magnitude(0x0412_3456) == 0x1234_5600 && Magnitude(0x0500_9234) == 0x9234_0000
    ensures Magnitude(0x0492_3456) == 0x1234_5600 && SignBit(0x0492_3456) && !SignBit(0x0412_3456)
  {
    Powers256();
  }

  /** Numbers and their words. The second one needs another byte, because its top bit would be taken for a sign. */
  lemma KnownNumbers()
    ensures CompactOf(0x12) == 0x0112_0000 && CompactOf(0x80) == 0x0200_8000 && CompactOf(0x1234) == 0x0212_3400
    ensures CompactOf(0x12_3456) == 0x0312_3456 && CompactOf(0x1234_5600) == 0x0412_3456
  {
    Powers256();
    BytesUnique(0x12, 1);
    BytesUnique(0x80, 1);
    BytesUnique(0x1234, 2);
    BytesUnique(0x12_3456, 3);
    assert Pow(256, 4) == 0x1_0000_0000;
    BytesUnique(0x1234_5600, 4);
  }

  /** The overflow test of the decoder. */
  predicate TooLarge(size: nat, word: nat) {
    word != 0 && (size > 34 || (word > 0xff && size > 33) || (word > 0xffff && size > 32))
  }

  /** The test is exact: it holds just when the number does not fit in 256 bits. */
  lemma OverflowExactly(c: nat)
    ensures TooLarge(Size(c), Word(c)) <==> Magnitude(c) >= Pow(256, 32)
  {
    hide Pow, Word;
    Powers256();
    WordRange(c);
    var e, w := Exponent(c), Word(c);
    if e >= 32 {
      PowGrows(256, 32, e);
      Reaches(w, 1, Pow(256, e));
    } else {
      PowAdd(256, 32 - e, e);
      Reaches(w, Pow(256, 32 - e), Pow(256, e));
      if e <= 29 {
        PowGrows(256, 3, 32 - e);
      }
    }
  }

  lemma Reaches(w: nat, a: nat, p: nat)
    requires p > 0
    ensures w * p >= a * p <==> w >= a
  {
    if w >= a {
      MulOrder(a, w, p);
    } else {
      MulOrder(w + 1, a, p);
    }
  }

  /** No compact word stands for a number with all its bits set. */
  lemma NotAllOnes(c: nat)
    ensures Magnitude(c) != Pow(256, 32) - 1
  {
    hide Pow;
    Powers256();
    WordRange(c);
    PowAdd(256, 3, 29);
    PowAdd(256, 1, 31);
    if Exponent(c) > 0 {
      PowAdd(256, 1, Exponent(c) - 1);
      var t := Word(c) * Pow(256, Exponent(c) - 1);
      assert Magnitude(c) == 256 * t;
    } else {
      MulAtLeast(Pow(256, 29), Pow(256, 3));
    }
  }

  lemma {:induction false} BytesExist(x: nat)
    ensures ByteLength(x, Bytes(x))
  {
    if x > 0 {
      BytesExist(x / 256);
      var n := Bytes(x);
      if x >= 256 {
        assert Pow(256, n - 1) == 256 * Pow(256, n - 2);
      }
    }
  }

  lemma {:induction false} BytesUnique(x: nat, n: nat)
    requires ByteLength(x, n)
    ensures n == Bytes(x)
  {
    if n > 1 {
      assert Pow(256, n) == 256 * Pow(256, n - 1) && Pow(256, n - 1) == 256 * Pow(256, n - 2);
      BytesUnique(x / 256, n - 1);
    }
  }

  /**
   * A number that fits in 256 bits is rounded down to the largest number with a compact word, which is never flagged and
   * has the same compact word.
   */
  lemma RoundTrip(x: nat)
    requires x < Pow(256, 32)
    ensures var c := CompactOf(x);
            && c < 0x1_0000_0000 && !SignBit(c) && Magnitude(c) < Pow(256, 32)
            && Magnitude(c) <= x && (forall d :: Magnitude(d) <= x ==> Magnitude(d) <= Magnitude(c))
            && CompactOf(Magnitude(c)) == c
  {
    hide Pow, Word, Encode;
    BytesExist(x);
    var n := Bytes(x);
    EncodedWord(x, n);
    RoundsDown(x, n);
    forall d | Magnitude(d) <= x ensures Magnitude(d) <= Magnitude(CompactOf(x)) {
      Largest(x, n, d);
    }
    Stable(x, n);
    BytesUnique(Magnitude(CompactOf(x)), n);
    BytesBelow(x, n, 32);
    SizeFits(CompactOf(x));
  }

  lemma BytesBelow(x: nat, n: nat, k: nat)
    requires ByteLength(x, n) && x < Pow(256, k)
    ensures n <= k
  {
    if n > k {
      PowGrows(256, k, n - 1);
    }
  }

  lemma SizeFits(c: nat)
    ensures Size(c) < 256 ==> c < 0x1_0000_0000
  {}
}
