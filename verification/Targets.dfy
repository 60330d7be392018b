/** Difficulty targets: 256-bit integers, their compact form, and the work a target stands for. */
module Targets {
  import opened Powers
  import opened Limbs
  import opened BaseUints
  import opened Compact

  lemma BytePowers(k: nat)
    ensures Pow(2, 8 * k) == Pow(256, k)
  {
    PowOfPow(2, 8, k);
    PowSmall();
  }

  lemma Modulus256()
    ensures Radix(8) == Pow(256, 32)
  {
    RadixIsPow(8);
    BytePowers(32);
  }

  method SetCompact(a: BaseUint, c: Limb) returns (negative: bool, overflow: bool)
    requires a.pn.Length == 8
    modifies a.pn
    ensures a.Value() == Magnitude(c) % Pow(256, 32)
    ensures negative <==> Magnitude(c) != 0 && SignBit(c)
    ensures overflow <==> Magnitude(c) >= Pow(256, 32)
  {
    hide Pow, Radix, Val;
    var nSize := c / WORD;
    var nWord := c % SIGN;
    Modulus256();
    WordRange(c);
    if nSize <= 3 {
      BytePowers(3 - nSize);
      nWord := nWord / Pow(2, 8 * (3 - nSize));
      a.Set(nWord);
      Powers256();
      SmallMagnitude(c);
    } else {
      a.Set(nWord);
      BytePowers(nSize - 3);
      a.ShiftLeft(8 * (nSize - 3));
    }
    negative := nWord != 0 && c / SIGN % 2 == 1;
    overflow := nWord != 0 && (nSize > 34 || (nWord > 0xff && nSize > 33) || (nWord > 0xffff && nSize > 32));
    OverflowExactly(c);
    NonZero(Word(c), Pow(256, Exponent(c)));
  }

  lemma SmallMagnitude(c: nat)
    requires Size(c) <= 3
    ensures Magnitude(c) % Pow(256, 32) == Magnitude(c) == Word(c)
  {
    hide Pow, Word;
    WordRange(c);
    PowGrows(256, 3, 32);
    Powers256();
    DivUnique(Magnitude(c), Pow(256, 32), 0, Magnitude(c));
  }

  lemma NonZero(w: nat, p: nat)
    requires p > 0
    ensures w * p == 0 <==> w == 0
  {}

  /** The number of bytes follows from the number of bits. */
  lemma ByteCount(v: nat, bits: nat)
    requires bits == 0 <==> v == 0
    requires bits > 0 ==> Pow(2, bits - 1) <= v < Pow(2, bits)
    ensures ByteLength(v, (bits + 7) / 8)
  {
    hide Pow;
    var n := (bits + 7) / 8;
    if bits > 0 {
      BytePowers(n);
      BytePowers(n - 1);
      PowGrows(2, bits, 8 * n);
      PowGrows(2, 8 * (n - 1), bits - 1);
    }
  }

  method GetCompact(a: BaseUint, fNegative: bool) returns (r: Limb)
    requires a.pn.Length == 8
    ensures var c := CompactOf(a.Value()); r == if fNegative && Mantissa(c) != 0 then c + SIGN else c
  {
    hide Pow, Radix, Val, Or, CompactOf, Leading;
    var nCompact, nSize := LeadingBytes(a);
    ghost var v := a.Value();
    Written(v, nSize);
    SignTest(nCompact);
    if nCompact / SIGN % 2 == 1 {
      nCompact := nCompact / 256;
      nSize := nSize + 1;
    }
    assert nCompact < SIGN && nSize < 256;
    JoinSize(nCompact, nSize);
    Fields(nCompact, nSize);
    r := Or(nCompact, nSize * WORD);
    if fNegative && r % SIGN != 0 {
      JoinSign(r);
      r := Or(r, SIGN);
    }
  }

  /**
   * Encoding a number and decoding the word again leaves the largest number not above it that a compact word can stand
   * for, whatever the word; its own word is the same.
   */
  method RoundToCompact(a: BaseUint) returns (c: Limb, negative: bool, overflow: bool, again: Limb)
    requires a.pn.Length == 8
    modifies a.pn
    ensures !negative && !overflow && again == c
    ensures a.Value() <= old(a.Value()) && Magnitude(c) == a.Value()
    ensures forall d: nat :: Magnitude(d) <= old(a.Value()) ==> Magnitude(d) <= a.Value()
  {
    hide Pow, Radix, Val, CompactOf, Magnitude;
    ValBound(a.pn[..]);
    Modulus256();
    RoundTrip(a.Value());
    c := GetCompact(a, false);
    negative, overflow := SetCompact(a, c);
    DivUnique(Magnitude(c), Pow(256, 32), 0, Magnitude(c));
    again := GetCompact(a, false);
  }

  lemma Written(v: nat, n: nat)
    requires ByteLength(v, n) && n <= 32
    ensures var m := Leading(v, n);
            m < WORD && CompactOf(v) == if m < SIGN then n * WORD + m else (n + 1) * WORD + m / 256
  {
    hide Pow;
    BytesUnique(v, n);
    if v > 0 {
      LeadingRange(v, n);
    }
  }

  /** The size in bytes and the three leading bytes. */
  method LeadingBytes(a: BaseUint) returns (m: nat, n: nat)
    requires a.pn.Length == 8
    ensures ByteLength(a.Value(), n) && n <= 32 && m == Leading(a.Value(), n)
  {
    hide Pow, Radix, Val, Leading;
    var bits := a.Bits();
    n := (bits + 7) / 8;
    ghost var v := a.Value();
    ByteCount(v, bits);
    Written(v, n);
    if n <= 3 {
      LowSmall(v, n);
      var low := a.GetLow64();
      ShortMod(v);
      m := low * Pow(2, 8 * (3 - n)) % (BASE * BASE) % BASE;
    } else {
      var bn := new BaseUint.Copy(a);
      bn.ShiftRight(8 * (n - 3));
      var low := bn.GetLow64();
      HighPart(v, n);
      m := low % BASE;
    }
    ShortMod(Leading(v, n));
  }

  lemma HighPart(v: nat, n: nat)
    requires n > 3
    ensures Leading(v, n) == v / Pow(2, 8 * (n - 3))
  {
    BytePowers(n - 3);
  }

  lemma ShortMod(x: nat)
    requires x < BASE
    ensures x % (BASE * BASE) == x && x % BASE == x
  {}

  lemma LowSmall(v: nat, n: nat)
    requires ByteLength(v, n) && n <= 3
    ensures v < WORD && Leading(v, n) == v * Pow(2, 8 * (3 - n))
  {
    BytePowers(3 - n);
    Powers256();
  }

  lemma SignTest(m: nat)
    requires m < WORD
    ensures m / SIGN % 2 == 1 <==> m >= SIGN
  {}

  lemma JoinSize(m: nat, n: nat)
    requires m < SIGN
    ensures Or(m, n * WORD) == n * WORD + m
  {
    PowSmall();
    DivUnique(n * WORD, WORD, n, 0);
    OrIsSum(n * WORD, m, 24);
  }

  lemma JoinSign(c: nat)
    requires !SignBit(c)
    ensures Or(c, SIGN) == c + SIGN
  {
    PowSmall();
    PowAdd(2, 16, 7);
    assert Pow(2, 7) == 128;
    OrBit(c, 23);
  }

  // ---------- Work ----------

  /** A target that the proof-of-work code accepts. */
  predicate Accepted(bits: nat) {
    Magnitude(bits) != 0 && !SignBit(bits) && Magnitude(bits) < Pow(256, 32)
  }

  /** The expected number of hashes for a target. */
  function Work(bits: nat): nat {
    if Accepted(bits) then Pow(256, 32) / (Magnitude(bits) + 1) else 0
  }

  /** Although 2^256 does not fit, neither the divisor nor the result wraps around. */
  method GetBitsProof(bits: Limb) returns (r: BaseUint)
    ensures fresh(r) && fresh(r.pn) && r.pn.Length == 8 && r.Value() == Work(bits)
  {
    hide Pow, Radix, Val, Magnitude;
    var target := new BaseUint.Zero(8);
    var negative, overflow := SetCompact(target, bits);
    ghost var m := Pow(256, 32);
    Modulus256();
    var zero := target.EqualTo(0);
    if !overflow {
      DivUnique(Magnitude(bits), m, 0, Magnitude(bits));
    }
    if negative || overflow || zero {
      r := new BaseUint(8, 0);
      return;
    }
    var one := new BaseUint(8, 1);
    var d := new BaseUint.Copy(target);
    d.Add(one);
    NotAllOnes(bits);
    ghost var t := target.Value();
    DivUnique(t + 1, m, 0, t + 1);
    r := target.Not();
    var ok := r.Divide(d);
    assert ok;
    ProofFits(t, m);
    r.Add(one);
  }

  lemma ProofFits(t: nat, m: nat)
    requires 0 < t < m
    ensures (m - 1 - t) / (t + 1) + 1 == m / (t + 1)
    ensures m / (t + 1) < m && m / (t + 1) % m == m / (t + 1)
  {
    var d := t + 1;
    var q, r := m / d, m % d;
    assert m == q * d + r;
    if q <= 0 {
      MulOrder(q, 0, d);
    }
    DivUnique(m - d, d, q - 1, r);
    MulOrder(2, d, q);
    DivUnique(q, m, 0, q);
  }
}
