/** Fixed-width unsigned integers held as 32-bit limbs, updated in place. */
module BaseUints {
  import opened Powers
  import opened Limbs

  /** The digit and the carry of a column sum. */
  lemma CarrySplit(n: nat, i: nat)
    ensures (n % BASE) * Radix(i) + (n / BASE) * Radix(i + 1) == n * Radix(i)
  {
    var r := Radix(i);
    calc {
      (n % BASE) * r + (n / BASE) * (BASE * r);
      { assert (n / BASE) * (BASE * r) == (n / BASE * BASE) * r; }
      (n % BASE) * r + (n / BASE * BASE) * r;
      n * r;
    }
  }

  lemma Distribute(a: int, b: int, c: int, r: int)
    ensures (a + b + c) * r == a * r + b * r + c * r
  {}

  class BaseUint {
    const pn: array<Limb>

    function Value(): nat
      reads pn
    {
      Val(pn[..])
    }

    constructor Zero(width: nat)
      ensures fresh(pn) && pn.Length == width && Value() == 0
      ensures forall i :: 0 <= i < width ==> pn[i] == 0
    {
      pn := new Limb[width](_ => 0);
      new;
      ValZero(pn[..]);
    }

    constructor (width: nat, b: nat)
      requires width >= 2 && b <= MAX64
      ensures fresh(pn) && pn.Length == width && Value() == b
    {
      pn := new Limb[width](i => if i == 0 then b % BASE else if i == 1 then b / BASE else 0);
      new;
      LowWords(pn[..], b);
    }

    constructor Copy(b: BaseUint)
      ensures fresh(pn) && pn[..] == b.pn[..]
    {
      pn := new Limb[b.pn.Length](i requires 0 <= i < b.pn.Length reads b.pn => b.pn[i]);
    }

    /** The modulus of the arithmetic. */
    function Modulus(): nat {
      Radix(pn.Length)
    }

    lemma Prefix(i: nat)
      requires i < pn.Length
      ensures Val(pn[..i + 1]) == Val(pn[..i]) + pn[i] * Radix(i)
    {
      assert pn[..][..i + 1] == pn[..i + 1] && pn[..][..i] == pn[..i];
      ValPrefix(pn[..], i);
    }

    method Add(b: BaseUint)
      requires pn.Length == b.pn.Length
      modifies pn
      ensures Value() == (old(Value()) + old(b.Value())) % Modulus()
    {
      hide Val, Radix;
      ghost var x, y := pn[..], b.pn[..];
      EmptySums(x, y);
      var carry := 0;
      var i := 0;
      while i < pn.Length
        invariant 0 <= i <= pn.Length && pn[i..] == x[i..] && b.pn[i..] == y[i..] && 0 <= carry <= 1
        invariant Val(pn[..i]) + carry * Radix(i) == Val(x[..i]) + Val(y[..i])
      {
        var n := carry + pn[i] + b.pn[i];
        assert n <= MAX64;
        ValPrefix(x, i);
        ValPrefix(y, i);
        CarrySplit(n, i);
        Distribute(carry, pn[i], b.pn[i], Radix(i));
        pn[i] := n % BASE;
        carry := n / BASE;
        Prefix(i);
        i := i + 1;
      }
      assert pn[..i] == pn[..] && x[..i] == x && y[..i] == y;
      Residue(pn[..], carry, Val(x) + Val(y));
    }

    /** Multiplication by a single limb. */
    method MulSmall(b32: Limb)
      modifies pn
      ensures Value() == old(Value()) * b32 % Modulus()
    {
      hide Val, Radix;
      ghost var x := pn[..];
      EmptySums(x, x);
      var carry: int := 0;
      var i := 0;
      while i < pn.Length
        invariant 0 <= i <= pn.Length && pn[i..] == x[i..] && 0 <= carry < BASE
        invariant Val(pn[..i]) + carry * Radix(i) == Val(x[..i]) * b32
      {
        ProductFits(b32, pn[i]);
        var n := carry + b32 * pn[i];
        assert n <= MAX64;
        ValPrefix(x, i);
        CarrySplit(n, i);
        TimesDigit(Val(x[..i]), x[i], Radix(i), b32, carry);
        pn[i] := n % BASE;
        carry := n / BASE;
        Prefix(i);
        i := i + 1;
      }
      assert pn[..i] == pn[..] && x[..i] == x;
      Residue(pn[..], carry, Val(x) * b32);
    }

    /** Adds one row of the schoolbook product: a plus the limb p times b, shifted by j limbs. */
    method AddRow(p: Limb, b: BaseUint, j: nat) returns (ghost q: nat)
      requires pn.Length == b.pn.Length && pn != b.pn && j < pn.Length
      modifies pn
      ensures Value() + q * Modulus() == old(Value()) + p * Radix(j) * b.Value()
    {
      hide Val, Radix;
      ghost var x, y := pn[..], b.pn[..];
      EmptySums(y, y);
      var carry: int := 0;
      var i := 0;
      while i + j < pn.Length
        invariant 0 <= i && i + j <= pn.Length && 0 <= carry < BASE
        invariant Val(pn[..]) + carry * Radix(i + j) == Val(x) + p * Radix(j) * Val(y[..i])
      {
        ProductFits(p, b.pn[i]);
        var n := carry + pn[i + j] + p * b.pn[i];
        assert n <= MAX64;
        ValUpdate(pn[..], i + j, n % BASE);
        ValPrefix(y, i);
        RowDigit(p, y[i], Val(y[..i]), i, j, carry, pn[i + j], n);
        pn[i + j] := n % BASE;
        carry := n / BASE;
        i := i + 1;
      }
      q := RowRest(p, y, j, carry);
    }

    /** Schoolbook multiplication, dropping what lies above the top limb. */
    method Mul(b: BaseUint)
      requires pn.Length == b.pn.Length
      modifies pn
      ensures Value() == old(Value()) * old(b.Value()) % Modulus()
    {
      hide Val, Radix;
      ghost var x, y := pn[..], Val(b.pn[..]);
      EmptySums(x, x);
      var a := new BaseUint.Zero(pn.Length);
      ghost var q := 0;
      var j := 0;
      while j < pn.Length
        invariant 0 <= j <= pn.Length == a.pn.Length && pn[..] == x && Val(b.pn[..]) == y && fresh(a.pn)
        invariant a.Value() + q * Modulus() == Val(x[..j]) * y
      {
        ghost var more := a.AddRow(pn[j], b, j);
        ValPrefix(x, j);
        NextRow(Val(x[..j]), x[j], Radix(j), y, q, more, Modulus());
        q := q + more;
        j := j + 1;
      }
      assert x[..j] == x;
      Assign(a);
      Residue(pn[..], q, Val(x) * y);
    }

    method Assign(b: BaseUint)
      requires pn.Length == b.pn.Length
      modifies pn
      ensures pn[..] == old(b.pn[..])
    {
      forall i | 0 <= i < pn.Length {
        pn[i] := b.pn[i];
      }
    }

    /** Assigns a 64-bit number. */
    method Set(b: nat)
      requires pn.Length >= 2 && b <= MAX64
      modifies pn
      ensures Value() == b
    {
      forall i | 0 <= i < pn.Length {
        pn[i] := if i == 0 then b % BASE else if i == 1 then b / BASE else 0;
      }
      LowWords(pn[..], b);
    }

    method GetLow64() returns (r: nat)
      requires pn.Length >= 2
      ensures r <= MAX64 && r == Value() % (BASE * BASE)
    {
      hide Val, Radix, Or;
      PowSmall();
      OrIsSum(pn[1] * BASE, pn[0], 32);
      r := Or(pn[0], pn[1] * BASE);
      LowPart(pn[..]);
    }

    /** The bitwise complement. */
    method Not() returns (r: BaseUint)
      ensures fresh(r) && fresh(r.pn) && r.pn.Length == pn.Length
      ensures r.Value() == Modulus() - 1 - Value()
    {
      hide Val, Radix;
      r := new BaseUint.Zero(pn.Length);
      EmptySums(pn[..], r.pn[..]);
      RadixStep(0);
      var i := 0;
      while i < pn.Length
        invariant 0 <= i <= pn.Length == r.pn.Length && fresh(r.pn)
        invariant Val(r.pn[..i]) + Val(pn[..i]) == Radix(i) - 1
      {
        r.pn[i] := BASE - 1 - pn[i];
        Prefix(i);
        r.Prefix(i);
        RadixStep(i);
        Distribute(r.pn[i], pn[i], 1, Radix(i));
        i := i + 1;
      }
      assert pn[..i] == pn[..] && r.pn[..i] == r.pn[..];
    }

    method Increment()
      modifies pn
      ensures Value() == (old(Value()) + 1) % Modulus()
    {
      hide Val, Radix;
      ghost var x := pn[..];
      RadixStep(0);
      ValBound(x);
      var i := 0;
      while i < pn.Length
        invariant 0 <= i <= pn.Length && Val(pn[..]) + Radix(i) == Val(x) + 1
      {
        var d := if pn[i] == BASE - 1 then 0 else pn[i] + 1;
        ValUpdate(pn[..], i, d);
        RadixStep(i);
        pn[i] := d;
        if pn[i] != 0 {
          Residue(pn[..], 0, Val(x) + 1);
          return;
        }
        i := i + 1;
      }
      Residue(pn[..], 1, Val(x) + 1);
    }

    method Decrement()
      modifies pn
      ensures Value() == (old(Value()) - 1) % Modulus()
    {
      hide Val, Radix;
      ghost var x := pn[..];
      RadixStep(0);
      var i := 0;
      while i < pn.Length
        invariant 0 <= i <= pn.Length && Val(pn[..]) - Radix(i) == Val(x) - 1
      {
        var d := if pn[i] == 0 then BASE - 1 else pn[i] - 1;
        ValUpdate(pn[..], i, d);
        RadixStep(i);
        pn[i] := d;
        if pn[i] != BASE - 1 {
          Residue(pn[..], 0, Val(x) - 1);
          return;
        }
        i := i + 1;
      }
      Residue(pn[..], -1, Val(x) - 1);
    }

    /** Two's complement. */
    method Neg() returns (r: BaseUint)
      ensures fresh(r) && fresh(r.pn) && r.pn.Length == pn.Length
      ensures r.Value() == (Modulus() - Value()) % Modulus()
    {
      hide Val, Radix;
      r := Not();
      r.Increment();
    }

    method Sub(b: BaseUint)
      requires pn.Length == b.pn.Length
      modifies pn
      ensures Value() == (old(Value()) - old(b.Value())) % Modulus()
    {
      hide Val, Radix;
      ghost var x, y := Value(), b.Value();
      var c := b.Neg();
      Add(c);
      SubMod(x, y, Modulus());
    }

    /** Numeric order. */
    method CompareTo(b: BaseUint) returns (r: int)
      requires pn.Length == b.pn.Length
      ensures r == if Value() < b.Value() then -1 else if Value() > b.Value() then 1 else 0
    {
      hide Val, Radix;
      ghost var x, y := pn[..], b.pn[..];
      var i := pn.Length - 1;
      while i >= 0
        invariant -1 <= i < pn.Length && forall j :: i < j < pn.Length ==> x[j] == y[j]
      {
        if pn[i] < b.pn[i] {
          ValOrder(x, y, i);
          return -1;
        }
        if pn[i] > b.pn[i] {
          ValOrder(y, x, i);
          return 1;
        }
        i := i - 1;
      }
      assert x == y;
      return 0;
    }

    method EqualTo(b: nat) returns (r: bool)
      requires pn.Length >= 2 && b <= MAX64
      ensures r <==> Value() == b
    {
      hide Val, Radix;
      var i := pn.Length - 1;
      while i >= 2
        invariant 1 <= i < pn.Length && forall j :: i < j < pn.Length ==> pn[j] == 0
      {
        if pn[i] != 0 {
          AboveWords(pn[..], i);
          return false;
        }
        i := i - 1;
      }
      LowWords(pn[..], pn[0] + pn[1] * BASE);
      return pn[1] == b / BASE && pn[0] == b % BASE;
    }

    /** The position of the highest bit that is set, plus one. */
    method Bits() returns (n: nat)
      ensures n <= 32 * pn.Length
      ensures n == 0 <==> Value() == 0
      ensures n > 0 ==> Pow(2, n - 1) <= Value() < Pow(2, n)
    {
      hide Val, Radix, Pow;
      var pos := pn.Length - 1;
      while pos >= 0
        invariant -1 <= pos < pn.Length && forall j :: pos < j < pn.Length ==> pn[j] == 0
      {
        if pn[pos] != 0 {
          PowSmall();
          var nbits := 31;
          while nbits > 0
            invariant 0 <= nbits <= 31 && pn[pos] < Pow(2, nbits + 1)
          {
            TopBit(pn[pos], nbits);
            if BitSet(pn[pos], nbits) {
              BitsAt(pn[..], pos, nbits);
              return 32 * pos + nbits + 1;
            }
            nbits := nbits - 1;
          }
          PowZero();
          BitsAt(pn[..], pos, 0);
          return 32 * pos + 1;
        }
        pos := pos - 1;
      }
      ValZero(pn[..]);
      return 0;
    }

    method Clear()
      modifies pn
      ensures Value() == 0 && forall i :: 0 <= i < pn.Length ==> pn[i] == 0
    {
      forall i | 0 <= i < pn.Length {
        pn[i] := 0;
      }
      ValZero(pn[..]);
    }

    /** Joins a limb shifted up by s bits to the limbs j and j + 1, as far as they exist. */
    method JoinUp(x: Limb, s: nat, j: nat)
      requires s < 32 && (j < pn.Length ==> pn[j] < Pow(2, s)) && forall t :: j < t < pn.Length ==> pn[t] == 0
      modifies pn
      ensures Value() == old(Value()) + (if j + 1 < pn.Length then Shr(x, 32 - s) * Radix(j + 1) else 0)
                         + (if j < pn.Length then Shl(x, s) * Radix(j) else 0)
      ensures j + 1 < pn.Length ==> pn[j + 1] < Pow(2, s)
      ensures forall t :: j + 1 < t < pn.Length ==> pn[t] == 0
    {
      hide Val, Radix, Pow, Or, Shl, Shr;
      SplitUp(x, s);
      if s == 0 {
        PowZero();
      }
      if j + 1 < pn.Length && s != 0 {
        OrZero(Shr(x, 32 - s));
        ValUpdate(pn[..], j + 1, Shr(x, 32 - s));
        pn[j + 1] := Or(pn[j + 1], Shr(x, 32 - s));
      }
      if j < pn.Length {
        OrIsSum(Shl(x, s), pn[j], s);
        ValUpdate(pn[..], j, pn[j] + Shl(x, s));
        pn[j] := Or(pn[j], Shl(x, s));
      }
    }

    /** Shifts towards the high limbs; bits that leave the top are lost. */
    method ShiftLeft(shift: nat)
      modifies pn
      ensures Value() == old(Value()) * Pow(2, shift) % Modulus()
    {
      hide Val, Radix, Pow, Shl, Shr;
      var a := new BaseUint.Copy(this);
      ghost var x := pn[..];
      Clear();
      var k, s := shift / 32, shift % 32;
      EmptySums(x, x);
      ghost var q := 0;
      var i := 0;
      while i < pn.Length
        invariant 0 <= i <= pn.Length && a.pn[..] == x && fresh(a.pn)
        invariant Value() + q * Modulus() == Val(x[..i]) * (Pow(2, s) * Radix(k))
        invariant i + k < pn.Length ==> pn[i + k] < Pow(2, s)
        invariant forall j :: i + k < j < pn.Length ==> pn[j] == 0
      {
        JoinUp(a.pn[i], s, i + k);
        ghost var more := ShiftedOut(Shr(x[i], 32 - s), Shl(x[i], s), i + k, pn.Length);
        ValPrefix(x, i);
        ShiftedIn(Val(x[..i]), x[i], s, i, k);
        Distribute(q, more, 0, Modulus());
        q := q + more;
        i := i + 1;
      }
      assert x[..i] == x;
      RadixIsPow(k);
      PowAdd(2, s, 32 * k);
      Residue(pn[..], q, Val(x) * Pow(2, shift));
    }

    /** Joins a limb shifted down by s bits to the limbs j and j - 1, as far as they exist. */
    method JoinDown(x: Limb, s: nat, j: int)
      requires s < 32 && j < pn.Length && (j >= 1 ==> pn[j - 1] < Pow(2, 32 - s))
      requires forall t :: 0 <= t < pn.Length && j <= t ==> pn[t] == 0
      modifies pn
      ensures Value() == old(Value()) + (if j >= 1 then Shl(x, 32 - s) * Radix(j - 1) else 0)
                         + (if j >= 0 then Shr(x, s) * Radix(j) else 0)
      ensures j >= 0 ==> pn[j] < Pow(2, 32 - s)
      ensures forall t :: 0 <= t < pn.Length && j < t ==> pn[t] == 0
    {
      hide Val, Radix, Pow, Or, Shl, Shr;
      SplitUp(x, 32 - s);
      if s == 0 {
        NoShift(x);
      }
      if j >= 1 && s != 0 {
        OrIsSum(Shl(x, 32 - s), pn[j - 1], 32 - s);
        ValUpdate(pn[..], j - 1, pn[j - 1] + Shl(x, 32 - s));
        pn[j - 1] := Or(pn[j - 1], Shl(x, 32 - s));
      }
      if j >= 0 {
        OrZero(Shr(x, s));
        ValUpdate(pn[..], j, Shr(x, s));
        pn[j] := Or(pn[j], Shr(x, s));
      }
    }

    /** Shifts towards the low limbs. */
    method ShiftRight(shift: nat)
      modifies pn
      ensures Value() == old(Value()) / Pow(2, shift)
    {
      hide Val, Radix, Pow, Shl, Shr;
      var a := new BaseUint.Copy(this);
      ghost var x := pn[..];
      Clear();
      var k, s := shift / 32, shift % 32;
      EmptySums(x, x);
      RadixStep(0);
      ghost var d, rem := Pow(2, s) * Radix(k), 0;
      MulAtLeast(Pow(2, s), Radix(k));
      var i := 0;
      while i < pn.Length
        invariant 0 <= i <= pn.Length && a.pn[..] == x && fresh(a.pn)
        invariant Val(x[..i]) == Value() * d + rem && 0 <= rem < d
        invariant i <= k ==> rem < Radix(i)
        invariant i > k ==> pn[i - k - 1] < Pow(2, 32 - s)
        invariant forall t :: 0 <= t < pn.Length && i - k <= t ==> pn[t] == 0
      {
        ghost var v := Value();
        JoinDown(a.pn[i], s, i - k);
        ValPrefix(x, i);
        rem := DownStep(v, rem, x[i], s, i, k);
        i := i + 1;
      }
      assert x[..i] == x;
      RadixIsPow(k);
      PowAdd(2, s, 32 * k);
      DivUnique(Val(x), Pow(2, shift), Value(), rem);
    }

    /** All bits up to number n are zero. */
    ghost predicate LowClear(n: int)
      reads pn
    {
      n >= 0 ==> n / 32 < pn.Length && pn[n / 32] % Pow(2, n % 32 + 1) == 0 && forall j :: 0 <= j < n / 32 ==> pn[j] == 0
    }

    lemma StillClear(n: nat)
      requires n / 32 < pn.Length && pn[n / 32] % Pow(2, n % 32) == 0 && forall j :: 0 <= j < n / 32 ==> pn[j] == 0
      ensures LowClear(n - 1)
    {
      hide Pow;
      if n > 0 && n % 32 == 0 {
        DivUnique(n - 1, 32, n / 32 - 1, 31);
        PowSmall();
      } else if n > 0 {
        DivUnique(n - 1, 32, n / 32, n % 32 - 1);
      }
    }

    method SetBit(n: nat)
      requires LowClear(n)
      modifies pn
      ensures Value() == old(Value()) + Pow(2, n) && LowClear(n - 1)
    {
      hide Val, Radix, Pow, Or;
      var k, t := n / 32, n % 32;
      NextBit(pn[k], t);
      OrIsSum(pn[k], Pow(2, t), t + 1);
      ValUpdate(pn[..], k, pn[k] + Pow(2, t));
      RadixIsPow(k);
      PowAdd(2, t, 32 * k);
      pn[k] := Or(pn[k], Pow(2, t));
      StillClear(n);
    }

    /** Subtracts the shifted divisor once if possible, and sets the bit of the quotient accordingly. */
    method TakeOnce(num: BaseUint, div: BaseUint, shift: nat, ghost d: nat)
      requires num.pn.Length == div.pn.Length && pn != num.pn && pn != div.pn && num.pn != div.pn
      requires LowClear(shift) && div.Value() == d * Pow(2, shift)
      modifies pn, num.pn
      ensures Value() * d + num.Value() == old(Value() * d + num.Value()) && LowClear(shift - 1)
      ensures old(num.Value()) < 2 * div.Value() ==> num.Value() < div.Value()
    {
      hide Val, Radix, Pow;
      ghost var v, m := Value(), num.Value();
      var c := num.CompareTo(div);
      if c >= 0 {
        SubFits(num.Value(), div.Value(), num.pn[..]);
        num.Sub(div);
        SetBit(shift);
        QuotientStep(v, Pow(2, shift), d, m);
      } else {
        ClearDown(shift);
      }
    }

    /** Long division by shifting and subtracting. Division by zero fails, after the quotient has been cleared. */
    method Divide(b: BaseUint) returns (ok: bool)
      requires pn.Length == b.pn.Length
      modifies pn
      ensures ok <==> old(b.Value()) != 0
      ensures Value() == if ok then old(Value()) / old(b.Value()) else 0
    {
      hide Val, Radix, Pow, LowClear;
      var div := new BaseUint.Copy(b);
      var num := new BaseUint.Copy(this);
      ghost var n, d := Value(), b.Value();
      Clear();
      var numBits := num.Bits();
      var divBits := div.Bits();
      if divBits == 0 {
        return false;
      }
      if divBits > numBits {
        TooSmall(n, d, numBits, divBits);
        return true;
      }
      Aligned(n, d, numBits, divBits, pn.Length);
      div.ShiftLeft(numBits - divBits);
      LowZero(numBits - divBits);
      SubtractDown(num, div, numBits - divBits, n, d);
      DivUnique(n, d, Value(), num.Value());
      return true;
    }

    /** The loop of the long division: from the highest bit of the quotient down to the lowest. */
    method SubtractDown(num: BaseUint, div: BaseUint, start: nat, ghost n: nat, ghost d: nat)
      requires num.pn.Length == div.pn.Length && pn != num.pn && pn != div.pn && num.pn != div.pn
      requires LowClear(start) && div.Value() == d * Pow(2, start)
      requires n == Value() * d + num.Value() && num.Value() < d * Pow(2, start + 1)
      modifies pn, num.pn, div.pn
      ensures n == Value() * d + num.Value() && num.Value() < d
    {
      hide Val, Radix, Pow, LowClear;
      var shift: int := start;
      while shift >= 0
        invariant -1 <= shift && LowClear(shift)
        invariant n == Value() * d + num.Value() && num.Value() < d * Pow(2, shift + 1)
        invariant shift >= 0 ==> div.Value() == d * Pow(2, shift)
      {
        HalfStep(d, shift);
        TakeOnce(num, div, shift, d);
        div.ShiftRight(1);
        shift := shift - 1;
      }
      PowZero();
    }

    lemma LowZero(n: nat)
      requires n / 32 < pn.Length && forall j :: 0 <= j < pn.Length ==> pn[j] == 0
      ensures LowClear(n)
    {
      DivUnique(0, Pow(2, n % 32 + 1), 0, 0);
    }

    lemma ClearDown(n: nat)
      requires LowClear(n)
      ensures LowClear(n - 1)
    {
      NextBit(pn[n / 32], n % 32);
      StillClear(n);
    }
  }

  /** A limb whose bits up to number t are zero has room for bit t. */
  lemma NextBit(x: Limb, t: nat)
    requires t < 32 && x % Pow(2, t + 1) == 0
    ensures x + Pow(2, t) < BASE && x % Pow(2, t) == 0 && (x + Pow(2, t)) % Pow(2, t) == 0
    ensures Pow(2, t) < Pow(2, t + 1)
  {
    hide Pow;
    PowSmall();
    PowAdd(2, t + 1, 31 - t);
    PowNext(2, t);
    RoomFor(x, Pow(2, t), x / Pow(2, t + 1), Pow(2, 31 - t));
  }

  lemma RoomFor(x: int, m: int, c: int, n: int)
    requires m > 0 && x == c * (2 * m) && x < BASE == 2 * m * n
    ensures x + m < BASE && x % m == 0 && (x + m) % m == 0
  {
    if c >= n {
      MulOrder(n, c, 2 * m);
    }
    MulOrder(c + 1, n, 2 * m);
    DivUnique(x, m, 2 * c, 0);
    DivUnique(x + m, m, 2 * c + 1, 0);
  }

  lemma TooSmall(n: nat, d: nat, numBits: nat, divBits: nat)
    requires numBits < divBits && Pow(2, divBits - 1) <= d && (n == 0 || n < Pow(2, numBits))
    ensures n / d == 0
  {
    PowGrows(2, numBits, divBits - 1);
    DivUnique(n, d, 0, n);
  }

  /** With the divisor shifted so that the highest bits align, nothing is lost and one bit more exceeds the dividend. */
  lemma Aligned(n: nat, d: nat, numBits: nat, divBits: nat, width: nat)
    requires 0 < divBits <= numBits <= 32 * width
    requires n < Pow(2, numBits) && Pow(2, divBits - 1) <= d < Pow(2, divBits)
    ensures d * Pow(2, numBits - divBits) % Radix(width) == d * Pow(2, numBits - divBits)
    ensures n < d * Pow(2, numBits - divBits + 1)
  {
    hide Pow, Radix;
    var s := numBits - divBits;
    PowAdd(2, divBits, s);
    PowAdd(2, divBits - 1, s + 1);
    MulOrder(d + 1, Pow(2, divBits), Pow(2, s));
    MulOrder(Pow(2, divBits - 1), d, Pow(2, s + 1));
    RadixIsPow(width);
    PowGrows(2, numBits, 32 * width);
    DivUnique(d * Pow(2, s), Radix(width), 0, d * Pow(2, s));
  }

  lemma QuotientStep(v: int, p: int, d: int, m: int)
    ensures (v + p) * d + (m - d * p) == v * d + m
  {}

  lemma HalfStep(d: nat, shift: nat)
    ensures d * Pow(2, shift + 1) == 2 * (d * Pow(2, shift))
    ensures shift > 0 ==> d * Pow(2, shift) / Pow(2, 1) == d * Pow(2, shift - 1)
  {
    assert d * (2 * Pow(2, shift)) == 2 * (d * Pow(2, shift));
    if shift > 0 {
      assert d * (2 * Pow(2, shift - 1)) == 2 * (d * Pow(2, shift - 1));
      PowZero();
    }
  }

  lemma SubFits(x: nat, y: nat, s: seq<Limb>)
    requires y <= x == Val(s)
    ensures (x - y) % Radix(|s|) == x - y
  {
    ValBound(s);
    DivUnique(x - y, Radix(|s|), 0, x - y);
  }

  /** One round of the shift down, with the remainder of the division so far. */
  lemma DownStep(v: nat, rem: nat, x: Limb, s: nat, i: nat, k: nat) returns (r: nat)
    requires s < 32 && rem < Pow(2, s) * Radix(k) && (i <= k ==> rem < Radix(i))
    ensures v * (Pow(2, s) * Radix(k)) + rem + x * Radix(i)
         == (v + (if i > k then Shl(x, 32 - s) * Radix(i - k - 1) else 0)
             + (if i >= k then Shr(x, s) * Radix(i - k) else 0)) * (Pow(2, s) * Radix(k)) + r
    ensures r < Pow(2, s) * Radix(k) && (i < k ==> r < Radix(i + 1))
  {
    hide Pow, Radix, Shl, Shr;
    var d := Pow(2, s) * Radix(k);
    if i > k {
      DownHigh(x, s, i, k);
      Distribute(v, Shl(x, 32 - s) * Radix(i - k - 1), Shr(x, s) * Radix(i - k), d);
      r := rem;
    } else if i == k {
      RadixStep(0);
      DownMiddle(rem, x, s, k);
      Distribute(v, Shr(x, s), 0, d);
      r := rem + x % Pow(2, s) * Radix(k);
    } else {
      DownLow(rem, x, s, i, k);
      r := rem + x * Radix(i);
    }
  }

  lemma DownLow(rem: nat, x: Limb, s: nat, i: nat, k: nat)
    requires s < 32 && i < k && rem < Radix(i)
    ensures rem + x * Radix(i) < Radix(i + 1) <= Pow(2, s) * Radix(k)
  {
    hide Pow, Radix;
    Below(rem, x, Radix(i), BASE);
    RadixStep(i);
    RadixAdd(i + 1, k - i - 1);
    MulAtLeast(Radix(k - i - 1), Radix(i + 1));
    MulAtLeast(Pow(2, s), Radix(k));
  }

  lemma DownMiddle(rem: nat, x: Limb, s: nat, k: nat)
    requires s < 32 && rem < Radix(k)
    ensures x * Radix(k) == Shr(x, s) * (Pow(2, s) * Radix(k)) + x % Pow(2, s) * Radix(k)
    ensures 0 <= rem + x % Pow(2, s) * Radix(k) < Pow(2, s) * Radix(k)
  {
    hide Pow, Radix, Shl, Shr;
    SplitUp(x, 32 - s);
    var m, l := Pow(2, s), x % Pow(2, s);
    Spread(l, Shr(x, s), m, Radix(k));
    Below(rem, l, Radix(k), m);
    MulOrder(0, l, Radix(k));
  }

  lemma DownHigh(x: Limb, s: nat, i: nat, k: nat)
    requires s < 32 && i > k
    ensures x * Radix(i) == Shl(x, 32 - s) * Radix(i - k - 1) * (Pow(2, s) * Radix(k))
                            + Shr(x, s) * Radix(i - k) * (Pow(2, s) * Radix(k))
  {
    hide Pow, Radix, Shl, Shr;
    SplitUp(x, 32 - s);
    PowSmall();
    PowAdd(2, s, 32 - s);
    RadixAdd(i - k, k);
    RadixStep(i - k - 1);
    Rejoin(Shr(x, s), x % Pow(2, s), Pow(2, s), Pow(2, 32 - s), Radix(i - k - 1), Radix(k));
  }

  lemma Rejoin(h: int, l: int, m: int, n: int, r: int, q: int)
    requires m * n == BASE
    ensures (h * m + l) * (BASE * r * q) == l * n * r * (m * q) + h * (BASE * r) * (m * q)
  {
    assert l * n * r * (m * q) == l * (m * n) * (r * q);
    assert h * (BASE * r) * (m * q) == h * m * (BASE * (r * q));
  }

  lemma NoShift(x: Limb)
    ensures Shl(x, 32) == 0 && Shr(x, 0) == x
  {
    PowSmall();
    DivUnique(x * BASE, BASE, x, 0);
  }

  predicate BitSet(x: nat, n: nat) {
    x / Pow(2, n) % 2 == 1
  }

  lemma PowZero()
    ensures Pow(2, 0) == 1 && Pow(2, 1) == 2
  {}

  lemma OrZero(b: nat)
    ensures Or(0, b) == b
  {}

  /** Below the next power of two, the top bit tells whether the number reaches this one. */
  lemma TopBit(x: nat, n: nat)
    requires x < Pow(2, n + 1)
    ensures BitSet(x, n) <==> Pow(2, n) <= x
  {
    var m := Pow(2, n);
    if m <= x {
      DivUnique(x, m, 1, x - m);
    } else {
      DivUnique(x, m, 0, x);
    }
  }

  /** Limbs above a non-zero one that are all zero do not matter. */
  lemma TopLimb(s: seq<Limb>, i: nat)
    requires i < |s| && forall j :: i < j < |s| ==> s[j] == 0
    ensures Val(s) == Val(s[..i]) + s[i] * Radix(i)
  {
    hide Val, Radix;
    assert s == s[..i + 1] + s[i + 1..];
    ValConcat(s[..i + 1], s[i + 1..]);
    ValZero(s[i + 1..]);
    ValPrefix(s, i);
  }

  lemma AboveWords(s: seq<Limb>, i: nat)
    requires 2 <= i < |s| && s[i] > 0 && forall j :: i < j < |s| ==> s[j] == 0
    ensures Val(s) > MAX64
  {
    hide Val, Radix;
    TopLimb(s, i);
    MulAtLeast(s[i], Radix(i));
    RadixAdd(2, i - 2);
    MulAtLeast(Radix(i - 2), Radix(2));
    RadixStep(0);
    RadixStep(1);
  }

  lemma BitsAt(s: seq<Limb>, pos: nat, t: nat)
    requires pos < |s| && t < 32 && Pow(2, t) <= s[pos] < Pow(2, t + 1)
    requires forall j :: pos < j < |s| ==> s[j] == 0
    ensures Pow(2, 32 * pos + t) <= Val(s) < Pow(2, 32 * pos + t + 1)
  {
    hide Val, Radix, Pow;
    TopLimb(s, pos);
    ValBound(s[..pos]);
    Below(Val(s[..pos]), s[pos], Radix(pos), Pow(2, t + 1));
    MulOrder(Pow(2, t), s[pos], Radix(pos));
    RadixIsPow(pos);
    PowAdd(2, 32 * pos, t);
    PowAdd(2, 32 * pos, t + 1);
  }

  /** A limb shifted up, keeping 32 bits. */
  function Shl(x: Limb, n: nat): Limb {
    x * Pow(2, n) % BASE
  }

  /** A limb shifted down. */
  function Shr(x: Limb, n: nat): Limb {
    ShrFits(x, Pow(2, n));
    x / Pow(2, n)
  }

  lemma ShrFits(x: nat, m: nat)
    requires m > 0
    ensures x / m <= x
  {
    if x / m > x {
      MulOrder(x + 1, x / m, m);
      MulAtLeast(m, x + 1);
    }
  }

  /** A limb shifted up by s bits: what leaves it, and what stays. */
  lemma SplitUp(x: Limb, s: nat)
    requires s <= 32
    ensures x * Pow(2, s) == Shr(x, 32 - s) * BASE + Shl(x, s)
    ensures Shr(x, 32 - s) < Pow(2, s) <= BASE
    ensures Shl(x, s) % Pow(2, s) == 0 && Shl(x, s) + Pow(2, s) <= BASE
    ensures x == Shr(x, 32 - s) * Pow(2, 32 - s) + x % Pow(2, 32 - s) && Shl(x, s) == x % Pow(2, 32 - s) * Pow(2, s)
  {
    hide Pow;
    var m, n := Pow(2, s), Pow(2, 32 - s);
    PowSmall();
    PowAdd(2, s, 32 - s);
    var h, r := x / n, x % n;
    assert x == h * n + r;
    assert x * m == h * (m * n) + r * m;
    MulOrder(r + 1, n, m);
    MulOrder(0, r, m);
    DivUnique(x * m, BASE, h, r * m);
    DivUnique(r * m, m, r, 0);
    if h >= m {
      MulOrder(m, h, n);
    }
    MulAtLeast(n, m);
  }

  /** The part of a shifted limb that lies above the top limb is a multiple of the modulus. */
  lemma ShiftedOut(h: nat, l: nat, j: nat, width: nat) returns (q: nat)
    ensures h * Radix(j + 1) + l * Radix(j)
         == (if j + 1 < width then h * Radix(j + 1) else 0) + (if j < width then l * Radix(j) else 0) + q * Radix(width)
  {
    hide Radix;
    q := 0;
    if j + 1 >= width {
      var d := j + 1 - width;
      RadixAdd(d, width);
      if j >= width {
        RadixAdd(d - 1, width);
        q := h * Radix(d) + l * Radix(d - 1);
        assert q * Radix(width) == h * (Radix(d) * Radix(width)) + l * (Radix(d - 1) * Radix(width));
      } else {
        RadixStep(0);
        q := h;
      }
    }
  }

  lemma ShiftedIn(v: int, x: Limb, s: nat, i: nat, k: nat)
    requires s < 32
    ensures (v + x * Radix(i)) * (Pow(2, s) * Radix(k))
         == v * (Pow(2, s) * Radix(k)) + Shr(x, 32 - s) * Radix(i + k + 1) + Shl(x, s) * Radix(i + k)
  {
    hide Pow, Radix, Shl, Shr;
    SplitUp(x, s);
    RadixAdd(i, k);
    RadixStep(i + k);
    Regroup(v, x, Radix(i), Radix(k), Pow(2, s), Shr(x, 32 - s), Shl(x, s));
  }

  lemma Regroup(v: int, x: int, r: int, q: int, m: int, h: int, l: int)
    requires x * m == h * BASE + l
    ensures (v + x * r) * (m * q) == v * (m * q) + h * (BASE * (r * q)) + l * (r * q)
  {
    Spread(v, x, r, m * q);
    assert x * (m * q * r) == (x * m) * (r * q);
    assert (h * BASE + l) * (r * q) == h * (BASE * (r * q)) + l * (r * q);
  }

  lemma LowWords(s: seq<Limb>, b: nat)
    requires |s| >= 2 && b <= MAX64 && s[0] == b % BASE && s[1] == b / BASE
    requires forall i :: 2 <= i < |s| ==> s[i] == 0
    ensures Val(s) == b
  {
    assert s == s[..2] + s[2..];
    ValConcat(s[..2], s[2..]);
    ValZero(s[2..]);
    ValPrefix(s, 1);
    ValPrefix(s, 0);
  }

  lemma LowPart(s: seq<Limb>)
    requires |s| >= 2
    ensures Val(s) % (BASE * BASE) == s[0] + s[1] * BASE
  {
    hide Val, Radix;
    assert s == s[..2] + s[2..];
    ValConcat(s[..2], s[2..]);
    DivUnique(s[0] + s[1] * BASE, BASE, s[1], s[0]);
    LowWords(s[..2], s[0] + s[1] * BASE);
    RadixStep(0);
    RadixStep(1);
    DivUnique(Val(s), BASE * BASE, Val(s[2..]), s[0] + s[1] * BASE);
  }

  lemma ProductFits(x: int, y: int)
    requires 0 <= x < BASE && 0 <= y < BASE
    ensures 0 <= x * y <= 0xffff_fffe_0000_0001
  {
    MulOrder(0, x, y);
    MulOrder(x, BASE - 1, y);
  }

  lemma TimesDigit(v: int, d: int, r: int, b: int, carry: int)
    ensures (v + d * r) * b == v * b + (carry + b * d) * r - carry * r
  {
    assert (d * r) * b == (b * d) * r;
    assert (carry + b * d) * r == carry * r + (b * d) * r;
  }

  lemma RowDigit(p: int, d: int, v: int, i: nat, j: nat, carry: int, was: int, n: nat)
    requires n == carry + was + p * d
    ensures (n % BASE - was) * Radix(i + j) + (n / BASE) * Radix(i + 1 + j) - carry * Radix(i + j)
         == p * Radix(j) * (v + d * Radix(i)) - p * Radix(j) * v
  {
    hide Radix;
    CarrySplit(n, i + j);
    RadixAdd(i, j);
    Spread(v, d, Radix(i), p * Radix(j));
    assert d * (p * Radix(j) * Radix(i)) == (p * d) * (Radix(i) * Radix(j));
    Distribute(carry, was, p * d, Radix(i + j));
  }

  /** What the last carry and the limbs that were left out amount to is a multiple of the modulus. */
  lemma RowRest(p: int, y: seq<Limb>, j: nat, carry: int) returns (q: nat)
    requires 0 <= p && 0 <= carry && j < |y|
    ensures p * Radix(j) * Val(y) == p * Radix(j) * Val(y[..|y| - j]) + q * Radix(|y|) - carry * Radix(|y|)
  {
    hide Radix, Val;
    var k := |y| - j;
    var high := Val(y[k..]);
    assert y == y[..k] + y[k..];
    ValConcat(y[..k], y[k..]);
    RadixAdd(k, j);
    Spread(Val(y[..k]), high, Radix(k), p * Radix(j));
    assert high * (p * Radix(j) * Radix(k)) == (p * high) * (Radix(k) * Radix(j));
    q := carry + p * high;
  }

  lemma NextRow(v: int, d: int, r: int, y: int, q: int, more: int, m: int)
    ensures (v + d * r) * y == v * y + d * r * y
    ensures (q + more) * m == q * m + more * m
  {}

  /** Adding the complement subtracts. */
  lemma SubMod(x: int, y: int, m: int)
    requires m > 0
    ensures (x + (m - y) % m) % m == (x - y) % m
  {
    var q := (m - y) / m;
    var z := x + (m - y) % m;
    assert m - y == m * q + (m - y) % m;
    assert x - y == z + m * (q - 1);
    assert z == m * (z / m) + z % m;
    assert x - y == (z / m + q - 1) * m + z % m;
    DivUnique(x - y, m, z / m + q - 1, z % m);
  }

  lemma EmptySums(x: seq<Limb>, y: seq<Limb>)
    ensures Val(x[..0]) == 0 && Val(y[..0]) == 0
  {}
}
