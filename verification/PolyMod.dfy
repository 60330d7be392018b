/** The Bech32 checksum: polynomials over GF(32) modulo the generator, packed into 30 bits. */
module PolyMods {

  /** Six coefficients of five bits each; the two highest bits are zero. */
  predicate Fits(c: bv32) {
    c < 0x4000_0000
  }

  function Xor(a: bv32, b: bv32): bv32 {
    a ^ b
  }

  function Plus(u: bv8, v: bv8): bv8 {
    u ^ v
  }

  // ---------- One step ----------

  /** Whether a bit of the leading coefficient is set. */
  predicate Top(c: bv32, bit: bv32) {
    (c >> 25) & bit != 0
  }

  function Shifted(c: bv32, v: bv8): bv32 {
    ((c & 0x1ffffff) << 5) ^ (v as bv32)
  }

  function CondXor(r: bv32, on: bool, k: bv32): bv32 {
    if on then Xor(r, k) else r
  }

  /** One more coefficient: multiply by x, add v, and reduce by the multiples of the generator. */
  function Step(c: bv32, v: bv8): bv32 {
    var r := CondXor(Shifted(c, v), Top(c, 1), 0x3b6a57b2);
    var r := CondXor(r, Top(c, 2), 0x26508e6d);
    var r := CondXor(r, Top(c, 4), 0x1ea119fa);
    var r := CondXor(r, Top(c, 8), 0x3d4233dd);
    CondXor(r, Top(c, 16), 0x2a1462b3)
  }

  lemma StepFits(c: bv32, v: bv8)
    ensures Fits(Step(c, v))
  {
    hide Xor, Shifted, Top, CondXor;
    ShiftedFits(c, v);
    var r := Shifted(c, v);
    CondFits(r, Top(c, 1), 0x3b6a57b2);
    var r1 := CondXor(r, Top(c, 1), 0x3b6a57b2);
    CondFits(r1, Top(c, 2), 0x26508e6d);
    var r2 := CondXor(r1, Top(c, 2), 0x26508e6d);
    CondFits(r2, Top(c, 4), 0x1ea119fa);
    var r3 := CondXor(r2, Top(c, 4), 0x1ea119fa);
    CondFits(r3, Top(c, 8), 0x3d4233dd);
    CondFits(CondXor(r3, Top(c, 8), 0x3d4233dd), Top(c, 16), 0x2a1462b3);
  }

  lemma ShiftedFits(c: bv32, v: bv8)
    ensures Fits(Shifted(c, v))
  {}

  lemma CondFits(r: bv32, on: bool, k: bv32)
    requires Fits(r) && Fits(k)
    ensures Fits(CondXor(r, on, k))
  {
    hide Xor, Fits;
    XorFits(r, k);
  }

  lemma TopBit(c: bv32, d: bv32, bit: bv32)
    requires bit == 1 || bit == 2 || bit == 4 || bit == 8 || bit == 16
    ensures (((c ^ d) >> 25) & bit != 0) == (((c >> 25) & bit != 0) != ((d >> 25) & bit != 0))
  {}

  lemma TopLinear(c: bv32, d: bv32, bit: bv32)
    requires bit == 1 || bit == 2 || bit == 4 || bit == 8 || bit == 16
    ensures Top(Xor(c, d), bit) == (Top(c, bit) != Top(d, bit))
  {
    TopBit(c, d, bit);
  }

  lemma ShiftedLinear(c: bv32, u: bv8, d: bv32, v: bv8)
    ensures Shifted(Xor(c, d), Plus(u, v)) == Xor(Shifted(c, u), Shifted(d, v))
  {}

  lemma AssocBits(r: bv32, s: bv32, k: bv32)
    ensures r ^ (s ^ k) == (r ^ s) ^ k
  {}

  lemma XorAssoc(r: bv32, s: bv32, k: bv32)
    ensures Xor(r, Xor(s, k)) == Xor(Xor(r, s), k)
  {
    AssocBits(r, s, k);
  }

  lemma XorComm(r: bv32, s: bv32)
    ensures Xor(r, s) == Xor(s, r)
  {}

  lemma XorSelf(r: bv32)
    ensures Xor(r, r) == 0 && Xor(r, 0) == r && Xor(0, r) == r
  {}

  lemma XorSwap(r: bv32, s: bv32, k: bv32)
    ensures Xor(Xor(r, k), s) == Xor(Xor(r, s), k)
  {
    hide Xor;
    XorAssoc(r, k, s);
    XorComm(k, s);
    XorAssoc(r, s, k);
  }

  lemma XorCancel(r: bv32, s: bv32, k: bv32)
    ensures Xor(Xor(r, k), Xor(s, k)) == Xor(r, s)
  {
    hide Xor;
    XorAssoc(Xor(r, k), s, k);
    XorSwap(r, s, k);
    XorAssoc(Xor(r, s), k, k);
    XorSelf(k);
    XorSelf(Xor(r, s));
  }

  lemma CondLinear(r: bv32, c: bv32, s: bv32, d: bv32, bit: bv32, k: bv32)
    requires bit == 1 || bit == 2 || bit == 4 || bit == 8 || bit == 16
    ensures CondXor(Xor(r, s), Top(Xor(c, d), bit), k) == Xor(CondXor(r, Top(c, bit), k), CondXor(s, Top(d, bit), k))
  {
    hide Xor, Top;
    TopLinear(c, d, bit);
    XorCancel(r, s, k);
    XorSwap(r, s, k);
    XorAssoc(r, s, k);
  }

  /** The step is linear. */
  lemma StepLinear(c: bv32, u: bv8, d: bv32, v: bv8)
    ensures Step(Xor(c, d), Plus(u, v)) == Xor(Step(c, u), Step(d, v))
  {
    hide Top, Shifted, CondXor, Xor, Plus;
    ShiftedLinear(c, u, d, v);
    var r1, s1 := Shifted(c, u), Shifted(d, v);
    CondLinear(r1, c, s1, d, 1, 0x3b6a57b2);
    var r2, s2 := CondXor(r1, Top(c, 1), 0x3b6a57b2), CondXor(s1, Top(d, 1), 0x3b6a57b2);
    CondLinear(r2, c, s2, d, 2, 0x26508e6d);
    var r3, s3 := CondXor(r2, Top(c, 2), 0x26508e6d), CondXor(s2, Top(d, 2), 0x26508e6d);
    CondLinear(r3, c, s3, d, 4, 0x1ea119fa);
    var r4, s4 := CondXor(r3, Top(c, 4), 0x1ea119fa), CondXor(s3, Top(d, 4), 0x1ea119fa);
    CondLinear(r4, c, s4, d, 8, 0x3d4233dd);
    var r5, s5 := CondXor(r4, Top(c, 8), 0x3d4233dd), CondXor(s4, Top(d, 8), 0x3d4233dd);
    CondLinear(r5, c, s5, d, 16, 0x2a1462b3);
  }

  // ---------- Division over GF(32) ----------

  /** In GF(32), elements are polynomials in a with bits for coefficients, modulo a^5 + a^3 + 1. This is multiplication by a. */
  function TimesA(u: bv8): bv8 {
    ((u << 1) & 31) ^ (if u & 16 != 0 then 9 else 0)
  }

  /** Multiplication in GF(32). */
  function Times(u: bv8, v: bv8): bv8 {
    var u1 := TimesA(u);
    var u2 := TimesA(u1);
    var u3 := TimesA(u2);
    Plus(Plus(Plus(Plus(Part(v, 1, u), Part(v, 2, u1)), Part(v, 4, u2)), Part(v, 8, u3)), Part(v, 16, TimesA(u3)))
  }

  function Part(v: bv8, bit: bv8, u: bv8): bv8 {
    if v & bit != 0 then u else 0
  }

  /** The two examples that come with the description of the field. */
  lemma TimesExamples()
    ensures Plus(27, 13) == 22 && Times(5, 26) == 9
  {
    hide TimesA, Part;
    assert TimesA(5) == 10 && TimesA(10) == 20 && TimesA(20) == 1 && TimesA(1) == 2 by { Doublings(); }
    assert Part(26, 1, 5) == 0 && Part(26, 2, 10) == 10 && Part(26, 4, 20) == 0 && Part(26, 8, 1) == 1 && Part(26, 16, 2) == 2 by {
      Parts();
    }
  }

  lemma Doublings()
    ensures TimesA(5) == 10 && TimesA(10) == 20 && TimesA(20) == 1 && TimesA(1) == 2
  {
  }

  lemma Parts()
    ensures Part(26, 1, 5) == 0 && Part(26, 2, 10) == 10 && Part(26, 4, 20) == 0 && Part(26, 8, 1) == 1 && Part(26, 16, 2) == 2
  {
  }

  /** The coefficient of x^k. */
  function Coefficient(c: bv32, k: nat): bv8
    requires k <= 5
  {
    if k == 0 then (c & 31) as bv8 else if k == 1 then ((c >> 5) & 31) as bv8 else if k == 2 then ((c >> 10) & 31) as bv8
    else if k == 3 then ((c >> 15) & 31) as bv8 else if k == 4 then ((c >> 20) & 31) as bv8 else ((c >> 25) & 31) as bv8
  }

  /** Below x^6, the generator is 29 x^5 + 22 x^4 + 20 x^3 + 21 x^2 + 29 x + 18. */
  function Generator(k: nat): bv8
    requires k <= 5
  {
    if k == 0 then 18 else if k == 1 then 29 else if k == 2 then 21 else if k == 3 then 20 else if k == 4 then 22 else 29
  }

  /**
    One step of a division by the generator, coefficient by coefficient: everything moves up by one power of x, v comes in
    below, and the multiple of the generator by the coefficient that comes to x^6 is taken off.
   */
  lemma StepDivides(c: bv32, v: bv8, k: nat)
    requires Fits(c) && v < 32 && k <= 5
    ensures Coefficient(Step(c, v), k)
         == Plus(if k == 0 then v else Coefficient(c, k - 1), Times(Generator(k), Coefficient(c, 5)))
  {
    hide Top, Shifted, CondXor, Plus, Part, Coefficient, TimesA, Fits;
    GeneratorMultiples(k);
    var r1 := CondXor(Shifted(c, v), Top(c, 1), 0x3b6a57b2);
    var r2 := CondXor(r1, Top(c, 2), 0x26508e6d);
    var r3 := CondXor(r2, Top(c, 4), 0x1ea119fa);
    var r4 := CondXor(r3, Top(c, 8), 0x3d4233dd);
    ShiftedCoefficient(c, v, k);
    CondCoefficient(Shifted(c, v), c, 1, 1, 0x3b6a57b2, k);
    CondCoefficient(r1, c, 2, 2, 0x26508e6d, k);
    CondCoefficient(r2, c, 4, 4, 0x1ea119fa, k);
    CondCoefficient(r3, c, 8, 8, 0x3d4233dd, k);
    CondCoefficient(r4, c, 16, 16, 0x2a1462b3, k);
    var t, g := Coefficient(c, 5), Generator(k);
    var g1 := TimesA(g);
    var g2 := TimesA(g1);
    var g3 := TimesA(g2);
    PlusFive(Coefficient(Shifted(c, v), k), Part(t, 1, g), Part(t, 2, g1), Part(t, 4, g2), Part(t, 8, g3), Part(t, 16, TimesA(g3)));
  }

  /** The constants are the products of the generator with 1, a, a^2, a^3 and a^4. */
  lemma GeneratorMultiples(k: nat)
    requires k <= 5
    ensures var g := Generator(k); var g1 := TimesA(g); var g2 := TimesA(g1); var g3 := TimesA(g2);
      && Coefficient(0x3b6a57b2, k) == g && Coefficient(0x26508e6d, k) == g1 && Coefficient(0x1ea119fa, k) == g2
      && Coefficient(0x3d4233dd, k) == g3 && Coefficient(0x2a1462b3, k) == TimesA(g3)
  {
  }

  lemma CondCoefficient(r: bv32, c: bv32, bit: bv32, b: bv8, g: bv32, k: nat)
    requires k <= 5 && Fits(c)
    requires (bit == 1 && b == 1) || (bit == 2 && b == 2) || (bit == 4 && b == 4) || (bit == 8 && b == 8) || (bit == 16 && b == 16)
    ensures Coefficient(CondXor(r, Top(c, bit), g), k) == Plus(Coefficient(r, k), Part(Coefficient(c, 5), b, Coefficient(g, k)))
  {
    hide Top, Xor, Plus, Coefficient, Fits;
    TopBits(c, bit, b);
    XorCoefficient(r, g, k);
    PlusSelf(Coefficient(r, k), 0);
  }

  lemma XorCoefficient(r: bv32, g: bv32, k: nat)
    requires k <= 5
    ensures Coefficient(Xor(r, g), k) == Plus(Coefficient(r, k), Coefficient(g, k))
  {
    hide Coefficient, Xor, Plus;
    if k == 0 {
      XorCoefficient0(r, g);
    } else if k == 1 {
      XorCoefficient1(r, g);
    } else if k == 2 {
      XorCoefficient2(r, g);
    } else if k == 3 {
      XorCoefficient3(r, g);
    } else if k == 4 {
      XorCoefficient4(r, g);
    } else {
      XorCoefficient5(r, g);
    }
  }

  lemma XorCoefficient0(r: bv32, g: bv32)
    ensures Coefficient(Xor(r, g), 0) == Plus(Coefficient(r, 0), Coefficient(g, 0))
  {
  }

  lemma XorCoefficient1(r: bv32, g: bv32)
    ensures Coefficient(Xor(r, g), 1) == Plus(Coefficient(r, 1), Coefficient(g, 1))
  {
  }

  lemma XorCoefficient2(r: bv32, g: bv32)
    ensures Coefficient(Xor(r, g), 2) == Plus(Coefficient(r, 2), Coefficient(g, 2))
  {
  }

  lemma XorCoefficient3(r: bv32, g: bv32)
    ensures Coefficient(Xor(r, g), 3) == Plus(Coefficient(r, 3), Coefficient(g, 3))
  {
  }

  lemma XorCoefficient4(r: bv32, g: bv32)
    ensures Coefficient(Xor(r, g), 4) == Plus(Coefficient(r, 4), Coefficient(g, 4))
  {
  }

  lemma XorCoefficient5(r: bv32, g: bv32)
    ensures Coefficient(Xor(r, g), 5) == Plus(Coefficient(r, 5), Coefficient(g, 5))
  {
  }

  lemma TopBits(c: bv32, bit: bv32, b: bv8)
    requires Fits(c)
    requires (bit == 1 && b == 1) || (bit == 2 && b == 2) || (bit == 4 && b == 4) || (bit == 8 && b == 8) || (bit == 16 && b == 16)
    ensures Top(c, bit) <==> Coefficient(c, 5) & b != 0
  {
  }

  lemma ShiftedCoefficient(c: bv32, v: bv8, k: nat)
    requires v < 32 && k <= 5
    ensures Coefficient(Shifted(c, v), k) == if k == 0 then v else Coefficient(c, k - 1)
  {
    hide Coefficient, Shifted;
    if k == 0 {
      ShiftedCoefficient0(c, v);
    } else if k == 1 {
      ShiftedCoefficient1(c, v);
    } else if k == 2 {
      ShiftedCoefficient2(c, v);
    } else if k == 3 {
      ShiftedCoefficient3(c, v);
    } else if k == 4 {
      ShiftedCoefficient4(c, v);
    } else {
      ShiftedCoefficient5(c, v);
    }
  }

  lemma ShiftedCoefficient0(c: bv32, v: bv8)
    requires v < 32
    ensures Coefficient(Shifted(c, v), 0) == v
  {
  }

  lemma ShiftedCoefficient1(c: bv32, v: bv8)
    requires v < 32
    ensures Coefficient(Shifted(c, v), 1) == Coefficient(c, 0)
  {
  }

  lemma ShiftedCoefficient2(c: bv32, v: bv8)
    requires v < 32
    ensures Coefficient(Shifted(c, v), 2) == Coefficient(c, 1)
  {
  }

  lemma ShiftedCoefficient3(c: bv32, v: bv8)
    requires v < 32
    ensures Coefficient(Shifted(c, v), 3) == Coefficient(c, 2)
  {
  }

  lemma ShiftedCoefficient4(c: bv32, v: bv8)
    requires v < 32
    ensures Coefficient(Shifted(c, v), 4) == Coefficient(c, 3)
  {
  }

  lemma ShiftedCoefficient5(c: bv32, v: bv8)
    requires v < 32
    ensures Coefficient(Shifted(c, v), 5) == Coefficient(c, 4)
  {
  }

  lemma PlusFive(s: bv8, a: bv8, b: bv8, c: bv8, d: bv8, e: bv8)
    ensures Plus(Plus(Plus(Plus(Plus(s, a), b), c), d), e) == Plus(s, Plus(Plus(Plus(Plus(a, b), c), d), e))
  {
  }

  /** Six coefficients are all there is. */
  lemma CoefficientsAre(c: bv32, d: bv32)
    requires Fits(c) && Fits(d) && forall k :: 0 <= k <= 5 ==> Coefficient(c, k) == Coefficient(d, k)
    ensures c == d
  {
    assert Coefficient(c, 0) == Coefficient(d, 0) && Coefficient(c, 1) == Coefficient(d, 1) && Coefficient(c, 2) == Coefficient(d, 2)
        && Coefficient(c, 3) == Coefficient(d, 3) && Coefficient(c, 4) == Coefficient(d, 4) && Coefficient(c, 5) == Coefficient(d, 5);
  }

  /** Only the zero state steps to zero. */
  lemma StepInjective(c: bv32)
    requires Fits(c) && Step(c, 0) == 0
    ensures c == 0
  {}

  // ---------- Whole inputs ----------

  function RunFrom(c: bv32, v: seq<bv8>): bv32 {
    if v == [] then c else Step(RunFrom(c, v[..|v| - 1]), v[|v| - 1])
  }

  /** The remainder of the polynomial with the given coefficients, and a one in front. */
  function PolyMod(v: seq<bv8>): bv32 {
    RunFrom(1, v)
  }

  method ComputePolyMod(v: seq<bv8>) returns (c: bv32)
    ensures c == PolyMod(v)
  {
    hide Step;
    c := 1;
    var i := 0;
    while i < |v|
      invariant 0 <= i <= |v| && c == RunFrom(1, v[..i])
    {
      assert v[..i + 1][..i] == v[..i];
      c := Step(c, v[i]);
      i := i + 1;
    }
    assert v[..i] == v;
  }

  predicate AreSymbols(v: seq<bv8>) {
    forall i :: 0 <= i < |v| ==> v[i] < 32
  }

  function PlusAll(u: seq<bv8>, v: seq<bv8>): (r: seq<bv8>)
    requires |u| == |v|
    ensures |r| == |u| && forall i :: 0 <= i < |u| ==> r[i] == Plus(u[i], v[i])
  {
    seq(|u|, i requires 0 <= i < |u| => Plus(u[i], v[i]))
  }

  function Zeros(n: nat): (r: seq<bv8>)
    ensures |r| == n && forall i :: 0 <= i < n ==> r[i] == 0
  {
    seq(n, _ => 0)
  }

  lemma RunNext(c: bv32, v: seq<bv8>, x: bv8)
    ensures RunFrom(c, v + [x]) == Step(RunFrom(c, v), x)
  {
    hide Step;
    assert (v + [x])[..|v|] == v;
  }

  /** The remainder for the human-readable part "a" and no data. */
  lemma KnownRemainder()
    ensures PolyMod([3, 0, 1] + Zeros(6)) == 0x15ccfe9e
  {
    hide Step, RunFrom;
    var v: seq<bv8> := [];
    assert RunFrom(1, v) == 1 by { RunNothing(1); }
    RunNext(1, v, 3);
    RunNext(1, v + [3], 0);
    RunNext(1, v + [3] + [0], 1);
    var w := v + [3] + [0] + [1];
    RunNext(1, w, 0);
    RunNext(1, w + [0], 0);
    RunNext(1, w + [0] + [0], 0);
    RunNext(1, w + [0] + [0] + [0], 0);
    RunNext(1, w + [0] + [0] + [0] + [0], 0);
    RunNext(1, w + [0] + [0] + [0] + [0] + [0], 0);
    KnownSteps();
    assert [3, 0, 1] + Zeros(6) == w + [0] + [0] + [0] + [0] + [0] + [0];
  }

  lemma RunNothing(c: bv32)
    ensures RunFrom(c, []) == c
  {
  }

  lemma KnownSteps()
    ensures Step(1, 3) == 0x23 && Step(0x23, 0) == 0x460 && Step(0x460, 1) == 0x8c01 && Step(0x8c01, 0) == 0x118020
    ensures Step(0x118020, 0) == 0x2300400 && Step(0x2300400, 0) == 0x3d6ad7b2 && Step(0x3d6ad7b2, 0) == 0x2fd30b9
    ensures Step(0x2fd30b9, 0) == 0x24cc4092 && Step(0x24cc4092, 0) == 0x15ccfe9e
  {
  }

  lemma {:induction false} RunConcat(c: bv32, u: seq<bv8>, v: seq<bv8>)
    ensures RunFrom(c, u + v) == RunFrom(RunFrom(c, u), v)
    decreases |v|
  {
    hide Step;
    if v == [] {
      assert u + v == u;
    } else {
      assert (u + v)[..|u + v| - 1] == u + v[..|v| - 1];
      RunConcat(c, u, v[..|v| - 1]);
    }
  }

  lemma {:induction false} RunLinear(c: bv32, u: seq<bv8>, d: bv32, v: seq<bv8>)
    requires |u| == |v|
    ensures RunFrom(Xor(c, d), PlusAll(u, v)) == Xor(RunFrom(c, u), RunFrom(d, v))
    decreases |u|
  {
    hide Step, Xor, Plus;
    if u != [] {
      var n := |u| - 1;
      RunLinear(c, u[..n], d, v[..n]);
      assert PlusAll(u, v)[..n] == PlusAll(u[..n], v[..n]);
      StepLinear(RunFrom(c, u[..n]), u[n], RunFrom(d, v[..n]), v[n]);
    }
  }

  lemma RunFits(c: bv32, v: seq<bv8>)
    requires Fits(c)
    ensures Fits(RunFrom(c, v))
  {
    hide Step, Fits;
    if v != [] {
      StepFits(RunFrom(c, v[..|v| - 1]), v[|v| - 1]);
    }
  }

  /** A difference never disappears while equal symbols follow. */
  lemma {:induction false} DifferenceStays(d: bv32, n: nat)
    requires Fits(d) && d != 0
    ensures RunFrom(d, Zeros(n)) != 0
    decreases n
  {
    hide Step, Fits;
    if n > 0 {
      DifferenceStays(d, n - 1);
      assert Zeros(n)[..n - 1] == Zeros(n - 1);
      RunFits(d, Zeros(n - 1));
      if Step(RunFrom(d, Zeros(n - 1)), 0) == 0 {
        StepInjective(RunFrom(d, Zeros(n - 1)));
      }
    }
  }

  /** What k symbols can fill. */
  function Bound(k: nat): bv32
    requires k <= 5
  {
    if k == 0 then 1 else if k == 1 then 0x20 else if k == 2 then 0x400 else if k == 3 then 0x8000
    else if k == 4 then 0x10_0000 else 0x200_0000
  }

  lemma SmallStep(c: bv32, v: bv8, k: nat)
    requires k <= 5 && c < Bound(k) && v < 32
    ensures k < 5 ==> Step(c, v) < Bound(k + 1)
    ensures Step(c, v) == 0 ==> c == 0 && v == 0
  {}

  /** Up to six symbols are just packed. */
  lemma {:induction false} FewSymbols(v: seq<bv8>)
    requires |v| <= 6 && AreSymbols(v)
    ensures |v| < 6 ==> RunFrom(0, v) < Bound(|v|)
    ensures RunFrom(0, v) == 0 ==> forall i :: 0 <= i < |v| ==> v[i] == 0
    decreases |v|
  {
    hide Step, Bound;
    if v == [] {
      BoundZero();
    } else {
      var n := |v| - 1;
      FewSymbols(v[..n]);
      SmallStep(RunFrom(0, v[..n]), v[n], n);
      assert forall i :: 0 <= i < n ==> v[i] == v[..n][i];
    }
  }

  lemma BoundZero()
    ensures 0 < Bound(0)
  {}

  lemma PlusSelf(u: bv8, v: bv8)
    ensures Plus(u, u) == 0 && Plus(0, u) == u && Plus(u, 0) == u && (Plus(u, v) == 0 ==> u == v)
    ensures u < 32 && v < 32 ==> Plus(u, v) < 32
  {}

  lemma DifferenceOf(s: bv32, a: seq<bv8>, b: seq<bv8>)
    requires |a| == |b|
    ensures Xor(RunFrom(s, a), RunFrom(s, b)) == RunFrom(0, PlusAll(a, b))
  {
    hide Xor;
    RunLinear(s, a, s, b);
    XorSelf(s);
  }

  /** Changing up to six symbols in a row always changes the checksum, whatever stands before and after them. */
  lemma Detects(u: seq<bv8>, a: seq<bv8>, b: seq<bv8>, w: seq<bv8>)
    requires |a| == |b| <= 6 && AreSymbols(a) && AreSymbols(b) && a != b
    ensures PolyMod(u + a + w) != PolyMod(u + b + w)
  {
    hide Xor, Step, Fits, Plus, RunFrom;
    var s := RunFrom(1, u);
    var x, y := RunFrom(s, a), RunFrom(s, b);
    RunConcat(1, u, a);
    RunConcat(1, u, b);
    RunConcat(1, u + a, w);
    RunConcat(1, u + b, w);
    DifferenceOf(s, a, b);
    DifferentSymbols(a, b);
    var d := RunFrom(0, PlusAll(a, b));
    RunLinear(x, w, y, w);
    SameSymbols(w);
    ZeroFits();
    RunFits(0, PlusAll(a, b));
    DifferenceStays(d, |w|);
    XorSelf(RunFrom(x, w));
  }

  lemma ZeroFits()
    ensures Fits(0) && Fits(1)
  {}

  lemma SameSymbols(w: seq<bv8>)
    ensures PlusAll(w, w) == Zeros(|w|)
  {
    forall i | 0 <= i < |w| ensures PlusAll(w, w)[i] == 0 {
      PlusSelf(w[i], w[i]);
    }
  }

  lemma DifferentSymbols(a: seq<bv8>, b: seq<bv8>)
    requires |a| == |b| <= 6 && AreSymbols(a) && AreSymbols(b) && a != b
    ensures RunFrom(0, PlusAll(a, b)) != 0
  {
    hide Plus, RunFrom;
    var d := PlusAll(a, b);
    forall i | 0 <= i < |a| ensures d[i] < 32 && (d[i] == 0 ==> a[i] == b[i]) {
      PlusSelf(a[i], b[i]);
    }
    FewSymbols(d);
  }

  // ---------- The checksum ----------

  /** The six symbols packed in a 30-bit word. */
  function Symbols(m: bv32): seq<bv8> {
    [((m >> 25) & 31) as bv8, ((m >> 20) & 31) as bv8, ((m >> 15) & 31) as bv8,
     ((m >> 10) & 31) as bv8, ((m >> 5) & 31) as bv8, (m & 31) as bv8]
  }

  function Pack(a: bv8, b: bv8, c: bv8, d: bv8, e: bv8, f: bv8): bv32 {
    Shifted(Shifted(Shifted(Shifted(Shifted(Shifted(0, a), b), c), d), e), f)
  }

  lemma PackBits(m: bv32)
    requires Fits(m)
    ensures Pack(((m >> 25) & 31) as bv8, ((m >> 20) & 31) as bv8, ((m >> 15) & 31) as bv8,
                 ((m >> 10) & 31) as bv8, ((m >> 5) & 31) as bv8, (m & 31) as bv8) == m
  {}

  lemma SymbolsFit(m: bv32)
    ensures |Symbols(m)| == 6 && AreSymbols(Symbols(m))
  {}

  /** Without a leading coefficient nothing is reduced. */
  lemma NoReduction(c: bv32, v: bv8, k: nat)
    requires k <= 5 && c < Bound(k)
    ensures Step(c, v) == Shifted(c, v)
  {}

  lemma RunStep(v: seq<bv8>, k: nat)
    requires k < |v| <= 6 && AreSymbols(v)
    ensures RunFrom(0, v[..k + 1]) == Shifted(RunFrom(0, v[..k]), v[k])
  {
    hide Step, Shifted, Bound;
    FewSymbols(v[..k]);
    NoReduction(RunFrom(0, v[..k]), v[k], k);
    assert v[..k + 1][..k] == v[..k];
  }

  lemma RunIsPack(v: seq<bv8>)
    requires |v| == 6 && AreSymbols(v)
    ensures RunFrom(0, v) == Pack(v[0], v[1], v[2], v[3], v[4], v[5])
  {
    hide Step, Shifted, AreSymbols;
    RunStep(v, 0);
    RunStep(v, 1);
    RunStep(v, 2);
    RunStep(v, 3);
    RunStep(v, 4);
    RunStep(v, 5);
    assert v[..6] == v;
  }

  lemma Unpack(m: bv32)
    requires Fits(m)
    ensures RunFrom(0, Symbols(m)) == m && |Symbols(m)| == 6 && AreSymbols(Symbols(m))
  {
    hide AreSymbols, Pack, RunFrom;
    SymbolsFit(m);
    RunIsPack(Symbols(m));
    PackBits(m);
  }

  /** The six symbols to put at the end to make the checksum k. */
  function Checksum(e: seq<bv8>, k: bv32): seq<bv8> {
    Symbols(Xor(PolyMod(e + Zeros(6)), k))
  }

  lemma Append(e: seq<bv8>, cs: seq<bv8>)
    requires |cs| == 6
    ensures PolyMod(e + cs) == Xor(PolyMod(e + Zeros(6)), RunFrom(0, cs))
  {
    hide Xor, Step, Plus, RunFrom;
    var s := RunFrom(1, e);
    RunConcat(1, e, cs);
    RunConcat(1, e, Zeros(6));
    RunLinear(s, Zeros(6), 0, cs);
    XorSelf(s);
    PlusZeros(cs);
  }

  lemma PlusZeros(v: seq<bv8>)
    ensures PlusAll(Zeros(|v|), v) == v
  {
    forall i | 0 <= i < |v| ensures PlusAll(Zeros(|v|), v)[i] == v[i] {
      PlusSelf(v[i], v[i]);
    }
  }

  lemma XorFits(a: bv32, b: bv32)
    requires Fits(a) && Fits(b)
    ensures Fits(Xor(a, b))
  {}

  /** Appending the checksum drives the remainder to the constant. */
  lemma ChecksumVerifies(e: seq<bv8>, k: bv32)
    requires Fits(k)
    ensures var cs := Checksum(e, k);
            |cs| == 6 && AreSymbols(cs) && PolyMod(e + cs) == k
  {
    hide Xor, Step, Fits, RunFrom, Symbols;
    var p := PolyMod(e + Zeros(6));
    ZeroFits();
    RunFits(1, e + Zeros(6));
    XorFits(p, k);
    Unpack(Xor(p, k));
    Append(e, Checksum(e, k));
    XorAssoc(p, p, k);
    XorSelf(p);
    XorSelf(k);
  }

  /** Only the checksum does. */
  lemma ChecksumUnique(e: seq<bv8>, cs: seq<bv8>, k: bv32)
    requires Fits(k) && |cs| == 6 && AreSymbols(cs) && PolyMod(e + cs) == k
    ensures cs == Checksum(e, k)
  {
    hide PolyMod, Checksum;
    ChecksumVerifies(e, k);
    assert e + cs + [] == e + cs && e + Checksum(e, k) + [] == e + Checksum(e, k);
    if cs != Checksum(e, k) {
      Detects(e, cs, Checksum(e, k), []);
    }
  }
}
