/** Differential encoding of increasing index lists, as in requests for block transactions. */
module Differences {
  import opened Options
  import opened Powers

  /** The largest size that is read back from the wire. */
  const MAX_SIZE: int := 0x200_0000

  /** The formatter keeps the smallest index that may come next. */
  class DifferenceFormatter {
    var shift: int

    constructor ()
      ensures shift == 0
    {
      shift := 0;
    }

    /** Writes an index as the distance from the smallest one possible. Fails if it is too small or too large. */
    method Ser(v: nat) returns (r: Option<nat>)
      requires 0 <= shift <= MAX64 && v <= MAX64
      modifies this
      ensures r == if v < old(shift) || v == 0xffff_ffff_ffff_ffff then None else Some(v - old(shift))
      ensures shift == if r.None? then old(shift) else v + 1
    {
      if v < shift || v >= MAX64 {
        return None;
      }
      r := Some(v - shift);
      shift := v + 1;
    }

    /** Reads an index of a type with the given largest value. */
    method Unser(n: nat, largest: nat) returns (r: Option<nat>)
      requires 0 <= shift <= MAX64 && n <= MAX64 && largest <= MAX64
      modifies this
      ensures r.Some? <==> n <= 0x200_0000 && old(shift) + n < 0xffff_ffff_ffff_ffff && old(shift) + n <= largest
      ensures r.Some? ==> r.value == old(shift) + n && shift == r.value + 1
      ensures 0 <= shift <= MAX64
    {
      if n > MAX_SIZE {
        return None;
      }
      shift := (shift + n) % (MAX64 + 1);
      if shift < n || shift >= MAX64 || shift > largest {
        return None;
      }
      r := Some(shift);
      shift := shift + 1;
    }
  }

  // ---------- Lists ----------

  /** Strictly increasing, up to `largest`. */
  ghost predicate Increasing(list: seq<nat>, largest: nat) {
    && (forall i, j :: 0 <= i < j < |list| ==> list[i] < list[j])
    && forall i :: 0 <= i < |list| ==> list[i] <= largest
  }

  /** The distance from the smallest index possible. */
  predicate EncodesAt(list: seq<nat>, deltas: seq<nat>, i: int)
    requires 0 <= i < |list| == |deltas|
  {
    list[i] == (if i == 0 then 0 else list[i - 1] + 1) + deltas[i]
  }

  /** The distances that stand for a list. */
  ghost predicate Encodes(list: seq<nat>, deltas: seq<nat>) {
    |deltas| == |list| && forall i :: 0 <= i < |list| ==> EncodesAt(list, deltas, i)
  }

  lemma EncodesNext(list: seq<nat>, deltas: seq<nat>, v: nat, d: nat)
    requires Encodes(list, deltas) && v == (if list == [] then 0 else list[|list| - 1] + 1) + d
    ensures Encodes(list + [v], deltas + [d])
  {
    var l, e := list + [v], deltas + [d];
    forall i | 0 <= i < |l| ensures EncodesAt(l, e, i) {
      if i < |list| {
        assert EncodesAt(list, deltas, i);
      }
    }
  }

  lemma IncreasingNext(list: seq<nat>, largest: nat, v: nat)
    requires Increasing(list, largest) && (list != [] ==> list[|list| - 1] < v) && v <= largest
    ensures Increasing(list + [v], largest)
  {
    var l := list + [v];
    forall i, j | 0 <= i < j < |l| ensures l[i] < l[j] {
      assert i < |list| - 1 ==> list[i] < list[|list| - 1];
    }
  }

  /** Writes a list. Exactly the strictly increasing lists can be written. */
  method Write(list: seq<nat>) returns (r: Option<seq<nat>>)
    requires forall i :: 0 <= i < |list| ==> list[i] <= MAX64
    ensures r.Some? <==> Increasing(list, MAX64 - 1)
    ensures r.Some? ==> Encodes(list, r.value)
  {
    var f := new DifferenceFormatter();
    var deltas := [];
    var i := 0;
    while i < |list|
      invariant 0 <= i <= |list| && fresh(f) && 0 <= f.shift <= MAX64
      invariant f.shift == if i == 0 then 0 else list[i - 1] + 1
      invariant Increasing(list[..i], MAX64 - 1) && Encodes(list[..i], deltas)
    {
      var d := f.Ser(list[i]);
      if d.None? {
        assert !Increasing(list, MAX64 - 1) by { assert i > 0 ==> list[i - 1] >= list[i] || list[i] == MAX64; }
        return None;
      }
      EncodesNext(list[..i], deltas, list[i], d.value);
      IncreasingNext(list[..i], MAX64 - 1, list[i]);
      assert list[..i + 1] == list[..i] + [list[i]];
      deltas := deltas + [d.value];
      i := i + 1;
    }
    assert list[..i] == list;
    return Some(deltas);
  }

  /** Reads a list of indexes of a type with the given largest value. */
  method Read(deltas: seq<nat>, largest: nat) returns (r: Option<seq<nat>>)
    requires largest < MAX64 && forall i :: 0 <= i < |deltas| ==> deltas[i] <= MAX64
    ensures r.Some? ==> Encodes(r.value, deltas) && Increasing(r.value, largest)
    ensures r.Some? ==> forall i :: 0 <= i < |deltas| ==> deltas[i] <= MAX_SIZE
    ensures r.None? ==> forall list :: Encodes(list, deltas) && Increasing(list, largest) ==>
                                          exists i :: 0 <= i < |deltas| && deltas[i] > MAX_SIZE
  {
    var f := new DifferenceFormatter();
    var list := [];
    var i := 0;
    while i < |deltas|
      invariant 0 <= i <= |deltas| && fresh(f) && 0 <= f.shift <= MAX64 && |list| == i
      invariant f.shift == if i == 0 then 0 else list[i - 1] + 1
      invariant Increasing(list, largest) && Encodes(list, deltas[..i])
      invariant forall k :: 0 <= k < i ==> deltas[k] <= MAX_SIZE
    {
      var v := f.Unser(deltas[i], largest);
      if v.None? {
        forall other | Encodes(other, deltas) && Increasing(other, largest)
          ensures exists i :: 0 <= i < |deltas| && deltas[i] > MAX_SIZE
        {
          SameStart(list, other, deltas, i);
          assert EncodesAt(other, deltas, i);
          assert deltas[i] > MAX_SIZE;
        }
        return None;
      }
      EncodesNext(list, deltas[..i], v.value, deltas[i]);
      IncreasingNext(list, largest, v.value);
      assert deltas[..i + 1] == deltas[..i] + [deltas[i]];
      list := list + [v.value];
      i := i + 1;
    }
    assert deltas[..i] == deltas;
    return Some(list);
  }

  /** The distances determine the list. */
  lemma SameStart(a: seq<nat>, b: seq<nat>, deltas: seq<nat>, i: nat)
    requires i <= |deltas| && Encodes(a, deltas[..i]) && Encodes(b, deltas)
    ensures a == b[..i]
  {
    forall k | 0 <= k < i ensures a[k] == b[k] {
      SameAt(a, b, deltas, i, k);
    }
  }

  lemma {:induction false} SameAt(a: seq<nat>, b: seq<nat>, deltas: seq<nat>, i: nat, k: nat)
    requires k < i <= |deltas| && Encodes(a, deltas[..i]) && Encodes(b, deltas)
    ensures a[k] == b[k]
    decreases k
  {
    assert EncodesAt(a, deltas[..i], k) && EncodesAt(b, deltas, k);
    if k > 0 {
      SameAt(a, b, deltas, i, k - 1);
    }
  }

  /** No index is further from the smallest one possible than a size can be. */
  ghost predicate GapsFit(list: seq<nat>) {
    forall i :: 0 <= i < |list| ==> GapAt(list, i) <= MAX_SIZE
  }

  function GapAt(list: seq<nat>, i: int): int
    requires 0 <= i < |list|
  {
    var smallest: int := if i == 0 then 0 else list[i - 1] + 1;
    list[i] as int - smallest
  }

  /** Exactly the strictly increasing lists without too large gaps survive being written and read. */
  method RoundTrip(list: seq<nat>, largest: nat) returns (r: Option<seq<nat>>)
    requires largest < MAX64 && forall i :: 0 <= i < |list| ==> list[i] <= largest
    ensures r == if Increasing(list, largest) && GapsFit(list) then Some(list) else None
  {
    var deltas := Write(list);
    if deltas.None? {
      return None;
    }
    DeltasAreGaps(list, deltas.value);
    r := Read(deltas.value, largest);
    if r.Some? {
      assert deltas.value[..|list|] == deltas.value;
      SameStart(r.value, list, deltas.value, |list|);
      assert list[..|list|] == list;
    }
  }

  /** A list of one index that is written and not read back. */
  method TooLargeGap() returns (r: Option<seq<nat>>)
    ensures Increasing([MAX_SIZE + 1], 0xffff_ffff) && r == None
  {
    assert GapAt([MAX_SIZE + 1], 0) > MAX_SIZE;
    r := RoundTrip([MAX_SIZE + 1], 0xffff_ffff);
  }

  /** The distances are the gaps. */
  lemma DeltasAreGaps(list: seq<nat>, deltas: seq<nat>)
    requires Encodes(list, deltas)
    ensures forall i :: 0 <= i < |deltas| ==> deltas[i] == GapAt(list, i)
  {
    forall i | 0 <= i < |deltas| ensures deltas[i] == GapAt(list, i) {
      assert EncodesAt(list, deltas, i);
    }
  }
}
