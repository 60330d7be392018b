/** The active chain, kept as an array indexed by height, and block locators. */
module ActiveChain {
  import opened BlockTree
  import opened SkipHeights
  import opened Powers

  /** The path of a block runs from its first block, with timestamps tracked by a running maximum. */
  lemma {:induction false} TimeMaxIs(b: BlockIndex, i: int, t: int)
    requires b.Valid() && 0 <= i < |b.path|
    ensures b.path[i].nTimeMax < t <==> forall j :: 0 <= j <= i ==> b.path[j].nTime < t
    decreases i
  {
    assert b.Linked(i);
    if i > 0 {
      TimeMaxIs(b, i - 1, t);
    }
  }

  /** A vector resized as the standard library does, with null pointers in new places. */
  function Resized(s: seq<BlockIndex?>, size: nat): (r: seq<BlockIndex?>)
    ensures |r| == size
    ensures forall i :: 0 <= i < size ==> r[i] == if i < |s| then s[i] else null
  {
    if size <= |s| then s[..size] else s + seq(size - |s|, _ => null)
  }

  class Chain {
    var vChain: seq<BlockIndex?>

    /** The block whose path the array holds. */
    ghost var tip: BlockIndex?

    ghost predicate Valid()
      reads this, tip, if tip == null then [] else tip.path
    {
      if tip == null then vChain == [] else tip.Valid() && vChain == tip.path
    }

    constructor ()
      ensures Valid() && tip == null && vChain == []
    {
      vChain := [];
      tip := null;
    }

    function Height(): int
      reads this
    {
      |vChain| - 1
    }

    function At(h: int): BlockIndex?
      reads this
    {
      if 0 <= h < |vChain| then vChain[h] else null
    }

    predicate Contains(b: BlockIndex)
      reads this, b
    {
      At(b.nHeight) == b
    }

    /** Membership by height is membership in the tip's path. */
    lemma ContainsIs(b: BlockIndex)
      requires Valid() && b.Valid()
      ensures Contains(b) <==> tip != null && b in tip.path
    {
      if tip != null && b in tip.path {
        var i :| 0 <= i < |tip.path| && tip.path[i] == b;
        tip.OnPath(i);
      }
    }

    lemma SameStart(block: BlockIndex)
      requires Valid() && block.Valid()
      ensures Meet(vChain, block.path)
    {
      if tip != null {
        PathsMeet(tip, block);
      }
    }

    /** Replaces the chain by the path to a block, stopping at the first entry that is already right. */
    method SetTip(block: BlockIndex)
      requires Valid() && block.Valid()
      modifies this
      ensures Valid() && tip == block && vChain == block.path
    {
      hide BlockIndex.Linked, BlockIndex.Back, Resized, Meet;
      SameStart(block);
      var size := block.nHeight + 1;
      vChain := Resized(vChain, size);
      tip := block;
      ghost var resized := vChain;
      ghost var h := block.nHeight;
      var pindex: BlockIndex? := block;
      while pindex != null && vChain[pindex.nHeight] != pindex
        invariant -1 <= h <= block.nHeight && |vChain| == size && tip == block
        invariant pindex == (if h < 0 then null else block.path[h]) && (pindex != null ==> pindex.nHeight == h)
        invariant forall k :: 0 <= k <= h ==> vChain[k] == resized[k]
        invariant forall k :: h < k < size ==> vChain[k] == block.path[k]
        decreases h
      {
        block.OnPath(h);
        vChain := vChain[pindex.nHeight := pindex];
        pindex := pindex.pprev;
        h := h - 1;
        if h >= 0 {
          block.OnPath(h);
        }
      }
      FillDone(old(vChain), block.path, h);
    }

    /** The highest block of the chain among the ancestors of a block. */
    method FindFork(pindex: BlockIndex?) returns (r: BlockIndex?)
      requires Valid() && (pindex != null ==> pindex.Valid())
      ensures pindex == null || tip == null ==> r == null
      ensures pindex != null && tip != null && r == null ==> forall x :: x in pindex.path ==> x !in tip.path
      ensures pindex != null && tip != null && r != null ==> IsLastCommon(pindex, tip, r)
    {
      hide Steps, StepLimit, BlockIndex.Linked, BlockIndex.Back, IsLastCommon;
      if pindex == null {
        return null;
      }
      r := pindex;
      if r.nHeight > Height() {
        ghost var steps;
        r, steps := r.GetAncestor(Height());
      }
      ghost var h := if pindex.nHeight > Height() then Height() else pindex.nHeight;
      while r != null && !Contains(r)
        invariant -1 <= h <= pindex.nHeight && h <= Height()
        invariant r == if h < 0 then null else pindex.path[h]
        invariant forall k :: h < k <= pindex.nHeight && k <= Height() ==> pindex.path[k] != vChain[k]
        decreases h
      {
        pindex.OnPath(h);
        r := r.pprev;
        h := h - 1;
      }
      if tip != null {
        if r != null {
          pindex.OnPath(h);
          FoundCommon(pindex, tip, h);
        } else {
          NothingShared(pindex, tip);
        }
      }
    }

    /** The documented answer of FindEarliestAtLeast. */
    ghost predicate EarliestAtLeast(nTime: int, height: int, r: BlockIndex?)
      requires Valid()
      reads this, tip, if tip == null then [] else tip.path
    {
      if r == null then forall i :: 0 <= i < |vChain| ==> vChain[i].nTime < nTime || i < height
      else
        exists n :: 0 <= n < |vChain| && vChain[n] == r && vChain[n].nTime >= nTime && n >= height
          && forall i :: 0 <= i < n ==> vChain[i].nTime < nTime || i < height
    }

    /** A block below the wanted height is late enough, and the block at that height is not. */
    ghost predicate LateTooEarly(nTime: int, height: int)
      requires Valid()
      reads this, tip, if tip == null then [] else tip.path
    {
      0 < height < |vChain| && vChain[height].nTime < nTime
      && exists i :: 0 <= i < height && vChain[i].nTime >= nTime
    }

    /** Whether a block comes before the answer of the search. */
    predicate Before(i: int, nTime: int, height: int)
      reads this, vChain
      requires 0 <= i < |vChain| && vChain[i] != null
    {
      vChain[i].nTimeMax < nTime || vChain[i].nHeight < height
    }

    /** The blocks before the answer come first. */
    lemma BeforeIs(i: int, nTime: int, height: int)
      requires Valid() && 0 <= i < |vChain|
      ensures Before(i, nTime, height) <==> i < height || forall j :: 0 <= j <= i ==> vChain[j].nTime < nTime
    {
      tip.OnPath(i);
      TimeMaxIs(tip, i, nTime);
    }

    /**
     * Looks up the first block at the height or above whose running maximum of timestamps has reached the time. That
     * is the earliest block with such a timestamp exactly when no earlier block is late too early.
     */
    method FindEarliestAtLeast(nTime: int, height: int) returns (r: BlockIndex?)
      requires Valid()
      ensures r == null ==> forall i :: 0 <= i < |vChain| ==> Before(i, nTime, height)
      ensures r != null ==> 0 <= r.nHeight < |vChain| && vChain[r.nHeight] == r
      ensures r != null ==> forall i :: 0 <= i < |vChain| ==> (Before(i, nTime, height) <==> i < r.nHeight)
      ensures EarliestAtLeast(nTime, height, r) <==> !LateTooEarly(nTime, height)
    {
      var first, count := 0, |vChain|;
      while count > 0
        invariant 0 <= first <= first + count <= |vChain|
        invariant forall i :: 0 <= i < first ==> Before(i, nTime, height)
        invariant forall i :: first + count <= i < |vChain| ==> !Before(i, nTime, height)
        decreases count
      {
        var half := count / 2;
        forall i, j | 0 <= i <= j < |vChain| ensures Before(j, nTime, height) ==> Before(i, nTime, height) {
          BeforeIs(i, nTime, height);
          BeforeIs(j, nTime, height);
        }
        if Before(first + half, nTime, height) {
          first, count := first + half + 1, count - half - 1;
        } else {
          count := half;
        }
      }
      EarliestExactly(nTime, height, first);
      if first == |vChain| {
        return null;
      }
      tip.OnPath(first);
      r := vChain[first];
    }

    lemma EarliestExactly(nTime: int, height: int, first: int)
      requires Valid() && 0 <= first <= |vChain|
      requires forall i :: 0 <= i < first ==> Before(i, nTime, height)
      requires forall i :: first <= i < |vChain| ==> !Before(i, nTime, height)
      ensures EarliestAtLeast(nTime, height, At(first)) <==> !LateTooEarly(nTime, height)
    {
      forall i | 0 <= i < first ensures vChain[i].nTime < nTime || i < height {
        assert Before(i, nTime, height);
        BeforeIs(i, nTime, height);
      }
      if first < |vChain| {
        assert !Before(first, nTime, height);
        BeforeIs(first, nTime, height);
      }
      if LateTooEarly(nTime, height) {
        BeforeIs(height, nTime, height);
        assert first == height;
        forall n | 0 <= n < |vChain| && vChain[n] == vChain[first] ensures n == first {
          tip.OnPath(n);
          tip.OnPath(first);
        }
      } else if 0 < first < |vChain| {
        assert Before(first - 1, nTime, height);
        BeforeIs(first - 1, nTime, height);
        assert vChain[first].nTime >= nTime;
      }
    }
  }

  /** Two paths that hold the same block at a height hold the same blocks below it. */
  ghost predicate Meet(s: seq<BlockIndex?>, t: seq<BlockIndex>) {
    forall k, h :: MeetAt(s, t, k, h)
  }

  ghost predicate MeetAt(s: seq<BlockIndex?>, t: seq<BlockIndex>, k: int, h: int) {
    0 <= k <= h < |s| && h < |t| && s[h] == t[h] ==> s[k] == t[k]
  }

  lemma PathsMeet(a: BlockIndex, b: BlockIndex)
    requires a.Valid() && b.Valid()
    ensures Meet(a.path, b.path)
  {
    forall k, h ensures MeetAt(a.path, b.path, k, h) {
      if 0 <= k <= h < |a.path| && h < |b.path| {
        PathsPart(a, b, k, h);
      }
    }
  }

  /** Where the filling stops, the entries below are already those of the new tip. */
  lemma FillDone(s: seq<BlockIndex?>, t: seq<BlockIndex>, h: int)
    requires Meet(s, t) && -1 <= h < |t| && (h >= 0 ==> Resized(s, |t|)[h] == t[h])
    ensures forall k :: 0 <= k <= h ==> Resized(s, |t|)[k] == t[k]
  {
    hide Resized;
    forall k | 0 <= k <= h ensures Resized(s, |t|)[k] == t[k] {
      assert MeetAt(s, t, k, h);
    }
  }

  lemma NothingShared(a: BlockIndex, b: BlockIndex)
    requires a.Valid() && b.Valid()
    requires forall k :: 0 <= k <= a.nHeight && k <= b.nHeight ==> a.path[k] != b.path[k]
    ensures forall x :: x in a.path ==> x !in b.path
  {
    forall x | x in a.path ensures x !in b.path {
      if x in b.path {
        var i :| 0 <= i < |a.path| && a.path[i] == x;
        var j :| 0 <= j < |b.path| && b.path[j] == x;
        a.OnPath(i);
        b.OnPath(j);
        assert false;
      }
    }
  }

  /** A chain of four blocks, each later than the median of those before it. */
  method FourBlocks() returns (chain: Chain)
    ensures chain.Valid() && |chain.vChain| == 4
    ensures chain.vChain[0].nTime == 100 && chain.vChain[1].nTime == 200
    ensures chain.vChain[2].nTime == 300 && chain.vChain[3].nTime == 250
  {
    hide BlockIndex.Linked;
    var genesis := new BlockIndex(null, 100);
    var second := new BlockIndex(genesis, 200);
    var third := new BlockIndex(second, 300);
    var fourth := new BlockIndex(third, 250);
    chain := new Chain();
    chain.SetTip(fourth);
    assert chain.vChain == [genesis, second, third, fourth];
  }

  /** The search returns a block with an earlier timestamp than asked for, because one below is late enough. */
  method EarliestCanBeTooOld() returns (chain: Chain, found: BlockIndex?)
    ensures chain.Valid() && found != null && found in chain.vChain && found.nTime < 280
    ensures chain.LateTooEarly(280, 3) && !chain.EarliestAtLeast(280, 3, found)
  {
    hide BlockIndex.Linked, Chain.EarliestAtLeast;
    chain := FourBlocks();
    found := chain.FindEarliestAtLeast(280, 3);
    assert chain.vChain[2].nTime >= 280;
    chain.BeforeIs(2, 280, 3);
    chain.BeforeIs(3, 280, 3);
  }

  // ---------- Locators ----------

  /** How far below the starting block the k-th locator entry lies. */
  function Offset(k: nat): nat {
    if k <= 11 then k else 9 + Pow(2, k - 10)
  }

  /** The step taken after k entries, before the next one. */
  function StepAt(k: nat): nat {
    if k <= 10 then 1 else Pow(2, k - 10)
  }

  lemma OffsetStep(k: nat)
    ensures Offset(k + 1) == Offset(k) + StepAt(k)
    ensures StepAt(k) > 0 && StepAt(k + 1) == if k + 1 > 10 then 2 * StepAt(k) else StepAt(k)
  {}

  lemma {:induction false} OffsetsGrow(i: nat, j: nat)
    requires i < j
    ensures Offset(i) < Offset(j)
    decreases j
  {
    OffsetStep(j - 1);
    if i < j - 1 {
      OffsetsGrow(i, j - 1);
    }
  }

  function LocatorHeight(h: nat, k: nat): nat {
    if Offset(k) <= h then h - Offset(k) else 0
  }

  /** One round of the locator loop. */
  lemma LocatorStep(h: nat, k: nat)
    requires Offset(k) < h
    ensures LocatorHeight(h, k) == h - Offset(k)
    ensures LocatorHeight(h, k + 1) == if h - Offset(k) > StepAt(k) then h - Offset(k) - StepAt(k) else 0
    ensures StepAt(k + 1) == 1 || StepAt(k + 1) < 2 * h
  {
    OffsetStep(k);
  }

  lemma LocatorLength(h: nat, n: nat)
    requires n <= 1 || Offset(n - 2) < h
    ensures h > 0 ==> n <= 12 + Log2(h)
  {
    if n >= 14 {
      LogExceeds(h, n - 12);
    } else if n == 13 {
      LogExceeds(h, 1);
    }
  }

  lemma LocatorFalls(index: BlockIndex, have: seq<BlockIndex>)
    requires index.Valid()
    requires forall k :: 0 <= k < |have| ==> have[k] == index.path[LocatorHeight(index.nHeight, k)]
    requires forall k :: 0 <= k < |have| - 1 ==> Offset(k) < index.nHeight
    ensures forall i, j :: 0 <= i < j < |have| ==> have[i].nHeight > have[j].nHeight
  {
    forall i, j | 0 <= i < j < |have| ensures have[i].nHeight > have[j].nHeight {
      OffsetsGrow(i, j);
      index.OnPath(LocatorHeight(index.nHeight, i));
      index.OnPath(LocatorHeight(index.nHeight, j));
    }
  }

  /**
   * The blocks of a locator: ever larger steps back from a block to the first one. The step stays below
   * twice the height of the starting block, so a signed 32-bit number can hold it for heights up to 2^30.
   */
  method LocatorEntries(index: BlockIndex?) returns (have: seq<BlockIndex>)
    requires index != null ==> index.Valid()
    ensures index == null ==> have == []
    ensures index != null ==> |have| > 0 && have[0] == index && have[|have| - 1] == index.path[0]
    ensures index != null ==> forall k :: 0 <= k < |have| ==> have[k] == index.path[LocatorHeight(index.nHeight, k)]
    ensures forall i, j :: 0 <= i < j < |have| ==> have[i].nHeight > have[j].nHeight
    ensures index != null && index.nHeight > 0 ==> |have| <= 12 + Log2(index.nHeight)
  {
    hide BlockIndex.Linked, BlockIndex.Back, Offset, StepAt, Log2, Steps, StepLimit;
    have := [];
    if index == null {
      return;
    }
    var step := 1;
    var walk: BlockIndex? := index;
    ghost var h := index.nHeight;
    LocatorStarts(h);
    while walk != null
      invariant walk != null && walk == index.path[LocatorHeight(h, |have|)]
      invariant step == StepAt(|have|) && (step == 1 || step < 2 * h)
      invariant forall k :: 0 <= k < |have| ==> have[k] == index.path[LocatorHeight(h, k)] && Offset(k) < h
      decreases h - Offset(|have|)
    {
      ghost var n := |have|;
      have := have + [walk];
      index.OnPath(LocatorHeight(h, n));
      if walk.nHeight == 0 {
        break;
      }
      var height := if walk.nHeight - step > 0 then walk.nHeight - step else 0;
      ghost var steps;
      walk, steps := walk.GetAncestor(height);
      if |have| > 10 {
        step := step * 2;
      }
      OffsetStep(n);
      LocatorStep(h, n);
    }
    LocatorFalls(index, have);
    LocatorLength(h, |have|);
  }

  lemma LocatorStarts(h: nat)
    ensures LocatorHeight(h, 0) == h && StepAt(0) == 1
  {}
}
