/** Block index entries: a tree linked by predecessor pointers, with skip pointers for fast descent. */
module BlockTree {
  import opened SkipHeights

  // ---------- Block index entries ----------

  class BlockIndex {
    var pprev: BlockIndex?
    var pskip: BlockIndex?
    var nHeight: int
    var nTime: int
    var nTimeMax: int

    /** The blocks from genesis to this one. */
    ghost var path: seq<BlockIndex>

    ghost predicate Linked(i: int)
      requires 0 <= i < |path|
      reads this, path
    {
      var b := path[i];
      && b.path == path[..i + 1] && b.nHeight == i
      && b.pprev == (if i == 0 then null else path[i - 1])
      && (i == 0 ==> b.pskip == null)
      && (i > 0 ==> SkipHeight(i) < i && b.pskip == path[SkipHeight(i)])
      && b.nTimeMax == (if i == 0 || path[i - 1].nTimeMax < b.nTime then b.nTime else path[i - 1].nTimeMax)
    }

    ghost predicate Valid()
      reads this, path
    {
      && 0 <= nHeight && |path| == nHeight + 1 && path[nHeight] == this
      && forall i :: 0 <= i < |path| ==> Linked(i)
    }

    /** Every block on the path is itself valid, with the initial part of the path as its own. */
    lemma OnPath(i: int)
      requires Valid() && 0 <= i < |path|
      ensures path[i].Valid() && path[i].path == path[..i + 1] && path[i].nHeight == i
      ensures path[i].pprev == (if i == 0 then null else path[i - 1])
      ensures i > 0 ==> SkipHeight(i) < i && path[i].pskip == path[SkipHeight(i)]
    {
      assert Linked(i);
      var b := path[i];
      forall j | 0 <= j < |b.path| ensures b.Linked(j) {
        assert Linked(j);
        assert b.path[..j + 1] == path[..j + 1];
      }
    }

    /** The block reached by following the predecessor pointer k times. */
    ghost function Back(k: nat): BlockIndex?
      requires Valid()
      reads this, path
      decreases k
    {
      if k == 0 then this
      else if pprev == null then null
      else
        assert Linked(nHeight);
        OnPath(nHeight - 1);
        pprev.Back(k - 1)
    }

    /** The path lists exactly the blocks met by following predecessors. */
    lemma {:induction false} BackIsPath(k: nat)
      requires Valid()
      ensures Back(k) == if k <= nHeight then path[nHeight - k] else null
      decreases k
    {
      OnPath(nHeight);
      if k > 0 && nHeight > 0 {
        OnPath(nHeight - 1);
        pprev.BackIsPath(k - 1);
      }
    }

    /**
     * Adds a block to the tree. The skip pointer leads to the ancestor at the skip height.
     */
    constructor (prev: BlockIndex?, time: int)
      requires prev != null ==> prev.Valid()
      ensures Valid() && nTime == time && pprev == prev
      ensures path == (if prev == null then [] else prev.path) + [this]
    {
      pprev := prev;
      pskip := null;
      nHeight := if prev == null then 0 else prev.nHeight + 1;
      nTime := time;
      nTimeMax := if prev == null || prev.nTimeMax < time then time else prev.nTimeMax;
      new;
      path := (if prev == null then [] else prev.path) + [this];
      BuildSkip();
      forall i | 0 <= i < |path| ensures Linked(i) {
        if i < |path| - 1 {
          assert prev.Linked(i);
          assert path[..i + 1] == prev.path[..i + 1];
        } else {
          assert path[..i + 1] == path;
        }
      }
    }

    method BuildSkip()
      requires pprev != null ==> pprev.Valid() && nHeight == pprev.nHeight + 1
      modifies this`pskip
      ensures pprev == null ==> pskip == old(pskip)
      ensures pprev != null ==> SkipHeight(nHeight) < nHeight && pskip == pprev.path[SkipHeight(nHeight)]
    {
      if pprev != null {
        SkipIsBelow(nHeight);
        ghost var steps;
        pskip, steps := pprev.GetAncestor(SkipHeight(nHeight));
      }
    }

    /** The ancestor at a height, found with the help of the skip pointers, in so many steps. */
    method GetAncestor(height: int) returns (r: BlockIndex?, ghost steps: nat)
      requires Valid()
      ensures r == if 0 <= height <= nHeight then Back(nHeight - height) else null
      ensures 0 <= height <= nHeight ==> r == path[height]
      ensures steps == if 0 <= height <= nHeight then Steps(nHeight, height) else 0
      ensures nHeight > 0 ==> steps <= StepLimit(nHeight)
    {
      hide Steps, StepLimit, SkipHeight, Linked;
      steps := 0;
      if height > nHeight || height < 0 {
        return null, 0;
      }
      if nHeight > 0 {
        StepsBounded(nHeight, height);
      }
      var walk := this;
      var heightWalk := nHeight;
      while heightWalk > height
        invariant height <= heightWalk <= nHeight && walk == path[heightWalk]
        invariant steps + Steps(heightWalk, height) == Steps(nHeight, height)
      {
        OnPath(heightWalk);
        StepIs(heightWalk, height);
        steps := steps + 1;
        var heightSkip := SkipHeight(heightWalk);
        var heightSkipPrev := SkipHeight(heightWalk - 1);
        if walk.pskip != null
           && (heightSkip == height
               || (heightSkip > height && !(heightSkipPrev < heightSkip - 2 && heightSkipPrev >= height))) {
          walk := walk.pskip;
          heightWalk := heightSkip;
        } else {
          walk := walk.pprev;
          heightWalk := heightWalk - 1;
        }
      }
      NoStepBelow(heightWalk, height);
      BackIsPath(nHeight - height);
      return walk, steps;
    }
  }

  // ---------- Common ancestors ----------

  /** The paths of two blocks hold the same blocks up to some height and different blocks above it. */
  lemma PathsPart(a: BlockIndex, b: BlockIndex, h: nat, k: nat)
    requires a.Valid() && b.Valid() && h <= k && k <= a.nHeight && k <= b.nHeight
    ensures a.path[k] == b.path[k] ==> a.path[h] == b.path[h]
  {
    a.OnPath(k);
    b.OnPath(k);
    if a.path[k] == b.path[k] {
      assert a.path[h] == a.path[..k + 1][h] && b.path[h] == b.path[..k + 1][h];
    }
  }

  /** r is the highest block that is an ancestor of both. */
  ghost predicate IsLastCommon(a: BlockIndex, b: BlockIndex, r: BlockIndex)
    reads a, a.path, b, b.path, r
    requires a.Valid() && b.Valid()
  {
    && r in a.path && r in b.path
    && forall x :: x in a.path && x in b.path ==> x in r.path
  }

  lemma FoundCommon(a: BlockIndex, b: BlockIndex, h: nat)
    requires a.Valid() && b.Valid() && h <= a.nHeight && h <= b.nHeight && a.path[h] == b.path[h]
    requires forall k :: h < k <= a.nHeight && k <= b.nHeight ==> a.path[k] != b.path[k]
    ensures IsLastCommon(a, b, a.path[h])
  {
    a.OnPath(h);
    forall x | x in a.path && x in b.path ensures x in a.path[h].path {
      var i :| 0 <= i < |a.path| && a.path[i] == x;
      var j :| 0 <= j < |b.path| && b.path[j] == x;
      a.OnPath(i);
      b.OnPath(j);
      assert i == j;
      assert a.path[..h + 1][i] == x;
    }
  }

  lemma ApartAbove(a: BlockIndex, b: BlockIndex, h: nat)
    requires a.Valid() && b.Valid() && h <= a.nHeight && h <= b.nHeight && a.path[h] != b.path[h]
    ensures forall k :: h <= k <= a.nHeight && k <= b.nHeight ==> a.path[k] != b.path[k]
  {
    forall k | h <= k <= a.nHeight && k <= b.nHeight ensures a.path[k] != b.path[k] {
      PathsPart(a, b, h, k);
    }
  }

  /** The last common ancestor of two blocks of one tree. */
  method LastCommonAncestor(a: BlockIndex, b: BlockIndex) returns (r: BlockIndex)
    requires a.Valid() && b.Valid() && a.path[0] == b.path[0]
    ensures IsLastCommon(a, b, r)
  {
    hide SkipHeight, Steps, StepLimit, BlockIndex.Linked, BlockIndex.Back, IsLastCommon;
    var pa, pb := a, b;
    ghost var steps;
    if a.nHeight > b.nHeight {
      pa, steps := a.GetAncestor(b.nHeight);
    } else if b.nHeight > a.nHeight {
      pb, steps := b.GetAncestor(a.nHeight);
    }
    ghost var h := if a.nHeight > b.nHeight then b.nHeight else a.nHeight;
    while pa != pb
      invariant 0 <= h <= a.nHeight && h <= b.nHeight && pa == a.path[h] && pb == b.path[h]
      invariant forall k :: h < k <= a.nHeight && k <= b.nHeight ==> a.path[k] != b.path[k]
      decreases h
    {
      while pa.pskip != pb.pskip
        invariant 0 < h <= a.nHeight && h <= b.nHeight && pa == a.path[h] && pb == b.path[h] && pa != pb
        decreases h
      {
        a.OnPath(h);
        b.OnPath(h);
        a.OnPath(SkipHeight(h));
        b.OnPath(SkipHeight(h));
        assert pa.nHeight == pb.nHeight;
        assert pa.pskip.nHeight == pb.pskip.nHeight;
        pa := pa.pskip;
        pb := pb.pskip;
        h := SkipHeight(h);
      }
      ApartAbove(a, b, h);
      a.OnPath(h);
      b.OnPath(h);
      pa := pa.pprev;
      pb := pb.pprev;
      h := h - 1;
    }
    FoundCommon(a, b, h);
    return pa;
  }
}
