/** Compact blocks: what a peer sends, and how the block is put together from it and from known transactions. */
module CompactBlocks {
  import opened Options

  datatype Tx = Tx(wtxid: nat, body: nat, isNull: bool)

  datatype Header = Null | Header(id: nat)

  /** The index counts the transactions since the previous one that is sent along. */
  datatype Prefilled = Prefilled(index: nat, tx: Tx)

  /** A block by the short ids of its transactions. The keyed hash that makes short ids is a parameter. */
  datatype CompactBlock = CompactBlock(header: Header, shortId: nat -> nat, shortIds: seq<nat>, prefilled: seq<Prefilled>)

  datatype ReadStatus = OK | INVALID | FAILED

  const MAX_TRANSACTIONS: nat := 4_000_000 / 40
  const MAX_UINT16: nat := 0xffff

  // ---------- Places in a block ----------

  /** The positions that are still open, in order. */
  function Open(s: seq<Option<Tx>>): (r: seq<nat>)
    ensures |r| <= |s| && forall i :: 0 <= i < |r| ==> r[i] < |s| && s[r[i]].None?
  {
    if s == [] then []
    else
      var n := |s| - 1;
      assert forall i :: 0 <= i < n ==> s[..n][i] == s[i];
      if s[n].None? then Open(s[..n]) + [n] else Open(s[..n])
  }

  lemma {:induction false} OpenHas(s: seq<Option<Tx>>, p: nat)
    requires p < |s| && s[p].None?
    ensures p in Open(s)
  {
    var n := |s| - 1;
    if p < n {
      OpenHas(s[..n], p);
    }
  }

  lemma {:induction false} OpenIncreases(s: seq<Option<Tx>>, i: nat, j: nat)
    requires i < j < |Open(s)|
    ensures Open(s)[i] < Open(s)[j]
  {
    var n := |s| - 1;
    if s[n].Some? || j < |Open(s)| - 1 {
      OpenIncreases(s[..n], i, j);
    }
  }

  lemma {:induction false} OpenPrefix(s: seq<Option<Tx>>, q: nat)
    requires q <= |s|
    ensures Open(s[..q]) <= Open(s)
    decreases |s|
  {
    if q < |s| {
      OpenPrefix(s[..|s| - 1], q);
      assert s[..|s| - 1][..q] == s[..q];
    } else {
      assert s[..q] == s;
    }
  }

  /** Filling an open place removes one from the list. */
  lemma {:induction false} OpenFilled(s: seq<Option<Tx>>, p: nat, tx: Tx)
    requires p < |s| && s[p].None?
    ensures |Open(s[p := Some(tx)])| == |Open(s)| - 1
    decreases |s|
  {
    var n := |s| - 1;
    if p < n {
      assert s[p := Some(tx)][..n] == s[..n][p := Some(tx)];
      OpenFilled(s[..n], p, tx);
    } else {
      assert s[p := Some(tx)][..n] == s[..n];
    }
  }

  lemma {:induction false} OpenAll(s: seq<Option<Tx>>)
    requires forall i :: 0 <= i < |s| ==> s[i].None?
    ensures |Open(s)| == |s|
  {
    if s != [] {
      OpenAll(s[..|s| - 1]);
    }
  }

  // ---------- Transactions that are sent along ----------

  function Count(c: CompactBlock): nat {
    |c.shortIds| + |c.prefilled|
  }

  /** The position of the k-th transaction that is sent along. */
  function Position(c: CompactBlock, k: int): int
    requires -1 <= k < |c.prefilled|
    decreases k
  {
    if k < 0 then -1 else Position(c, k - 1) + c.prefilled[k].index + 1
  }

  /** A position must fit in 16 bits and leave enough short ids for the places before it. */
  predicate FineAt(c: CompactBlock, k: int)
    requires 0 <= k < |c.prefilled|
  {
    !c.prefilled[k].tx.isNull && Position(c, k) <= 65_535 && Position(c, k) <= |c.shortIds| + k
  }

  predicate Fine(c: CompactBlock) {
    forall k :: 0 <= k < |c.prefilled| ==> FineAt(c, k)
  }

  lemma {:induction false} PositionsIncrease(c: CompactBlock, j: int, k: int)
    requires -1 <= j < k < |c.prefilled|
    ensures -1 <= Position(c, j) < Position(c, k)
    decreases k
  {
    if k > 0 {
      PositionsIncrease(c, if j < k - 1 then j else -1, k - 1);
    }
  }

  /** The block with the first k of those transactions in place, and nothing else. */
  ghost predicate Placed(c: CompactBlock, k: nat, s: seq<Option<Tx>>) {
    && k <= |c.prefilled| && |s| == Count(c)
    && (forall j :: 0 <= j < k ==> 0 <= Position(c, j) < |s| && s[Position(c, j)] == Some(c.prefilled[j].tx))
    && (forall p :: 0 <= p < |s| && s[p].Some? ==> IsPosition(c, k, p))
    && |Open(s)| == |s| - k
  }

  lemma PlacedNext(c: CompactBlock, k: nat, s: seq<Option<Tx>>)
    requires Placed(c, k, s) && k < |c.prefilled| && Position(c, k) <= |c.shortIds| + k
    ensures 0 <= Position(c, k) < |s| && Placed(c, k + 1, s[Position(c, k) := Some(c.prefilled[k].tx)])
  {
    hide Open, Position;
    var p := Position(c, k);
    PositionsIncrease(c, -1, k);
    NotYetPlaced(c, k, s);
    OpenFilled(s, p, c.prefilled[k].tx);
    var t := s[p := Some(c.prefilled[k].tx)];
    forall j | 0 <= j < k ensures t[Position(c, j)] == Some(c.prefilled[j].tx) {
      PositionsIncrease(c, j, k);
    }
    forall q | 0 <= q < |t| && t[q].Some? ensures IsPosition(c, k + 1, q) {
      if q != p {
        assert s[q].Some?;
        MorePositions(c, k, q);
      }
    }
  }

  /** The place is that of one of the first k transactions sent along. */
  ghost predicate IsPosition(c: CompactBlock, k: nat, q: int)
    requires k <= |c.prefilled|
  {
    exists j :: 0 <= j < k && Position(c, j) == q
  }

  lemma MorePositions(c: CompactBlock, k: nat, q: int)
    requires k < |c.prefilled| && IsPosition(c, k, q)
    ensures IsPosition(c, k + 1, q)
  {
  }

  lemma NotYetPlaced(c: CompactBlock, k: nat, s: seq<Option<Tx>>)
    requires Placed(c, k, s) && k < |c.prefilled| && 0 <= Position(c, k) < |s|
    ensures s[Position(c, k)].None?
  {
    hide Open;
    if s[Position(c, k)].Some? {
      var j :| 0 <= j < k && Position(c, j) == Position(c, k);
      PositionsIncrease(c, j, k);
    }
  }

  /** Puts the transactions that were sent along in their places. */
  method Place(c: CompactBlock) returns (ok: bool, s: seq<Option<Tx>>)
    ensures ok <==> Fine(c)
    ensures |s| == Count(c) && (ok ==> Placed(c, |c.prefilled|, s))
  {
    hide Placed, Open;
    s := seq(Count(c), _ => None);
    PlacedNothing(c, s);
    var last := -1;
    var i := 0;
    while i < |c.prefilled|
      invariant 0 <= i <= |c.prefilled| && last == Position(c, i - 1) && Placed(c, i, s)
      invariant |s| == Count(c) && forall k :: 0 <= k < i ==> FineAt(c, k)
    {
      if c.prefilled[i].tx.isNull {
        assert !FineAt(c, i);
        return false, s;
      }
      last := last + c.prefilled[i].index + 1;
      if last > MAX_UINT16 {
        assert !FineAt(c, i);
        return false, s;
      }
      if last > |c.shortIds| + i {
        assert !FineAt(c, i);
        return false, s;
      }
      PlacedNext(c, i, s);
      s := s[last := Some(c.prefilled[i].tx)];
      i := i + 1;
    }
    return true, s;
  }

  lemma PlacedNothing(c: CompactBlock, s: seq<Option<Tx>>)
    requires |s| == Count(c) && forall i :: 0 <= i < |s| ==> s[i].None?
    ensures Placed(c, 0, s)
  {
    OpenAll(s);
  }

  // ---------- Short ids ----------

  /** The i-th short id leads to the i-th open place. */
  ghost predicate Mapped(c: CompactBlock, s: seq<Option<Tx>>, m: map<nat, nat>) {
    && |Open(s)| == |c.shortIds| == |m| && (forall k :: k in m ==> k in c.shortIds)
    && forall i :: 0 <= i < |c.shortIds| ==> c.shortIds[i] in m && m[c.shortIds[i]] == Open(s)[i]
  }

  /** The first i short ids are all different. */
  ghost predicate DistinctUpTo(ids: seq<nat>, i: nat) {
    i <= |ids| && forall j, k :: 0 <= j < k < i ==> ids[j] != ids[k]
  }

  /** The map after i short ids: either it is right so far, or two of them are the same. */
  ghost predicate MappedSoFar(ids: seq<nat>, places: seq<nat>, m: map<nat, nat>, i: nat) {
    && i <= |ids| == |places| && |m| <= i && (|m| == i <==> DistinctUpTo(ids, i))
    && (forall k :: k in m ==> exists j :: 0 <= j < i && ids[j] == k)
    && (forall j :: 0 <= j < i ==> ids[j] in m)
    && (|m| == i ==> forall j :: 0 <= j < i ==> m[ids[j]] == places[j])
  }

  lemma MapNext(ids: seq<nat>, places: seq<nat>, m: map<nat, nat>, i: nat)
    requires i < |ids| && MappedSoFar(ids, places, m, i)
    ensures MappedSoFar(ids, places, m[ids[i] := places[i]], i + 1)
  {
    hide DistinctUpTo;
    MapSize(m, ids[i], places[i]);
    DistinctNext(ids, i);
    var m' := m[ids[i] := places[i]];
    forall k | k in m' ensures exists j :: 0 <= j < i + 1 && ids[j] == k {
      if k in m {
        var j :| 0 <= j < i && ids[j] == k;
        assert 0 <= j < i + 1;
      }
    }
  }

  lemma DistinctNext(ids: seq<nat>, i: nat)
    requires i < |ids|
    ensures DistinctUpTo(ids, i + 1) <==> DistinctUpTo(ids, i) && forall j :: 0 <= j < i ==> ids[j] != ids[i]
  {
  }

  lemma MapSize(m: map<nat, nat>, k: nat, p: nat)
    ensures |m[k := p]| == if k in m then |m| else |m| + 1
  {
    var m' := m[k := p];
    assert m'.Keys == m.Keys + {k};
    assert |m'| == |m'.Keys| && |m| == |m.Keys|;
  }

  /** No bucket of the hash table gets too full as the short ids are entered, and no two of them are the same. */
  ghost predicate Usable(c: CompactBlock, crowded: nat -> bool) {
    (forall i :: 0 <= i < |c.shortIds| ==> !crowded(i)) && DistinctUpTo(c.shortIds, |c.shortIds|)
  }

  /**
   * Finds the place of every short id. Gives up when two are the same, or when the hash table is too uneven; how it fills
   * is a parameter.
   */
  method MapShortIds(c: CompactBlock, s: seq<Option<Tx>>, crowded: nat -> bool) returns (ok: bool, m: map<nat, nat>)
    requires |Open(s)| == |c.shortIds| && |s| <= MAX_UINT16
    ensures ok <==> Usable(c, crowded)
    ensures ok ==> Mapped(c, s, m)
  {
    hide Open, MappedSoFar, DistinctUpTo;
    m := map[];
    var offset := 0;
    MapStart(c, s);
    var i := 0;
    while i < |c.shortIds|
      invariant 0 <= i <= |c.shortIds| && 0 <= i + offset <= |s| && offset >= 0 && MappedSoFar(c.shortIds, Open(s), m, i)
      invariant |Open(s[..i + offset])| == i && forall j :: 0 <= j < i ==> !crowded(j)
    {
      Reached(s, i + offset, i);
      while s[i + offset].Some?
        invariant 0 <= i + offset < |s| && offset >= 0 && |Open(s[..i + offset])| == i
        decreases |s| - offset
      {
        OpenNext(s, i + offset);
        offset := offset + 1;
        Reached(s, i + offset, i);
      }
      OpenNext(s, i + offset);
      assert offset <= MAX_UINT16 && i + offset <= MAX_UINT16;
      MapNext(c.shortIds, Open(s), m, i);
      m := m[c.shortIds[i] := i + offset];
      if crowded(i) {
        return false, m;
      }
      i := i + 1;
    }
    MapDistinct(c.shortIds, Open(s), m);
    if |m| != |c.shortIds| {
      return false, m;
    }
    MapDone(c, s, m);
    return true, m;
  }

  lemma MapDistinct(ids: seq<nat>, places: seq<nat>, m: map<nat, nat>)
    requires MappedSoFar(ids, places, m, |ids|)
    ensures |m| == |ids| <==> DistinctUpTo(ids, |ids|)
  {}

  lemma MapStart(c: CompactBlock, s: seq<Option<Tx>>)
    requires |Open(s)| == |c.shortIds|
    ensures MappedSoFar(c.shortIds, Open(s), map[], 0) && Open(s[..0]) == []
  {}

  lemma MapDone(c: CompactBlock, s: seq<Option<Tx>>, m: map<nat, nat>)
    requires MappedSoFar(c.shortIds, Open(s), m, |c.shortIds|) && |m| == |c.shortIds|
    ensures Mapped(c, s, m)
  {}

  /** As long as open places are left, the scan is not at the end. */
  lemma Reached(s: seq<Option<Tx>>, q: nat, i: nat)
    requires q <= |s| && |Open(s[..q])| == i < |Open(s)|
    ensures q < |s|
  {
    assert s[..|s|] == s;
  }

  lemma OpenNext(s: seq<Option<Tx>>, q: nat)
    requires q < |s|
    ensures Open(s[..q + 1]) == Open(s[..q]) + if s[q].None? then [q] else []
    ensures s[q].None? ==> |Open(s[..q])| < |Open(s)| && Open(s)[|Open(s[..q])|] == q
  {
    assert s[..q + 1][..q] == s[..q];
    OpenPrefix(s, q + 1);
  }

  // ---------- Known transactions ----------

  /** A transaction on offer: the id it is known by, and the transaction. */
  type Offer = (nat, Tx)

  /** The offer has the short id of place p. */
  predicate Hits(c: CompactBlock, m: map<nat, nat>, o: Offer, p: nat) {
    c.shortId(o.0) in m && m[c.shortId(o.0)] == p
  }

  /** The short ids lead to open places of the block. */
  ghost predicate Leads(m: map<nat, nat>, base: seq<Option<Tx>>) {
    forall k :: k in m ==> m[k] < |base| && base[m[k]].None?
  }

  /**
   * The state of the search. `base` is the block with only the transactions that were sent along, `s` the block so far,
   * `have` marks the places for which an offer has been taken, and `seen` are the offers looked at.
   */
  ghost predicate Matching(c: CompactBlock, m: map<nat, nat>, base: seq<Option<Tx>>,
                           s: seq<Option<Tx>>, have: seq<bool>, seen: seq<Offer>) {
    && |s| == |have| == |base| && Leads(m, base)
    && (forall p :: 0 <= p < |base| && base[p].Some? ==> s[p] == base[p])
    && (forall p :: 0 <= p < |base| && base[p].None? && s[p].Some? ==> have[p])
    && (forall p :: 0 <= p < |base| && have[p] ==> base[p].None? && exists j :: 0 <= j < |seen| && Hits(c, m, seen[j], p))
    && (forall p :: 0 <= p < |base| && base[p].None? && s[p].Some? ==>
          exists j :: 0 <= j < |seen| && Hits(c, m, seen[j], p) && seen[j].1 == s[p].value)
  }

  /** What the search does with one offer. Offers from the extra pool that repeat the transaction are ignored. */
  function Offered(c: CompactBlock, m: map<nat, nat>, s: seq<Option<Tx>>, have: seq<bool>, o: Offer, extra: bool)
    : (r: (seq<Option<Tx>>, seq<bool>))
    requires |s| == |have| && forall k :: k in m ==> m[k] < |s|
  {
    if c.shortId(o.0) !in m then (s, have)
    else
      var p := m[c.shortId(o.0)];
      if !have[p] then (s[p := Some(o.1)], have[p := true])
      else if s[p].Some? && (extra ==> s[p].value.wtxid != o.1.wtxid) then (s[p := None], have)
      else (s, have)
  }

  lemma OfferedKeeps(c: CompactBlock, m: map<nat, nat>, base: seq<Option<Tx>>, s: seq<Option<Tx>>, have: seq<bool>,
                     seen: seq<Offer>, o: Offer, extra: bool)
    requires Matching(c, m, base, s, have, seen)
    ensures var r := Offered(c, m, s, have, o, extra); Matching(c, m, base, r.0, r.1, seen + [o])
  {
    hide Hits;
    var r := Offered(c, m, s, have, o, extra);
    var all := seen + [o];
    assert all[|seen|] == o && forall j :: 0 <= j < |seen| ==> all[j] == seen[j];
    HitsOwn(c, m, o);
    forall p | 0 <= p < |base| && r.1[p] ensures base[p].None? && exists j :: 0 <= j < |all| && Hits(c, m, all[j], p) {
      if have[p] {
        var j :| 0 <= j < |seen| && Hits(c, m, seen[j], p);
        assert Hits(c, m, all[j], p);
      } else {
        assert Hits(c, m, all[|seen|], p);
      }
    }
    forall p | 0 <= p < |base| && base[p].None? && r.0[p].Some?
      ensures exists j :: 0 <= j < |all| && Hits(c, m, all[j], p) && all[j].1 == r.0[p].value
    {
      if s[p] == r.0[p] {
        var j :| 0 <= j < |seen| && Hits(c, m, seen[j], p) && seen[j].1 == s[p].value;
        assert Hits(c, m, all[j], p) && all[j].1 == r.0[p].value;
      } else {
        assert Hits(c, m, all[|seen|], p) && all[|seen|].1 == r.0[p].value;
      }
    }
  }

  lemma HitsOwn(c: CompactBlock, m: map<nat, nat>, o: Offer)
    ensures c.shortId(o.0) in m ==> Hits(c, m, o, m[c.shortId(o.0)])
  {}

  lemma OpenCleared(s: seq<Option<Tx>>, p: nat)
    requires p < |s| && s[p].Some?
    ensures |Open(s[p := None])| == |Open(s)| + 1
  {
    OpenFilled(s[p := None], p, s[p].value);
    assert s[p := None][p := s[p]] == s;
  }

  /** How the number of found transactions changes with an offer. */
  function Gain(s: seq<Option<Tx>>, t: seq<Option<Tx>>): int {
    |Open(s)| - |Open(t)|
  }

  /** If the offer hits a place, it is the transaction of the block there. */
  predicate HonestOffer(c: CompactBlock, m: map<nat, nat>, block: seq<Tx>, o: Offer) {
    c.shortId(o.0) in m ==>
      var p := m[c.shortId(o.0)];
      p < |block| && o == (block[p].wtxid, block[p])
  }

  /** No two transactions share a short id. */
  ghost predicate Honest(c: CompactBlock, m: map<nat, nat>, block: seq<Tx>, offers: seq<Offer>) {
    forall j :: 0 <= j < |offers| ==> HonestOffer(c, m, block, offers[j])
  }

  /** Every place that some offer hits is filled. */
  ghost predicate Complete(c: CompactBlock, m: map<nat, nat>, s: seq<Option<Tx>>, offers: seq<Offer>) {
    forall j, p: nat :: 0 <= j < |offers| && p < |s| && Hits(c, m, offers[j], p) ==> s[p].Some?
  }

  ghost predicate DistinctIds(offers: seq<Offer>) {
    forall i, j :: 0 <= i < j < |offers| ==> offers[i].0 != offers[j].0
  }

  /** No two transactions share a short id. In the memory pool, no two have the same id either. */
  ghost predicate Undisturbed(c: CompactBlock, m: map<nat, nat>, block: seq<Tx>, offers: seq<Offer>, extra: bool) {
    Honest(c, m, block, offers) && (!extra ==> DistinctIds(offers))
  }

  /** Without collisions no transaction is dropped again. */
  lemma OfferedCompletes(c: CompactBlock, m: map<nat, nat>, base: seq<Option<Tx>>, s: seq<Option<Tx>>, have: seq<bool>,
                         seen: seq<Offer>, o: Offer, extra: bool, block: seq<Tx>)
    requires Matching(c, m, base, s, have, seen) && Complete(c, m, s, seen)
    requires Undisturbed(c, m, block, seen + [o], extra)
    ensures Complete(c, m, Offered(c, m, s, have, o, extra).0, seen + [o])
  {
    hide Hits;
    var all := seen + [o];
    assert all[|seen|] == o && forall j :: 0 <= j < |seen| ==> all[j] == seen[j];
    HitsOwn(c, m, o);
    if c.shortId(o.0) in m {
      var p := m[c.shortId(o.0)];
      assert Hits(c, m, all[|seen|], p);
      if have[p] {
        var j :| 0 <= j < |seen| && Hits(c, m, seen[j], p);
        assert Hits(c, m, all[j], p);
        assert s[p].Some?;
        var i :| 0 <= i < |seen| && Hits(c, m, seen[i], p) && seen[i].1 == s[p].value;
        assert Hits(c, m, all[i], p);
        HonestAt(c, m, block, all, i, p);
        HonestAt(c, m, block, all, |seen|, p);
        assert all[i].0 == all[|seen|].0;
      }
      HitsOnce(c, m, o);
    } else {
      HitsNowhere(c, m, o);
    }
  }

  lemma HonestAt(c: CompactBlock, m: map<nat, nat>, block: seq<Tx>, offers: seq<Offer>, j: nat, p: nat)
    requires Honest(c, m, block, offers) && j < |offers| && Hits(c, m, offers[j], p)
    ensures p < |block| && offers[j] == (block[p].wtxid, block[p])
  {
    assert HonestOffer(c, m, block, offers[j]);
  }

  lemma HitsOnce(c: CompactBlock, m: map<nat, nat>, o: Offer)
    requires c.shortId(o.0) in m
    ensures forall p :: Hits(c, m, o, p) ==> p == m[c.shortId(o.0)]
  {}

  lemma HitsNowhere(c: CompactBlock, m: map<nat, nat>, o: Offer)
    requires c.shortId(o.0) !in m
    ensures forall p :: !Hits(c, m, o, p)
  {}

  lemma MatchingMore(c: CompactBlock, m: map<nat, nat>, base: seq<Option<Tx>>, s: seq<Option<Tx>>, have: seq<bool>,
                     seen: seq<Offer>, more: seq<Offer>)
    requires Matching(c, m, base, s, have, seen)
    ensures Matching(c, m, base, s, have, seen + more)
  {
    hide Hits;
    var all := seen + more;
    assert forall j :: 0 <= j < |seen| ==> all[j] == seen[j];
    forall p | 0 <= p < |base| && have[p] ensures exists j :: 0 <= j < |all| && Hits(c, m, all[j], p) {
      var j :| 0 <= j < |seen| && Hits(c, m, seen[j], p);
      assert Hits(c, m, all[j], p);
    }
    forall p | 0 <= p < |base| && base[p].None? && s[p].Some?
      ensures exists j :: 0 <= j < |all| && Hits(c, m, all[j], p) && all[j].1 == s[p].value
    {
      var j :| 0 <= j < |seen| && Hits(c, m, seen[j], p) && seen[j].1 == s[p].value;
      assert Hits(c, m, all[j], p) && all[j].1 == s[p].value;
    }
  }

  /** How an offer is counted. */
  ghost function Change(c: CompactBlock, m: map<nat, nat>, s: seq<Option<Tx>>, have: seq<bool>, o: Offer, extra: bool): int
    requires |s| == |have| && forall k :: k in m ==> m[k] < |s|
  {
    if c.shortId(o.0) !in m then 0
    else
      var p := m[c.shortId(o.0)];
      if !have[p] then 1 else if s[p].Some? && (extra ==> s[p].value.wtxid != o.1.wtxid) then -1 else 0
  }

  /** An offer is counted by what it changes. */
  lemma OfferedGain(c: CompactBlock, m: map<nat, nat>, base: seq<Option<Tx>>, s: seq<Option<Tx>>, have: seq<bool>,
                    seen: seq<Offer>, o: Offer, extra: bool)
    requires Matching(c, m, base, s, have, seen)
    ensures Gain(s, Offered(c, m, s, have, o, extra).0) == Change(c, m, s, have, o, extra)
  {
    hide Open, Hits;
    if c.shortId(o.0) in m {
      var p := m[c.shortId(o.0)];
      if !have[p] {
        OpenFilled(s, p, o.1);
      } else if s[p].Some? {
        OpenCleared(s, p);
      }
    }
  }

  /** With no place open, everything is complete. */
  lemma NothingOpen(c: CompactBlock, m: map<nat, nat>, s: seq<Option<Tx>>, offers: seq<Offer>)
    requires |Open(s)| == 0
    ensures Complete(c, m, s, offers)
  {
    hide Hits;
    forall p: nat | p < |s| ensures s[p].Some? {
      if s[p].None? {
        OpenHas(s, p);
      }
    }
  }

  /** How far a search has come: the block so far, the places for which an offer has been taken, and the count. */
  datatype Found = Found(s: seq<Option<Tx>>, have: seq<bool>, count: int)

  /** After one more offer. */
  ghost function Next(c: CompactBlock, m: map<nat, nat>, at: Found, o: Offer, extra: bool): (r: Found)
    requires |at.s| == |at.have| && forall k :: k in m ==> m[k] < |at.s|
    ensures |r.s| == |r.have| == |at.s|
  {
    var (s, have) := Offered(c, m, at.s, at.have, o, extra);
    Found(s, have, at.count + Change(c, m, at.s, at.have, o, extra))
  }

  /** The whole search: offer after offer, until as many transactions as there are short ids have been found. */
  ghost function Searched(c: CompactBlock, m: map<nat, nat>, at: Found, offers: seq<Offer>, extra: bool): (r: Found)
    requires |at.s| == |at.have| && forall k :: k in m ==> m[k] < |at.s|
    ensures |r.s| == |r.have| == |at.s|
    decreases |offers|
  {
    if offers == [] then at
    else
      var next := Next(c, m, at, offers[0], extra);
      if next.count == |m| then next else Searched(c, m, next, offers[1..], extra)
  }

  /** What comes after the last transaction was found does not matter, not even a collision. */
  lemma {:induction false} SearchStops(c: CompactBlock, m: map<nat, nat>, at: Found, offers: seq<Offer>, more: seq<Offer>, extra: bool)
    requires |at.s| == |at.have| && (forall k :: k in m ==> m[k] < |at.s|) && offers != []
    requires Searched(c, m, at, offers, extra).count == |m|
    ensures Searched(c, m, at, offers + more, extra) == Searched(c, m, at, offers, extra)
    decreases |offers|
  {
    hide Next;
    var next := Next(c, m, at, offers[0], extra);
    assert (offers + more)[1..] == offers[1..] + more;
    if next.count != |m| {
      SearchStops(c, m, next, offers[1..], more, extra);
    }
  }

  /** The search has come that far by the offers seen, and the count is right if it started at zero. */
  ghost predicate Sound(c: CompactBlock, m: map<nat, nat>, base: seq<Option<Tx>>, at: Found, seen: seq<Offer>, start: int) {
    Matching(c, m, base, at.s, at.have, seen) && at.count == start + Gain(base, at.s)
  }

  lemma NextSound(c: CompactBlock, m: map<nat, nat>, base: seq<Option<Tx>>, at: Found, seen: seq<Offer>, start: int, o: Offer, extra: bool)
    requires Sound(c, m, base, at, seen, start)
    ensures Sound(c, m, base, Next(c, m, at, o, extra), seen + [o], start)
  {
    hide Matching, Offered, Change, Open;
    MatchingLeads(c, m, base, at.s, at.have, seen);
    OfferedKeeps(c, m, base, at.s, at.have, seen, o, extra);
    OfferedGain(c, m, base, at.s, at.have, seen, o, extra);
  }

  /** A search takes only offers, and without collisions it takes every offer that belongs to the block. */
  lemma {:induction false} SearchedSound(c: CompactBlock, m: map<nat, nat>, base: seq<Option<Tx>>, at: Found, offers: seq<Offer>,
                                         extra: bool, seen: seq<Offer>, start: int, block: seq<Tx>)
    requires Sound(c, m, base, at, seen, start) && |m| == |Open(base)|
    ensures |at.s| == |at.have| && (forall k :: k in m ==> m[k] < |at.s|)
    ensures Sound(c, m, base, Searched(c, m, at, offers, extra), seen + offers, start)
    ensures start == 0 && Undisturbed(c, m, block, seen + offers, extra) && Complete(c, m, at.s, seen) ==>
              Complete(c, m, Searched(c, m, at, offers, extra).s, seen + offers)
    decreases |offers|
  {
    hide Sound, Next, Open, Complete, Undisturbed;
    SoundLeads(c, m, base, at, seen, start);
    if offers == [] {
      assert seen + offers == seen;
    } else {
      var o, next := offers[0], Next(c, m, at, offers[0], extra);
      NextSound(c, m, base, at, seen, start, o, extra);
      NextComplete(c, m, base, at, offers, extra, seen, start, block);
      assert seen + [o] + offers[1..] == seen + offers;
      if next.count == |m| {
        AllFound(c, m, base, next, seen + [o], offers[1..], start);
      } else {
        SearchedSound(c, m, base, next, offers[1..], extra, seen + [o], start, block);
      }
    }
  }

  lemma SoundLeads(c: CompactBlock, m: map<nat, nat>, base: seq<Option<Tx>>, at: Found, seen: seq<Offer>, start: int)
    requires Sound(c, m, base, at, seen, start)
    ensures |at.s| == |at.have| == |base| && forall k :: k in m ==> m[k] < |at.s|
  {
  }

  lemma NextComplete(c: CompactBlock, m: map<nat, nat>, base: seq<Option<Tx>>, at: Found, offers: seq<Offer>,
                     extra: bool, seen: seq<Offer>, start: int, block: seq<Tx>)
    requires Sound(c, m, base, at, seen, start) && offers != []
    ensures Undisturbed(c, m, block, seen + offers, extra) && Complete(c, m, at.s, seen) ==>
              Complete(c, m, Next(c, m, at, offers[0], extra).s, seen + [offers[0]])
  {
    hide Complete, Undisturbed, Matching, Gain;
    if Undisturbed(c, m, block, seen + offers, extra) && Complete(c, m, at.s, seen) {
      FirstOffers(c, m, seen, offers, 1, block, extra);
      assert offers[..1] == [offers[0]];
      OfferedCompletes(c, m, base, at.s, at.have, seen, offers[0], extra, block);
    }
  }

  /** With as many found as there are short ids, further offers are not needed. */
  lemma AllFound(c: CompactBlock, m: map<nat, nat>, base: seq<Option<Tx>>, at: Found, seen: seq<Offer>, more: seq<Offer>, start: int)
    requires Sound(c, m, base, at, seen, start) && at.count == |m| == |Open(base)|
    ensures Sound(c, m, base, at, seen + more, start) && (start == 0 ==> Complete(c, m, at.s, seen + more))
  {
    hide Matching, Complete, Open;
    MatchingMore(c, m, base, at.s, at.have, seen, more);
    if start == 0 {
      NothingOpen(c, m, at.s, seen + more);
    }
  }

  class PartiallyDownloadedBlock {
    var header: Header
    var txnAvailable: seq<Option<Tx>>
    var prefilledCount: int
    var mempoolCount: int

    /** The transactions of the memory pool with their ids, in the pool's own order. */
    const pool: seq<Offer>

    constructor (pool: seq<Offer>)
      ensures header == Null && txnAvailable == [] && prefilledCount == 0 && mempoolCount == 0 && this.pool == pool
    {
      this.pool := pool;
      header, txnAvailable, prefilledCount, mempoolCount := Null, [], 0, 0;
    }

    /** Looks for the missing transactions among the offers, until all are found. */
    method Search(c: CompactBlock, m: map<nat, nat>, have: seq<bool>, offers: seq<Offer>, extra: bool) returns (have': seq<bool>)
      requires |txnAvailable| == |have| && forall k :: k in m ==> m[k] < |have|
      modifies this`txnAvailable, this`mempoolCount
      ensures Found(txnAvailable, have', mempoolCount)
           == Searched(c, m, Found(old(txnAvailable), have, old(mempoolCount)), offers, extra)
    {
      hide Offered, Change;
      have' := have;
      var i := 0;
      while i < |offers|
        invariant 0 <= i <= |offers| && |txnAvailable| == |have'| == |have|
        invariant Searched(c, m, Found(txnAvailable, have', mempoolCount), offers[i..], extra)
               == Searched(c, m, Found(old(txnAvailable), have, old(mempoolCount)), offers, extra)
      {
        assert offers[i..][1..] == offers[i + 1..];
        have' := Take(c, m, have', offers[i], extra);
        i := i + 1;
        if mempoolCount == |m| {
          return;
        }
      }
    }

    /** Looks at one offer. A second offer with the same short id makes the transaction be requested after all. */
    method Take(c: CompactBlock, m: map<nat, nat>, have: seq<bool>, o: Offer, extra: bool) returns (have': seq<bool>)
      requires |txnAvailable| == |have| && forall k :: k in m ==> m[k] < |have|
      modifies this`txnAvailable, this`mempoolCount
      ensures Found(txnAvailable, have', mempoolCount) == Next(c, m, Found(old(txnAvailable), have, old(mempoolCount)), o, extra)
    {
      have' := have;
      var shortId := c.shortId(o.0);
      if shortId in m {
        var p := m[shortId];
        if !have[p] {
          txnAvailable := txnAvailable[p := Some(o.1)];
          have' := have[p := true];
          mempoolCount := mempoolCount + 1;
        } else if txnAvailable[p].Some? && (!extra || txnAvailable[p].value.wtxid != o.1.wtxid) {
          txnAvailable := txnAvailable[p := None];
          mempoolCount := mempoolCount - 1;
        }
      }
    }

    /** A compact block that is not even looked at: it is empty or too large, or another one is being worked on. */
    predicate Refuses(c: CompactBlock)
      reads this
    {
      c.header.Null? || Count(c) == 0 || Count(c) > 100_000 || !header.Null? || txnAvailable != []
    }

    /** The outcome of a successful start: the block as far as it is known, and the number of transactions found. */
    ghost predicate Started(c: CompactBlock, base: seq<Option<Tx>>, m: map<nat, nat>, offers: seq<Offer>)
      reads this
    {
      && header == c.header && Placed(c, |c.prefilled|, base) && Mapped(c, base, m) && |txnAvailable| == Count(c)
      && prefilledCount == |c.prefilled|
      && exists have :: Matching(c, m, base, txnAvailable, have, offers)
    }

    /**
     * Starts the reconstruction of a block. The number of transactions counts up from its former value by those found for
     * short ids, so it is the number found exactly if it was zero. Without collisions, and if it was zero, all
     * transactions on offer that belong to the block are found.
     */
    method InitData(c: CompactBlock, extra: seq<Offer>, crowded: nat -> bool, ghost block: seq<Tx>)
      returns (status: ReadStatus, ghost base: seq<Option<Tx>>, ghost m: map<nat, nat>)
      requires Count(c) <= MAX_UINT16 || Count(c) > MAX_TRANSACTIONS
      modifies this
      ensures status == INVALID <==> old(Refuses(c)) || !Fine(c)
      ensures old(Refuses(c)) ==> header == old(header) && txnAvailable == old(txnAvailable) && prefilledCount == old(prefilledCount)
      ensures !old(Refuses(c)) ==> header == c.header && |txnAvailable| == Count(c)
      ensures status == FAILED ==> Placed(c, |c.prefilled|, txnAvailable)
      ensures status != OK ==> mempoolCount == old(mempoolCount)
      ensures status != INVALID ==> (status == OK <==> Usable(c, crowded))
      ensures status == OK ==> Started(c, base, m, pool + extra)
      ensures status == OK ==>
        && (forall k :: k in m ==> m[k] < |base|)
        && var none := Found(base, seq(|base|, _ => false), old(mempoolCount));
        && var both := Searched(c, m, Searched(c, m, none, pool, false), extra, true);
        txnAvailable == both.s && mempoolCount == both.count
      ensures status == OK ==> mempoolCount == old(mempoolCount) + |c.shortIds| - |Open(txnAvailable)|
      ensures status == OK ==> (mempoolCount == |c.shortIds| - |Open(txnAvailable)| <==> old(mempoolCount) == 0)
      ensures status == OK && old(mempoolCount) == 0 && DistinctIds(pool) && Honest(c, m, block, pool + extra) ==>
                Complete(c, m, txnAvailable, pool + extra)
    {
      hide Open, Mapped, Placed, Complete, Honest, DistinctIds, Matching, Searched;
      base, m := [], map[];
      if c.header.Null? || (|c.shortIds| == 0 && |c.prefilled| == 0) {
        return INVALID, base, m;
      }
      if |c.shortIds| + |c.prefilled| > MAX_TRANSACTIONS {
        return INVALID, base, m;
      }
      if !header.Null? || txnAvailable != [] {
        return INVALID, base, m;
      }
      header := c.header;
      var ok, s := Place(c);
      txnAvailable := s;
      if !ok {
        return INVALID, base, m;
      }
      base := s;
      prefilledCount := |c.prefilled|;
      PlacedSize(c, s);
      var fits, places := MapShortIds(c, s, crowded);
      m := places;
      if !fits {
        return FAILED, base, m;
      }
      ghost var start := mempoolCount;
      var have := seq(|txnAvailable|, _ => false);
      MatchingStart(c, m, base, have);
      MatchingLeads(c, m, base, txnAvailable, have, []);
      ghost var none := Found(txnAvailable, have, mempoolCount);
      have := Search(c, places, have, pool, false);
      have := Search(c, places, have, extra, true);
      SearchedSound(c, m, base, none, pool, false, [], start, block);
      assert [] + pool == pool;
      SearchedSound(c, m, base, Searched(c, m, none, pool, false), extra, true, pool, start, block);
      OnlyPool(c, m, block, pool, extra);
      MappedSize(c, m, base);
      MatchingSize(c, m, base, txnAvailable, have, pool + extra);
      status := OK;
    }

    method IsTxAvailable(index: nat) returns (r: bool)
      requires header.Null? || index < |txnAvailable|
      ensures r <==> !header.Null? && txnAvailable[index].Some?
    {
      return !header.Null? && txnAvailable[index].Some?;
    }

    /** Completes the block with the transactions that were missing, in order. The check for mutation is a parameter. */
    method FillBlock(missing: seq<Tx>, mutated: bool) returns (status: ReadStatus, vtx: seq<Option<Tx>>)
      modifies this`header, this`txnAvailable
      ensures old(header).Null? ==> status == INVALID && header == old(header) && txnAvailable == old(txnAvailable)
      ensures !old(header).Null? && |missing| < |Open(old(txnAvailable))| ==>
                status == INVALID && header == old(header) && txnAvailable == Moved(old(txnAvailable), Open(old(txnAvailable))[|missing|])
      ensures !old(header).Null? && |missing| >= |Open(old(txnAvailable))| ==> header == Null && txnAvailable == []
      ensures !old(header).Null? && |missing| > |Open(old(txnAvailable))| ==> status == INVALID
      ensures !old(header).Null? && |missing| == |Open(old(txnAvailable))| ==>
                status == (if mutated then FAILED else OK) && vtx == All(FilledUp(old(txnAvailable), missing))
    {
      hide Open, FilledUp, Moved;
      if header.Null? {
        return INVALID, [];
      }
      ghost var s := txnAvailable;
      vtx := seq(|txnAvailable|, _ => None);
      var offset := 0;
      FillStart(s, missing);
      var i := 0;
      while i < |txnAvailable|
        invariant 0 <= i <= |txnAvailable| == |s| == |vtx| && 0 <= offset == |Open(s[..i])| <= |missing|
        invariant txnAvailable == Moved(s, i) && header == old(header)
        invariant vtx[..i] == All(FilledUp(s[..i], missing[..offset]))
      {
        OpenNext(s, i);
        OpenPrefix(s, i + 1);
        MovedNext(s, i);
        FillNext(s, missing, i, offset);
        if txnAvailable[i].None? {
          if offset >= |missing| {
            return INVALID, vtx;
          }
          vtx := vtx[i := Some(missing[offset])];
          offset := offset + 1;
        } else {
          vtx := vtx[i := txnAvailable[i]];
          txnAvailable := txnAvailable[i := None];
        }
        i := i + 1;
      }
      header := Null;
      txnAvailable := [];
      assert s[..i] == s;
      if |missing| != offset {
        return INVALID, vtx;
      }
      assert missing[..offset] == missing && vtx[..i] == vtx;
      status := if mutated then FAILED else OK;
    }
  }

  // ---------- Filling ----------

  function All(s: seq<Tx>): (r: seq<Option<Tx>>)
    ensures |r| == |s| && forall i :: 0 <= i < |s| ==> r[i] == Some(s[i])
  {
    seq(|s|, i requires 0 <= i < |s| => Some(s[i]))
  }

  /** The block with its open places filled in order. */
  function FilledUp(s: seq<Option<Tx>>, missing: seq<Tx>): (r: seq<Tx>)
    requires |missing| == |Open(s)|
    ensures |r| == |s|
  {
    if s == [] then []
    else
      var n := |s| - 1;
      if s[n].None? then FilledUp(s[..n], missing[..|missing| - 1]) + [missing[|missing| - 1]]
      else FilledUp(s[..n], missing) + [s[n].value]
  }

  /** The transactions of the first i places have been moved away. */
  function Moved(s: seq<Option<Tx>>, i: nat): seq<Option<Tx>>
    requires i <= |s|
  {
    seq(i, _ => None) + s[i..]
  }

  lemma MovedNext(s: seq<Option<Tx>>, i: nat)
    requires i < |s|
    ensures Moved(s, i)[i] == s[i] && Moved(s, i + 1) == Moved(s, i)[i := None]
  {}

  lemma FillStart(s: seq<Option<Tx>>, missing: seq<Tx>)
    ensures Moved(s, 0) == s && Open(s[..0]) == [] && FilledUp(s[..0], missing[..0]) == []
  {}

  lemma FillNext(s: seq<Option<Tx>>, missing: seq<Tx>, i: nat, offset: nat)
    requires i < |s| && offset == |Open(s[..i])| <= |missing|
    ensures s[i].Some? ==> |Open(s[..i + 1])| == offset
    ensures s[i].Some? ==> FilledUp(s[..i + 1], missing[..offset]) == FilledUp(s[..i], missing[..offset]) + [s[i].value]
    ensures s[i].None? && offset < |missing| ==> |Open(s[..i + 1])| == offset + 1
    ensures s[i].None? && offset < |missing| ==>
              FilledUp(s[..i + 1], missing[..offset + 1]) == FilledUp(s[..i], missing[..offset]) + [missing[offset]]
  {
    assert s[..i + 1][..i] == s[..i];
    if offset < |missing| {
      assert missing[..offset + 1][..offset] == missing[..offset];
    }
  }

  lemma PlacedSize(c: CompactBlock, s: seq<Option<Tx>>)
    requires Placed(c, |c.prefilled|, s)
    ensures |s| == Count(c) && |Open(s)| == |c.shortIds|
  {}

  lemma MappedSize(c: CompactBlock, m: map<nat, nat>, base: seq<Option<Tx>>)
    requires Mapped(c, base, m)
    ensures |m| == |Open(base)| == |c.shortIds|
  {}

  lemma MatchingLeads(c: CompactBlock, m: map<nat, nat>, base: seq<Option<Tx>>, s: seq<Option<Tx>>, have: seq<bool>,
                      seen: seq<Offer>)
    requires Matching(c, m, base, s, have, seen)
    ensures |s| == |have| == |base| && forall k :: k in m ==> m[k] < |base|
  {}

  lemma MatchingSize(c: CompactBlock, m: map<nat, nat>, base: seq<Option<Tx>>, s: seq<Option<Tx>>, have: seq<bool>,
                     seen: seq<Offer>)
    requires Matching(c, m, base, s, have, seen)
    ensures |s| == |base|
  {}

  lemma MatchingStart(c: CompactBlock, m: map<nat, nat>, base: seq<Option<Tx>>, have: seq<bool>)
    requires Mapped(c, base, m) && |have| == |base| && forall p :: 0 <= p < |have| ==> !have[p]
    ensures Matching(c, m, base, base, have, []) && |m| == |Open(base)| && Complete(c, m, base, [])
  {
    forall k | k in m ensures m[k] < |base| && base[m[k]].None? {
      var i :| 0 <= i < |c.shortIds| && c.shortIds[i] == k;
    }
  }

  lemma OnlyPool(c: CompactBlock, m: map<nat, nat>, block: seq<Tx>, pool: seq<Offer>, extra: seq<Offer>)
    ensures Honest(c, m, block, pool + extra) && DistinctIds(pool) ==>
              Undisturbed(c, m, block, pool, false) && Undisturbed(c, m, block, pool + extra, true)
  {
    hide Hits;
    assert pool + extra[..0] == pool;
    if Honest(c, m, block, pool + extra) {
      FirstOffers(c, m, pool, extra, 0, block, true);
    }
  }

  lemma FirstOffers(c: CompactBlock, m: map<nat, nat>, seen: seq<Offer>, offers: seq<Offer>, i: nat, block: seq<Tx>, extra: bool)
    requires i <= |offers| && Undisturbed(c, m, block, seen + offers, extra)
    ensures Undisturbed(c, m, block, seen + offers[..i], extra)
  {
    var all, first := seen + offers, seen + offers[..i];
    assert forall j :: 0 <= j < |first| ==> first[j] == all[j];
    if !extra {
      forall j, k | 0 <= j < k < |first| ensures first[j].0 != first[k].0 {
        assert all[j].0 != all[k].0;
      }
    }
  }

  // ---------- Reconstruction ----------

  /** The compact block stands for the block. */
  ghost predicate Describes(c: CompactBlock, block: seq<Tx>) {
    && Fine(c) && |block| == Count(c)
    && (forall j :: 0 <= j < |c.prefilled| ==> 0 <= Position(c, j) < |block| && block[Position(c, j)] == c.prefilled[j].tx)
    && (forall base :: Placed(c, |c.prefilled|, base) ==> ShortIdsOf(c, base, block))
  }

  /** The short ids are those of the transactions at the open places. */
  ghost predicate ShortIdsOf(c: CompactBlock, base: seq<Option<Tx>>, block: seq<Tx>) {
    && |Open(base)| == |c.shortIds| && |base| == |block|
    && forall i :: 0 <= i < |c.shortIds| ==> c.shortIds[i] == c.shortId(block[Open(base)[i]].wtxid)
  }

  /** No transaction on offer has the short id of another transaction of the block. */
  ghost predicate NoCollisions(c: CompactBlock, block: seq<Tx>, offers: seq<Offer>) {
    forall j, p :: 0 <= j < |offers| && 0 <= p < |block| && c.shortId(offers[j].0) == c.shortId(block[p].wtxid) ==>
      offers[j] == (block[p].wtxid, block[p])
  }

  lemma NoCollisionsHonest(c: CompactBlock, m: map<nat, nat>, base: seq<Option<Tx>>, block: seq<Tx>, offers: seq<Offer>)
    requires Mapped(c, base, m) && ShortIdsOf(c, base, block) && NoCollisions(c, block, offers)
    ensures Honest(c, m, block, offers)
  {
    forall j | 0 <= j < |offers| ensures HonestOffer(c, m, block, offers[j]) {
      var k := c.shortId(offers[j].0);
      if k in m {
        var i :| 0 <= i < |c.shortIds| && c.shortIds[i] == k;
        assert c.shortId(block[m[k]].wtxid) == k;
      }
    }
  }

  /** Whatever is in place is the transaction of the block. */
  lemma AvailableIsRight(c: CompactBlock, m: map<nat, nat>, base: seq<Option<Tx>>, s: seq<Option<Tx>>, have: seq<bool>,
                         block: seq<Tx>, offers: seq<Offer>)
    requires Describes(c, block) && Placed(c, |c.prefilled|, base) && Mapped(c, base, m)
    requires Matching(c, m, base, s, have, offers) && NoCollisions(c, block, offers)
    ensures |s| == |block| && forall p :: 0 <= p < |s| && s[p].Some? ==> s[p].value == block[p]
  {
    hide Hits, Open, NoCollisions;
    NoCollisionsHonest(c, m, base, block, offers);
    forall p | 0 <= p < |s| && s[p].Some? ensures s[p].value == block[p] {
      if base[p].Some? {
        var j :| 0 <= j < |c.prefilled| && Position(c, j) == p;
      } else {
        var j :| 0 <= j < |offers| && Hits(c, m, offers[j], p) && offers[j].1 == s[p].value;
        HonestAt(c, m, block, offers, j, p);
      }
    }
  }

  /** The transactions of the block at the open places. */
  function Requested(block: seq<Tx>, places: seq<nat>): (r: seq<Tx>)
    requires forall i :: 0 <= i < |places| ==> places[i] < |block|
    ensures |r| == |places| && forall i :: 0 <= i < |r| ==> r[i] == block[places[i]]
  {
    seq(|places|, i requires 0 <= i < |places| => block[places[i]])
  }

  /** Filling the open places with their transactions gives the block. */
  lemma {:induction false} FilledIsBlock(s: seq<Option<Tx>>, block: seq<Tx>)
    requires |s| == |block| && forall p :: 0 <= p < |s| && s[p].Some? ==> s[p].value == block[p]
    ensures FilledUp(s, Requested(block, Open(s))) == block
  {
    if s != [] {
      var n := |s| - 1;
      FilledIsBlock(s[..n], block[..n]);
      assert block == block[..n] + [block[n]];
      var all, first := Requested(block, Open(s)), Requested(block[..n], Open(s[..n]));
      if s[n].None? {
        assert all[..|all| - 1] == first;
      } else {
        assert all == first;
      }
    }
  }

  /** The requests are exactly for transactions of the block that were neither sent along nor on offer. */
  ghost predicate NotOnOffer(c: CompactBlock, block: seq<Tx>, offers: seq<Offer>, p: int)
    requires 0 <= p < |block|
  {
    forall j :: 0 <= j < |offers| ==> c.shortId(offers[j].0) != c.shortId(block[p].wtxid)
  }

  lemma OpenNotOnOffer(c: CompactBlock, m: map<nat, nat>, base: seq<Option<Tx>>, s: seq<Option<Tx>>, have: seq<bool>,
                       block: seq<Tx>, offers: seq<Offer>)
    requires Placed(c, |c.prefilled|, base) && Mapped(c, base, m) && ShortIdsOf(c, base, block)
    requires Matching(c, m, base, s, have, offers) && Complete(c, m, s, offers)
    ensures |s| == |block| && forall p :: 0 <= p < |s| && s[p].None? ==> NotOnOffer(c, block, offers, p)
  {
    forall p, j | 0 <= p < |s| && s[p].None? && 0 <= j < |offers| ensures c.shortId(offers[j].0) != c.shortId(block[p].wtxid) {
      OpenHas(base, p);
      var i :| 0 <= i < |Open(base)| && Open(base)[i] == p;
      if c.shortId(offers[j].0) == c.shortIds[i] {
        assert Hits(c, m, offers[j], p);
      }
    }
  }

  /**
   * A whole exchange: start with what is known, request what is missing, fill it in. In the absence of colliding short
   * ids the block comes out, and nothing was requested that was on offer.
   */
  method Exchange(pd: PartiallyDownloadedBlock, c: CompactBlock, extra: seq<Offer>, crowded: nat -> bool, block: seq<Tx>,
                  mutated: bool)
    returns (start: ReadStatus, status: ReadStatus, vtx: seq<Option<Tx>>, requests: seq<nat>)
    requires Count(c) <= MAX_UINT16 && !c.header.Null? && Describes(c, block) && NoCollisions(c, block, pd.pool + extra)
    requires pd.header.Null? && pd.txnAvailable == [] && pd.mempoolCount == 0 && DistinctIds(pd.pool)
    modifies pd
    ensures start == if Count(c) == 0 then INVALID else if Usable(c, crowded) then OK else FAILED
    ensures start == OK ==> status == (if mutated then FAILED else OK) && vtx == All(block)
    ensures start == OK ==> forall i :: 0 <= i < |requests| ==>
                              requests[i] < |block| && NotOnOffer(c, block, pd.pool + extra, requests[i])
    ensures start == OK ==> pd.header.Null? && pd.txnAvailable == [] && pd.mempoolCount == |c.shortIds| - |requests|
  {
    hide Open, Placed, Mapped, Matching, NoCollisions, DistinctIds, Honest, Complete, FilledUp, NotOnOffer;
    ghost var base, m;
    requests := [];
    start, base, m := pd.InitData(c, extra, crowded, block);
    if start != OK {
      return start, start, [], requests;
    }
    NoCollisionsHonest(c, m, base, block, pd.pool + extra);
    ghost var have :| Matching(c, m, base, pd.txnAvailable, have, pd.pool + extra);
    AvailableIsRight(c, m, base, pd.txnAvailable, have, block, pd.pool + extra);
    OpenNotOnOffer(c, m, base, pd.txnAvailable, have, block, pd.pool + extra);
    var missing := [];
    requests, missing := Request(pd, block);
    FilledIsBlock(pd.txnAvailable, block);
    status, vtx := pd.FillBlock(missing, mutated);
  }

  /** The positions a node asks for, and the answer of a peer that has the block. */
  method Request(pd: PartiallyDownloadedBlock, block: seq<Tx>) returns (requests: seq<nat>, missing: seq<Tx>)
    requires !pd.header.Null? && |pd.txnAvailable| == |block|
    ensures requests == Open(pd.txnAvailable) && missing == Requested(block, requests)
  {
    hide Open;
    ghost var s := pd.txnAvailable;
    requests, missing := [], [];
    var i := 0;
    RequestStart(s);
    while i < |pd.txnAvailable|
      invariant 0 <= i <= |s| && requests == Open(s[..i]) && missing == Requested(block, requests)
    {
      OpenNext(s, i);
      var r := pd.IsTxAvailable(i);
      if !r {
        requests := requests + [i];
        missing := missing + [block[i]];
      }
      i := i + 1;
    }
    assert s[..i] == s;
  }

  lemma RequestStart(s: seq<Option<Tx>>)
    ensures Open(s[..0]) == []
  {}

  /** The compact form of a block: the first transaction, and the short ids of the others. */
  method MakeCompact(header: Header, block: seq<Tx>, shortId: nat -> nat) returns (c: CompactBlock)
    requires |block| > 0 && !block[0].isNull
    ensures c.header == header && c.shortId == shortId && Describes(c, block)
    ensures |c.shortIds| == |block| - 1 && |c.prefilled| == 1
  {
    hide Open, Placed;
    var shortIds := [];
    var i := 1;
    while i < |block|
      invariant 1 <= i <= |block| && |shortIds| == i - 1
      invariant forall k :: 0 <= k < i - 1 ==> shortIds[k] == shortId(block[k + 1].wtxid)
    {
      shortIds := shortIds + [shortId(block[i].wtxid)];
      i := i + 1;
    }
    c := CompactBlock(header, shortId, shortIds, [Prefilled(0, block[0])]);
    assert Position(c, -1) == -1 && Position(c, 0) == 0;
    forall base | Placed(c, |c.prefilled|, base) ensures ShortIdsOf(c, base, block) {
      FirstPlaced(c, base);
      OpenAfterFirst(base);
    }
  }

  /** The count is not reset: used a second time, after a block has been completed, the object counts too many. */
  method CountsTooMany() returns (pd: PartiallyDownloadedBlock, c: CompactBlock, first: ReadStatus, second: ReadStatus)
    ensures first == OK && second == OK
    ensures pd.mempoolCount > |c.shortIds| - |Open(pd.txnAvailable)|
  {
    hide Open, Describes, NoCollisions, Placed, Mapped, Matching, Honest, Complete;
    var block := [Tx(0, 0, false), Tx(1, 1, false)];
    pd := new PartiallyDownloadedBlock([(0, block[0]), (1, block[1])]);
    c := MakeCompact(Header(1), block, w => w);
    assert NoCollisions(c, block, pd.pool + []) by { OwnTransactions(c, block, pd.pool + []); }
    var status, vtx, requests;
    first, status, vtx, requests := Exchange(pd, c, [], _ => false, block, false);
    NoneRequested(c, block, pd.pool + [], requests);
    DescribedIsFine(c, block);
    ghost var base, m;
    second, base, m := pd.InitData(c, [], _ => false, block);
  }

  lemma OwnTransactions(c: CompactBlock, block: seq<Tx>, offers: seq<Offer>)
    requires |block| == |offers| && forall i :: 0 <= i < |block| ==> offers[i] == (i, block[i]) && block[i].wtxid == i
    requires forall w :: c.shortId(w) == w
    ensures NoCollisions(c, block, offers)
  {
  }

  lemma NoneRequested(c: CompactBlock, block: seq<Tx>, offers: seq<Offer>, requests: seq<nat>)
    requires |block| == |offers| && forall i :: 0 <= i < |block| ==> offers[i] == (i, block[i]) && block[i].wtxid == i
    requires forall i :: 0 <= i < |requests| ==> requests[i] < |block| && NotOnOffer(c, block, offers, requests[i])
    ensures requests == []
  {
    if requests != [] {
      OnOffer(c, block, offers, requests[0]);
    }
  }

  lemma OnOffer(c: CompactBlock, block: seq<Tx>, offers: seq<Offer>, p: nat)
    requires |block| == |offers| && p < |block| && offers[p] == (p, block[p]) && block[p].wtxid == p
    ensures !NotOnOffer(c, block, offers, p)
  {
    assert c.shortId(offers[p].0) == c.shortId(block[p].wtxid);
  }

  lemma DescribedIsFine(c: CompactBlock, block: seq<Tx>)
    requires Describes(c, block)
    ensures Fine(c)
  {
  }

  lemma FirstPlaced(c: CompactBlock, base: seq<Option<Tx>>)
    requires |c.prefilled| == 1 && c.prefilled[0].index == 0 && Placed(c, 1, base)
    ensures |base| == Count(c) && base[0].Some? && forall p :: 0 < p < |base| ==> base[p].None?
  {
    assert Position(c, -1) == -1 && Position(c, 0) == 0;
  }

  lemma {:induction false} OpenAfterFirst(s: seq<Option<Tx>>)
    requires |s| > 0 && s[0].Some? && forall p :: 0 < p < |s| ==> s[p].None?
    ensures |Open(s)| == |s| - 1 && forall i :: 0 <= i < |Open(s)| ==> Open(s)[i] == i + 1
  {
    var n := |s| - 1;
    if n > 0 {
      OpenAfterFirst(s[..n]);
    } else {
      assert s[..n] == [];
    }
  }
}
