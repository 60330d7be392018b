/**
  The intrusive circular doubly linked list that threads the flagged entries of one cache through
  their own prev and next pointers, with a sentinel closing the circle.
 */
module FlaggedList {
  import opened Collections
  import opened CoinTypes

  /** `i`-th node of the circular list; everything outside the entries is the sentinel. */
  function Node(order: seq<OutPoint>, i: int): Link {
    if 0 <= i < |order| then At(order[i]) else Sentinel
  }

  /** The `i`-th flagged entry is in the cache and points at its two neighbours. */
  ghost predicate NodeOk(cache: CoinsMap, order: seq<OutPoint>, i: int) {
    0 <= i < |order| ==>
      && order[i] in cache && cache[order[i]].IsFlagged()
      && cache[order[i]].links == Links(Node(order, i - 1), Node(order, i + 1))
  }

  /** The circular doubly linked list holds exactly the flagged entries, in `order`, once each. */
  ghost predicate Linked(cache: CoinsMap, sentinel: Links, order: seq<OutPoint>) {
    && Distinct(order)
    && (forall i :: NodeOk(cache, order, i))
    && (forall o :: o in cache && o !in order ==> !cache[o].IsFlagged() && cache[o].links == Unlinked)
    && sentinel == Links(Node(order, |order| - 1), Node(order, 0))
  }

  function WithNext(e: CacheEntry, to: Link): CacheEntry {
    e.(links := e.links.(next := to))
  }

  function WithPrev(e: CacheEntry, to: Link): CacheEntry {
    e.(links := e.links.(prev := to))
  }

  /** Stores a next pointer in a node, which may be the sentinel. */
  function SetNext(cache: CoinsMap, sentinel: Links, at: Link, to: Link): (CoinsMap, Links)
    requires at.At? ==> at.outpoint in cache
  {
    if at.At? then (cache[at.outpoint := WithNext(cache[at.outpoint], to)], sentinel)
    else (cache, sentinel.(next := to))
  }

  /** Stores a prev pointer in a node, which may be the sentinel. */
  function SetPrev(cache: CoinsMap, sentinel: Links, at: Link, to: Link): (CoinsMap, Links)
    requires at.At? ==> at.outpoint in cache
  {
    if at.At? then (cache[at.outpoint := WithPrev(cache[at.outpoint], to)], sentinel)
    else (cache, sentinel.(prev := to))
  }

  lemma FlaggedIsListed(cache: CoinsMap, sentinel: Links, order: seq<OutPoint>, o: OutPoint)
    requires Linked(cache, sentinel, order)
    ensures o in order <==> o in cache && cache[o].IsFlagged()
  {
    forall i | 0 <= i < |order| ensures order[i] in cache && cache[order[i]].IsFlagged() {
      assert NodeOk(cache, order, i);
    }
  }

  /** The pointer writes that append a flagged node before the sentinel extend the list by it. */
  lemma AppendLinked(cache: CoinsMap, sentinel: Links, order: seq<OutPoint>, o: OutPoint, e: CacheEntry,
                     cache': CoinsMap, sentinel': Links)
    requires Linked(cache, sentinel, order)
    requires o in cache && !cache[o].IsFlagged()
    requires e.IsFlagged() && e.links == Links(sentinel.prev, Sentinel)
    requires sentinel.prev.At? ==> sentinel.prev.outpoint in cache
    requires (cache', sentinel') == SetNext(cache[o := e], sentinel.(prev := At(o)), sentinel.prev, At(o))
    ensures Linked(cache', sentinel', order + [o])
  {
    var order' := order + [o];
    var n := |order|;
    FlaggedIsListed(cache, sentinel, order, o);
    forall i ensures NodeOk(cache', order', i) {
      assert NodeOk(cache, order, i);
      assert NodeOk(cache, order, n - 1);
    }
    assert NodeOk(cache, order, 0);
    forall p | p in cache' && p !in order' ensures !cache'[p].IsFlagged() && cache'[p].links == Unlinked {
      assert p !in order;
      assert NodeOk(cache, order, n - 1);
    }
  }

  ghost function SkipNode(order: seq<OutPoint>, k: int): seq<OutPoint>
    requires 0 <= k < |order|
  {
    order[..k] + order[k + 1..]
  }

  /** The pointer writes of SetClean, made on the `k`-th node. */
  ghost predicate Unlinks(cache: CoinsMap, sentinel: Links, order: seq<OutPoint>, k: int,
                          cache': CoinsMap, sentinel': Links)
    requires 0 <= k < |order| && order[k] in cache
  {
    var e := cache[order[k]];
    && (e.links.next.At? ==> e.links.next.outpoint in cache)
    && (e.links.prev.At? ==> e.links.prev.outpoint in cache)
    && var (cache1, sentinel1) := SetPrev(cache, sentinel, e.links.next, e.links.prev);
    && var (cache2, sentinel2) := SetNext(cache1, sentinel1, e.links.prev, e.links.next);
    && cache' == cache2[order[k] := e.AsClean()]
    && sentinel' == sentinel2
  }

  lemma UnlinkedNode(cache: CoinsMap, sentinel: Links, order: seq<OutPoint>, k: int,
                     cache': CoinsMap, sentinel': Links, i: int)
    requires Linked(cache, sentinel, order)
    requires 0 <= k < |order| && order[k] in cache && Unlinks(cache, sentinel, order, k, cache', sentinel')
    requires 0 <= i < |order| && i != k
    ensures NodeOk(cache', SkipNode(order, k), if i < k then i else i - 1)
  {
    assert NodeOk(cache, order, k) && NodeOk(cache, order, i);
    if i == k - 1 {
      assert NodeOk(cache, order, k + 1);
    } else if i == k + 1 {
      assert NodeOk(cache, order, k - 1);
    } else {
      assert order[i] != order[k];
    }
  }

  lemma UnlinkEffect(cache: CoinsMap, sentinel: Links, order: seq<OutPoint>, k: int,
                     cache': CoinsMap, sentinel': Links)
    requires Linked(cache, sentinel, order)
    requires 0 <= k < |order| && order[k] in cache && Unlinks(cache, sentinel, order, k, cache', sentinel')
    ensures SameExceptAt(cache', cache, order[k])
    ensures forall p :: p in cache && !cache[p].IsFlagged() ==> p in cache' && cache'[p] == cache[p]
  {
    assert NodeOk(cache, order, k) && NodeOk(cache, order, k - 1) && NodeOk(cache, order, k + 1);
  }

  lemma UnlinkEnds(cache: CoinsMap, sentinel: Links, order: seq<OutPoint>, k: int,
                   cache': CoinsMap, sentinel': Links)
    requires Linked(cache, sentinel, order)
    requires 0 <= k < |order| && order[k] in cache && Unlinks(cache, sentinel, order, k, cache', sentinel')
    ensures sentinel' == Links(Node(SkipNode(order, k), |order| - 2), Node(SkipNode(order, k), 0))
  {
    assert NodeOk(cache, order, k) && NodeOk(cache, order, k - 1) && NodeOk(cache, order, k + 1);
  }

  lemma SkippedIsAbsent(order: seq<OutPoint>, k: int, o: OutPoint)
    requires Distinct(order) && 0 <= k < |order|
    ensures o in SkipNode(order, k) <==> o in order && o != order[k]
    ensures Distinct(SkipNode(order, k))
  {
    if o in order && o != order[k] {
      var i :| 0 <= i < |order| && order[i] == o;
      assert o == SkipNode(order, k)[if i < k then i else i - 1];
    }
  }

  /** The pointer writes that unlink the `k`-th node close the list over it. */
  lemma RemoveLinked(cache: CoinsMap, sentinel: Links, order: seq<OutPoint>, k: int,
                     cache': CoinsMap, sentinel': Links)
    requires Linked(cache, sentinel, order)
    requires 0 <= k < |order| && order[k] in cache && Unlinks(cache, sentinel, order, k, cache', sentinel')
    ensures Linked(cache', sentinel', SkipNode(order, k))
  {
    var order' := SkipNode(order, k);
    forall i ensures NodeOk(cache', order', i) {
      if 0 <= i < |order'| {
        UnlinkedNode(cache, sentinel, order, k, cache', sentinel', if i < k then i else i + 1);
      }
    }
    UnlinkEffect(cache, sentinel, order, k, cache', sentinel');
    UnlinkEnds(cache, sentinel, order, k, cache', sentinel');
    SkippedIsAbsent(order, k, order[k]);
    forall p | p in cache' && p !in order' ensures !cache'[p].IsFlagged() && cache'[p].links == Unlinked {
      SkippedIsAbsent(order, k, p);
    }
  }

  /** Dropping an unflagged entry does not touch the list. */
  lemma DropUnlisted(cache: CoinsMap, sentinel: Links, order: seq<OutPoint>, o: OutPoint)
    requires Linked(cache, sentinel, order)
    requires o in cache && !cache[o].IsFlagged()
    ensures Linked(cache - {o}, sentinel, order)
  {
    forall i ensures NodeOk(cache - {o}, order, i) {
      assert NodeOk(cache, order, i);
    }
  }

  /** Changing the data of a flagged entry that stays flagged, or of an unflagged one, keeps the list. */
  lemma ReflagLinked(cache: CoinsMap, sentinel: Links, order: seq<OutPoint>, o: OutPoint, e: CacheEntry)
    requires Linked(cache, sentinel, order)
    requires o in cache && e.links == cache[o].links && e.IsFlagged() == cache[o].IsFlagged()
    ensures Linked(cache[o := e], sentinel, order)
  {
    var cache' := cache[o := e];
    forall i ensures NodeOk(cache', order, i) {
      assert NodeOk(cache, order, i);
    }
    FlaggedIsListed(cache, sentinel, order, o);
  }

  /** A new unflagged entry stays outside the list. */
  lemma InsertUnlisted(cache: CoinsMap, sentinel: Links, order: seq<OutPoint>, o: OutPoint, e: CacheEntry)
    requires Linked(cache, sentinel, order)
    requires o !in cache && !e.IsFlagged() && e.links == Unlinked
    ensures Linked(cache[o := e], sentinel, order)
  {
    var cache' := cache[o := e];
    forall i ensures NodeOk(cache', order, i) {
      assert NodeOk(cache, order, i);
    }
  }
}
