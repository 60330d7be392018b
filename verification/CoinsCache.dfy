/**
  A stack of write-back coin caches over a database. Every layer must behave like one plain map from
  outpoints to unspent coins.
 */
module CoinsCache {
  import opened Collections
  import opened Options
  import opened CoinTypes
  import opened FlaggedList

  const ZERO_HASH: nat := 0

  datatype View = Database(db: CoinsViewDB) | Cached(cache: CoinsViewCache)

  /** The fields of one cache, with the list order and the plain map it stands for. */
  datatype Layer = Layer(cache: CoinsMap, sentinel: Links, order: seq<OutPoint>, usage: nat, dirty: nat, shown: CoinSet)

  /** The invariant of one cache over a parent that shows `below`. */
  ghost predicate LayerOk(l: Layer, below: CoinSet) {
    && UnspentOnly(l.shown)
    && EntriesOk(l.cache, below)
    && Shows(l.cache, below, l.shown)
    && Linked(l.cache, l.sentinel, l.order)
    && l.dirty == |l.order|
    && l.usage == TotalUsage(l.cache)
  }

  lemma OneLess(a: CoinsMap, b: CoinsMap, o: OutPoint)
    requires o in a && o !in b && SameExceptAt(b, a, o)
    ensures |b.Keys| < |a.Keys|
  {
    assert b.Keys == a.Keys - {o};
  }

  lemma NoneLinked(ends: Links, order: seq<OutPoint>)
    requires Linked(map[], ends, order)
    ensures order == [] && ends == Links(Sentinel, Sentinel)
  {
    if order != [] {
      FlaggedIsListed(map[], ends, order, order[0]);
    }
  }

  lemma FreshUnspent(e: CacheEntry, coin: Coin)
    requires e.isFresh
    ensures !EntryOk(e, Some(coin))
  {
  }

  /** In a well-formed layer a FRESH coin is not in the parent, and a spent one is cleared. */
  lemma MisusedEntry(l: Layer, below: CoinSet, o: OutPoint)
    requires o in l.cache
    requires (l.cache[o].isFresh && o in below) || (l.cache[o].coin.IsSpent() && l.cache[o].coin != NullCoin)
    ensures !LayerOk(l, below)
  {
  }

  lemma EmptyLayerOk(below: CoinSet)
    requires UnspentOnly(below)
    ensures LayerOk(Layer(map[], Links(Sentinel, Sentinel), [], 0, 0, below), below)
  {
  }

  /** A cache that changed at `o` alone is well-formed again once `o` and the bookkeeping are. */
  lemma EditedLayerOk(l: Layer, l': Layer, below: CoinSet, o: OutPoint)
    requires LayerOk(l, below) && UnspentOnly(below)
    requires SameExceptAt(l'.cache, l.cache, o)
    requires o in l'.cache ==> EntryOk(l'.cache[o], Lookup(below, o))
    requires forall p :: p != o ==> Lookup(l'.shown, p) == Lookup(l.shown, p)
    requires Lookup(l'.shown, o) == Peek(l'.cache, below, o)
    requires Linked(l'.cache, l'.sentinel, l'.order) && l'.dirty == |l'.order|
    requires l'.usage + UsageAt(l.cache, o) == l.usage + UsageAt(l'.cache, o)
    ensures LayerOk(l', below)
  {
    ChangedAt(l.cache, l'.cache, o, below, l.shown, l'.shown);
    TotalUsageExceptAt(l'.cache, l.cache, o);
    forall p | p in l'.shown ensures !l'.shown[p].IsSpent() {
      assert Lookup(l'.shown, p) == Peek(l'.cache, below, p);
    }
  }

  ghost function Parent(lower: seq<CoinsViewCache>, bottom: CoinsViewDB): View {
    if lower == [] then Database(bottom) else Cached(lower[|lower| - 1])
  }

  /** The entries in `done` have been handed to the parent, whose view went from `before` to `now`. */
  ghost predicate Applied(now: CoinSet, before: CoinSet, start: CoinsMap, done: set<OutPoint>) {
    forall o :: Lookup(now, o) == if o in done && o in start then Peek(start, before, o) else Lookup(before, o)
  }

  /** How the child's map looks once the cursor has passed the entries in `done`. */
  ghost predicate Iterated(cache: CoinsMap, start: CoinsMap, done: set<OutPoint>, willErase: bool) {
    && (willErase ==> cache == start)
    && (!willErase ==>
          && cache.Keys <= start.Keys
          && (forall o :: o in start && o !in done ==> o in cache && SameData(cache[o], start[o]))
          && (forall o :: o in start && o in done && start[o].coin.IsSpent() ==> o !in cache)
          && (forall o :: o in start && o in done && !start[o].coin.IsSpent() ==> o in cache && cache[o] == start[o].AsClean()))
  }

  /** `done` is exactly the first `i` elements of `order`. */
  ghost predicate Passed(order: seq<OutPoint>, i: int, done: set<OutPoint>)
    requires 0 <= i <= |order|
  {
    done == Elements(order[..i])
  }

  /** Every flagged entry is dirty, so a cursor meets dirty entries only. */
  ghost predicate AllDirty(l: Layer) {
    forall o :: o in l.order ==> o in l.cache && l.cache[o].isDirty
  }

  /** Handing one more entry to the parent. */
  function Put(coins: CoinSet, o: OutPoint, coin: Coin): CoinSet {
    if coin.IsSpent() then coins - {o} else coins[o := coin]
  }

  lemma AppliedNone(now: CoinSet, start: CoinsMap)
    ensures Applied(now, now, start, {})
  {
  }

  lemma AppliedStep(now: CoinSet, before: CoinSet, start: CoinsMap, done: set<OutPoint>, o: OutPoint)
    requires Applied(now, before, start, done) && o in start
    ensures Applied(Put(now, o, start[o].coin), before, start, done + {o})
  {
    var now' := Put(now, o, start[o].coin);
    forall p ensures Lookup(now', p) == if p in done + {o} && p in start then Peek(start, before, p) else Lookup(before, p) {
      assert p != o ==> Lookup(now', p) == Lookup(now, p);
    }
  }

  /** Once every dirty entry has been handed over, the parent shows what the child showed. */
  lemma AppliedAll(l: Layer, below: CoinSet, now: CoinSet, done: set<OutPoint>)
    requires LayerOk(l, below) && Applied(now, below, l.cache, done)
    requires forall o :: o in l.order ==> o in done
    ensures now == l.shown
  {
    forall o ensures Lookup(now, o) == Lookup(l.shown, o) {
      assert Lookup(l.shown, o) == Peek(l.cache, below, o);
      FlaggedIsListed(l.cache, l.sentinel, l.order, o);
      if o in l.cache && o !in done {
        assert EntryOk(l.cache[o], Lookup(below, o));
      }
    }
    LookupExtensional(now, l.shown);
  }

  /** A cache whose dirty entries have all been written through is clean and shows what it did. */
  lemma SyncedLayerOk(l: Layer, below: CoinSet, cache: CoinsMap, ends: Links, done: set<OutPoint>)
    requires LayerOk(l, below) && Iterated(cache, l.cache, done, false)
    requires forall o :: o in done <==> o in l.order
    requires Linked(cache, ends, [])
    ensures LayerOk(Layer(cache, ends, [], l.usage, 0, l.shown), l.shown)
  {
    forall o ensures o in l.cache ==> EntryOk(l.cache[o], Lookup(below, o)) && (l.cache[o].isDirty <==> o in done) {
      FlaggedIsListed(l.cache, l.sentinel, l.order, o);
    }
    forall o ensures Lookup(l.shown, o) == Peek(cache, l.shown, o) {
      assert Lookup(l.shown, o) == Peek(l.cache, below, o);
    }
    forall o | o in cache ensures EntryOk(cache[o], Lookup(l.shown, o)) {
      assert Lookup(l.shown, o) == Peek(l.cache, below, o);
    }
    TotalUsageDrop(l.cache, cache);
  }

  lemma PassedStep(order: seq<OutPoint>, i: int, done: set<OutPoint>)
    requires 0 <= i < |order| && Passed(order, i, done)
    ensures Passed(order, i + 1, done + {order[i]})
  {
    assert order[..i + 1] == order[..i] + [order[i]];
  }

  /** The cursor step at `o`: erased if spent, else unflagged, with entries already passed left alone. */
  lemma IteratedStep(cache: CoinsMap, cache': CoinsMap, start: CoinsMap, done: set<OutPoint>, o: OutPoint)
    requires Iterated(cache, start, done, false)
    requires o in start && o in cache && o !in done && SameData(cache[o], start[o])
    requires SameExceptAt(cache', cache, o)
    requires if start[o].coin.IsSpent() then o !in cache' else o in cache' && cache'[o] == cache[o].AsClean()
    requires forall p :: p in cache' && !cache[p].IsFlagged() && p != o ==> cache'[p] == cache[p]
    ensures Iterated(cache', start, done + {o}, false)
  {
    forall p | p in cache' ensures p in start {
      assert p != o ==> p in cache;
    }
  }

  /** In a list without repetitions the element at `i` is found at the head of what is left. */
  lemma HeadOfRest(order: seq<OutPoint>, i: int, k: int)
    requires Distinct(order) && 0 <= i < |order|
    requires 0 <= k < |order[i..]| && order[i..][k] == order[i]
    ensures k == 0 && SkipNode(order[i..], k) == order[i + 1..]
  {
  }

  /** An entry still to be handed over keeps its meaning against the parent as changed so far. */
  lemma PendingEntryOk(l: Layer, before: CoinSet, now: CoinSet, done: set<OutPoint>, o: OutPoint, entry: CacheEntry)
    requires LayerOk(l, before) && Applied(now, before, l.cache, done)
    requires o in l.cache && o !in done && SameData(entry, l.cache[o])
    ensures EntryOk(entry, Lookup(now, o))
  {
    assert EntryOk(l.cache[o], Lookup(before, o));
  }

  /** With nothing left in the list the sentinel points at itself and no entry carries a flag. */
  lemma EmptyList(cache: CoinsMap, ends: Links)
    requires Linked(cache, ends, [])
    ensures ends == Links(Sentinel, Sentinel)
    ensures forall o :: o in cache ==> !cache[o].IsFlagged() && cache[o].links == Unlinked
  {
  }

  /** What Sync keeps: the unspent coins, each clean. */
  lemma SyncedEntries(l: Layer, below: CoinSet, cache: CoinsMap, ends: Links, done: set<OutPoint>)
    requires LayerOk(l, below) && Iterated(cache, l.cache, done, false)
    requires forall o :: o in done <==> o in l.order
    requires Linked(cache, ends, [])
    ensures forall o :: o in cache <==> o in l.cache && o in l.shown
    ensures forall o :: o in cache ==> cache[o] == CacheEntry(l.shown[o], false, false, Unlinked)
  {
    EmptyList(cache, ends);
    forall o ensures o in cache <==> o in l.cache && o in l.shown {
      assert Lookup(l.shown, o) == Peek(l.cache, below, o);
      FlaggedIsListed(l.cache, l.sentinel, l.order, o);
      assert o in l.cache ==> EntryOk(l.cache[o], Lookup(below, o));
    }
    forall o | o in cache ensures cache[o] == CacheEntry(l.shown[o], false, false, Unlinked) {
      assert Lookup(l.shown, o) == Peek(l.cache, below, o);
    }
  }

  /** What an entry becomes when a dirty entry of the child is merged into it. FRESH is copied up only to a new entry. */
  ghost predicate MergedAt(mine: CoinsMap, o: OutPoint, entry: CacheEntry, now: CoinsMap) {
    if o !in mine then
      if entry.isFresh && entry.coin.IsSpent() then o !in now
      else o in now && now[o].coin == entry.coin && now[o].isDirty && now[o].isFresh == entry.isFresh
    else
      if mine[o].isFresh && entry.coin.IsSpent() then o !in now
      else o in now && now[o].coin == entry.coin && now[o].isDirty && now[o].isFresh == mine[o].isFresh
  }

  ghost predicate SameAt(mine: CoinsMap, o: OutPoint, now: CoinsMap) {
    (o in now <==> o in mine) && (o in now && o in mine ==> SameData(now[o], mine[o]))
  }

  /** The entries in `done` have been merged, all others are as they were. */
  ghost predicate Merged(mine: CoinsMap, start: CoinsMap, done: set<OutPoint>, now: CoinsMap) {
    forall o :: if o in done && o in start then MergedAt(mine, o, start[o], now) else SameAt(mine, o, now)
  }

  /** All dirty entries of the child have been merged, and nothing else has changed. */
  ghost predicate TakenOver(mine: CoinsMap, child: CoinsMap, now: CoinsMap) {
    forall o :: if o in child && child[o].isDirty then MergedAt(mine, o, child[o], now) else SameAt(mine, o, now)
  }

  lemma SameItself(cache: CoinsMap, o: OutPoint)
    ensures SameExceptAt(cache, cache, o)
  {
  }

  lemma MergedNone(mine: CoinsMap, start: CoinsMap)
    ensures Merged(mine, start, {}, mine)
  {
  }

  lemma MergedStep(mine: CoinsMap, start: CoinsMap, done: set<OutPoint>, cache: CoinsMap, o: OutPoint, entry: CacheEntry, now: CoinsMap)
    requires Merged(mine, start, done, cache) && o in start && o !in done && SameData(entry, start[o])
    requires SameExceptAt(now, cache, o) && MergedAt(cache, o, entry, now)
    ensures Merged(mine, start, done + {o}, now)
  {
    assert SameAt(mine, o, cache);
  }

  lemma MergedAll(mine: CoinsMap, l: Layer, now: CoinsMap)
    requires Merged(mine, l.cache, Elements(l.order), now) && AllDirty(l) && Linked(l.cache, l.sentinel, l.order)
    ensures TakenOver(mine, l.cache, now)
  {
    forall o ensures o in Elements(l.order) <==> o in l.cache && l.cache[o].isDirty {
      FlaggedIsListed(l.cache, l.sentinel, l.order, o);
    }
  }

  ghost function DirtyKeys(cache: CoinsMap): set<OutPoint> {
    set o | o in cache && cache[o].isDirty
  }

  lemma NothingDirty()
    ensures |DirtyKeys(map[])| == 0 && TotalUsage(map[]) == 0
  {
    assert DirtyKeys(map[]) == {};
  }

  lemma DirtyKeysSplit(cache: CoinsMap, o: OutPoint)
    requires o in cache
    ensures |DirtyKeys(cache)| == |DirtyKeys(cache - {o})| + if cache[o].isDirty then 1 else 0
  {
    assert DirtyKeys(cache) == DirtyKeys(cache - {o}) + if cache[o].isDirty then {o} else {};
  }

  class CoinsViewDB {
    var coins: CoinSet

    constructor (coins: CoinSet)
      ensures this.coins == coins
    {
      this.coins := coins;
    }

    /** Applies every dirty entry of the child: spent coins are erased, the others written. */
    method BatchWrite(child: CoinsViewCache, willErase: bool)
      requires child.Valid() && child.base == Database(this)
      modifies this, child`cacheCoins, child`sentinel, child`flagged, child`dirtyCount
      ensures coins == child.contents
      ensures child.HandedOver(old(child.State()), willErase)
    {
      hide LayerOk, Linked, Iterated, Applied, AllDirty, Put, CoinsViewCache.ChainValid, CoinsViewCache.CursorAt, CoinsViewCache.HandedOver;
      ghost var l, before, done, i := child.State(), coins, {}, 0;
      child.CursorStart();
      AppliedNone(coins, l.cache);
      var it := child.sentinel.next;
      while it != Sentinel
        invariant child.CursorAt(l, willErase, it, i, done)
        invariant Applied(coins, before, l.cache, done)
        decreases |l.order| - i
      {
        child.CursorEntry(l, willErase, it, i, done);
        var o := it.outpoint;
        var entry := child.cacheCoins[o];
        if entry.isDirty {
          AppliedStep(coins, before, l.cache, done, o);
          coins := Put(coins, o, entry.coin);
        }
        it := child.NextAndMaybeErase(o, willErase, l, i, done);
        done, i := done + {o}, i + 1;
      }
      child.CursorDone(l, willErase, it, i, done);
      AppliedAll(l, before, coins, done);
    }
  }

  class CoinsViewCache {
    /** Fetch from the parent with PeekCoin instead of GetCoin, leaving the layers below unfilled. */
    const overlay: bool
    const base: View

    var cacheCoins: CoinsMap
    var sentinel: Links
    var cachedCoinsUsage: nat
    var dirtyCount: nat
    var hashBlock: nat

    /** The caches below this one, lowest first, and the database below them all. */
    ghost const lower: seq<CoinsViewCache>
    ghost const bottom: CoinsViewDB
    /** The flagged entries in list order. */
    ghost var flagged: seq<OutPoint>
    /** The plain map this layer stands for. */
    ghost var contents: CoinSet

    ghost function State(): Layer
      reads this
    {
      Layer(cacheCoins, sentinel, flagged, cachedCoinsUsage, dirtyCount, contents)
    }

    /** What the parent shows. */
    ghost function Below(): CoinSet
      reads bottom, lower
    {
      if lower == [] then bottom.coins else lower[|lower| - 1].contents
    }

    /** The layers below are chained to each other and well-formed. */
    ghost predicate ChainValid()
      reads bottom, lower
    {
      && UnspentOnly(bottom.coins)
      && (forall i :: 0 <= i < |lower| ==> lower[i].lower == lower[..i] && lower[i].bottom == bottom)
      && (forall i :: 0 <= i < |lower| ==> lower[i].base == Parent(lower[..i], bottom))
      && (forall i :: 0 <= i < |lower| ==> LayerOk(lower[i].State(), lower[i].Below()))
    }

    ghost predicate Valid()
      reads this, bottom, lower
    {
      base == Parent(lower, bottom) && this !in lower && ChainValid() && LayerOk(State(), Below())
    }

    lemma ContentsUnspent()
      requires Valid()
      ensures UnspentOnly(contents)
    {
    }

    /** The parts of the invariant that an operation at `o` starts from. */
    lemma PeekShown(o: OutPoint)
      requires Valid()
      ensures Linked(cacheCoins, sentinel, flagged) && dirtyCount == |flagged|
      ensures Lookup(contents, o) == Peek(cacheCoins, Below(), o)
      ensures o in cacheCoins ==> EntryOk(cacheCoins[o], Lookup(Below(), o))
      ensures UsageAt(cacheCoins, o) <= cachedCoinsUsage
      ensures o in cacheCoins && cacheCoins[o].IsFlagged() ==> |flagged| > 0
    {
      FlaggedIsListed(cacheCoins, sentinel, flagged, o);
      if o in cacheCoins {
        TotalUsageSplit(cacheCoins, o);
      }
    }

    /** An entry is in one of the four documented states, and its flags say how it differs from the parent. */
    lemma FlagsMean(o: OutPoint)
      requires Valid() && o in cacheCoins
      ensures DocumentedState(cacheCoins[o])
      ensures cacheCoins[o].isFresh ==> o !in Below()
      ensures !cacheCoins[o].isDirty ==> o in Below() && Below()[o] == cacheCoins[o].coin
    {
      hide LayerOk, ChainValid;
      PeekShown(o);
    }

    lemma BelowUnspent()
      requires Valid()
      ensures UnspentOnly(Below())
    {
      if lower != [] {
        assert LayerOk(lower[|lower| - 1].State(), lower[|lower| - 1].Below());
      }
    }

    lemma BaseValid()
      requires Valid() && base.Cached?
      ensures lower == base.cache.lower + [base.cache] && base.cache.bottom == bottom
      ensures base.cache.Valid() && Below() == base.cache.contents
      ensures forall i :: 0 <= i < |base.cache.lower| ==> base.cache.lower[i] == lower[i]
    {
      hide LayerOk;
      var n := |lower| - 1;
      assert lower == lower[..n] + [lower[n]];
      forall i | 0 <= i < n
        ensures lower[..n][i].lower == lower[..n][..i]
      {
        assert lower[..n][..i] == lower[..i];
      }
    }

    /** A well-formed layer over a valid parent is valid. */
    lemma ValidOverBase()
      requires base.Cached? && base.cache.Valid() && LayerOk(State(), Below())
      requires lower == base.cache.lower + [base.cache] && bottom == base.cache.bottom
      ensures Valid()
    {
      hide LayerOk;
      assert this != base.cache;
      assert this !in base.cache.lower by {
        assert forall i :: 0 <= i < |base.cache.lower| ==> |base.cache.lower[i].lower| == i;
      }
      forall i | 0 <= i < |lower|
        ensures lower[i].lower == lower[..i] && lower[i].bottom == bottom
        ensures lower[i].base == Parent(lower[..i], bottom) && LayerOk(lower[i].State(), lower[i].Below())
      {
        if i < |base.cache.lower| {
          assert lower[i] == base.cache.lower[i] && lower[..i] == base.cache.lower[..i];
        } else {
          assert lower[i] == base.cache && lower[..i] == base.cache.lower;
        }
      }
    }

    lemma ValidOverDatabase()
      requires lower == [] && base == Database(bottom) && UnspentOnly(bottom.coins) && LayerOk(State(), Below())
      ensures Valid()
    {
      hide LayerOk;
    }

    constructor (base: View, overlay: bool)
      requires base.Database? ==> UnspentOnly(base.db.coins)
      requires base.Cached? ==> base.cache.Valid()
      ensures fresh(this) && Valid() && this.base == base && this.overlay == overlay
      ensures contents == Below() && cacheCoins == map[] && hashBlock == ZERO_HASH
      ensures base.Database? ==> lower == [] && bottom == base.db
      ensures base.Cached? ==> lower == base.cache.lower + [base.cache] && bottom == base.cache.bottom
    {
      hide LayerOk, Valid, ChainValid;
      this.base := base;
      this.overlay := overlay;
      cacheCoins := map[];
      sentinel := Links(Sentinel, Sentinel);
      cachedCoinsUsage := 0;
      dirtyCount := 0;
      hashBlock := ZERO_HASH;
      lower := if base.Database? then [] else base.cache.lower + [base.cache];
      bottom := if base.Database? then base.db else base.cache.bottom;
      flagged := [];
      contents := match base case Database(db) => db.coins case Cached(cache) => cache.contents;
      new;
      if base.Cached? {
        base.cache.ContentsUnspent();
        EmptyLayerOk(Below());
        ValidOverBase();
      } else {
        EmptyLayerOk(Below());
        ValidOverDatabase();
      }
    }

    // ---------- The intrusive list of flagged entries ----------

    /** Raises flags; an entry without flags is first linked in before the sentinel. */
    method AddFlags(o: OutPoint, dirty: bool, freshen: bool)
      requires dirty || freshen
      requires o in cacheCoins
      requires Linked(cacheCoins, sentinel, flagged)
      modifies this`cacheCoins, this`sentinel, this`flagged
      ensures Linked(cacheCoins, sentinel, flagged)
      ensures flagged == if old(cacheCoins)[o].IsFlagged() then old(flagged) else old(flagged) + [o]
      ensures SameExceptAt(cacheCoins, old(cacheCoins), o) && o in cacheCoins
      ensures cacheCoins[o].coin == old(cacheCoins)[o].coin
      ensures cacheCoins[o].isDirty == (old(cacheCoins)[o].isDirty || dirty)
      ensures cacheCoins[o].isFresh == (old(cacheCoins)[o].isFresh || freshen)
    {
      var e := cacheCoins[o];
      FlaggedIsListed(cacheCoins, sentinel, flagged, o);
      if e.IsFlagged() {
        cacheCoins := cacheCoins[o := e.(isDirty := e.isDirty || dirty, isFresh := e.isFresh || freshen)];
        ReflagLinked(old(cacheCoins), sentinel, flagged, o, cacheCoins[o]);
      } else {
        var last := sentinel.prev;
        assert NodeOk(cacheCoins, flagged, |flagged| - 1);
        e := CacheEntry(e.coin, dirty, freshen, Links(last, Sentinel));
        var (cache, ends) := SetNext(cacheCoins[o := e], sentinel.(prev := At(o)), last, At(o));
        AppendLinked(cacheCoins, sentinel, flagged, o, e, cache, ends);
        cacheCoins, sentinel := cache, ends;
        flagged := flagged + [o];
      }
    }

    /** Drops an entry's flags, unlinking it wherever it stands in the list. */
    method SetClean(o: OutPoint) returns (ghost k: int)
      requires o in cacheCoins
      requires Linked(cacheCoins, sentinel, flagged)
      modifies this`cacheCoins, this`sentinel, this`flagged
      ensures Linked(cacheCoins, sentinel, flagged)
      ensures SameExceptAt(cacheCoins, old(cacheCoins), o) && o in cacheCoins
      ensures cacheCoins[o] == old(cacheCoins)[o].AsClean()
      ensures !old(cacheCoins)[o].IsFlagged() ==> cacheCoins == old(cacheCoins) && flagged == old(flagged)
      ensures old(cacheCoins)[o].IsFlagged() ==>
        && 0 <= k < |old(flagged)| && old(flagged)[k] == o
        && flagged == SkipNode(old(flagged), k)
      ensures forall p :: p in old(cacheCoins) && !old(cacheCoins)[p].IsFlagged() ==> cacheCoins[p] == old(cacheCoins)[p]
    {
      k := 0;
      var e := cacheCoins[o];
      FlaggedIsListed(cacheCoins, sentinel, flagged, o);
      if !e.IsFlagged() {
        return;
      }
      k :| 0 <= k < |flagged| && flagged[k] == o;
      assert NodeOk(cacheCoins, flagged, k) && NodeOk(cacheCoins, flagged, k - 1) && NodeOk(cacheCoins, flagged, k + 1);
      var (cache1, ends1) := SetPrev(cacheCoins, sentinel, e.links.next, e.links.prev);
      var (cache2, ends2) := SetNext(cache1, ends1, e.links.prev, e.links.next);
      cacheCoins, sentinel := cache2[o := e.AsClean()], ends2;
      UnlinkEffect(old(cacheCoins), old(sentinel), flagged, k, cacheCoins, sentinel);
      RemoveLinked(old(cacheCoins), old(sentinel), flagged, k, cacheCoins, sentinel);
      flagged := SkipNode(flagged, k);
    }

    /** Erases an entry from the map; its destructor unlinks it. */
    method Erase(o: OutPoint) returns (ghost k: int)
      requires o in cacheCoins
      requires Linked(cacheCoins, sentinel, flagged)
      modifies this`cacheCoins, this`sentinel, this`flagged
      ensures Linked(cacheCoins, sentinel, flagged)
      ensures SameExceptAt(cacheCoins, old(cacheCoins), o) && o !in cacheCoins
      ensures !old(cacheCoins)[o].IsFlagged() ==> flagged == old(flagged)
      ensures old(cacheCoins)[o].IsFlagged() ==>
        && 0 <= k < |old(flagged)| && old(flagged)[k] == o
        && flagged == SkipNode(old(flagged), k)
      ensures forall p :: p in cacheCoins && !old(cacheCoins)[p].IsFlagged() ==> cacheCoins[p] == old(cacheCoins)[p]
    {
      k := SetClean(o);
      DropUnlisted(cacheCoins, sentinel, flagged, o);
      cacheCoins := cacheCoins - {o};
    }

    /** Puts a coin at `o`, in a new entry if there is none, and raises DIRTY and perhaps FRESH on it. */
    method StoreDirty(o: OutPoint, coin: Coin, freshen: bool)
      requires Linked(cacheCoins, sentinel, flagged)
      modifies this`cacheCoins, this`sentinel, this`flagged
      ensures Linked(cacheCoins, sentinel, flagged)
      ensures SameExceptAt(cacheCoins, old(cacheCoins), o) && o in cacheCoins
      ensures cacheCoins[o].coin == coin && cacheCoins[o].isDirty
      ensures cacheCoins[o].isFresh == (freshen || (o in old(cacheCoins) && old(cacheCoins)[o].isFresh))
      ensures |flagged| == |old(flagged)| + if o in old(cacheCoins) && old(cacheCoins)[o].IsFlagged() then 0 else 1
    {
      hide Linked;
      if o in cacheCoins {
        ReflagLinked(cacheCoins, sentinel, flagged, o, cacheCoins[o].(coin := coin));
        cacheCoins := cacheCoins[o := cacheCoins[o].(coin := coin)];
      } else {
        InsertUnlisted(cacheCoins, sentinel, flagged, o, CacheEntry(coin, false, false, Unlinked));
        cacheCoins := cacheCoins[o := CacheEntry(coin, false, false, Unlinked)];
      }
      AddFlags(o, true, false);
      if freshen {
        AddFlags(o, false, true);
      }
    }

    // ---------- Reading ----------

    /** Looks a coin up through all layers without filling any of them. */
    method PeekCoin(o: OutPoint) returns (coin: Option<Coin>)
      requires Valid()
      ensures coin == Lookup(contents, o)
      decreases |lower|
    {
      assert Lookup(contents, o) == Peek(cacheCoins, Below(), o);
      hide LayerOk;
      if o in cacheCoins {
        return if cacheCoins[o].coin.IsSpent() then None else Some(cacheCoins[o].coin);
      }
      match base
      case Database(db) => return Lookup(db.coins, o);
      case Cached(cache) =>
        BaseValid();
        coin := cache.PeekCoin(o);
    }

    /** Asks the parent, which may fill its own layers unless this is an overlay. */
    method FetchCoinFromBase(o: OutPoint) returns (coin: Option<Coin>)
      requires Valid()
      modifies lower
      ensures Valid() && Below() == old(Below()) && UnspentOnly(Below())
      ensures forall c :: c in lower ==> c.contents == old(c.contents) && c.hashBlock == old(c.hashBlock)
      ensures coin == Lookup(Below(), o)
      ensures overlay ==> forall c :: c in lower ==> unchanged(c)
      ensures !overlay && lower != [] && o in Below() ==> o in lower[|lower| - 1].cacheCoins
      decreases |lower|, 0
    {
      hide LayerOk, ChainValid;
      BelowUnspent();
      match base {
        case Database(db) =>
          coin := Lookup(db.coins, o);
        case Cached(cache) =>
          BaseValid();
          if overlay {
            coin := cache.PeekCoin(o);
          } else {
            coin := cache.GetCoin(o);
            ValidOverBase();
          }
      }
    }

    /**
      Makes sure an entry for `o` is in this cache if the layer or its parent knows one. Layers below
      may be filled on the way; what each layer shows does not change.
     */
    method FetchCoin(o: OutPoint) returns (found: bool)
      requires Valid()
      modifies this`cacheCoins, this`cachedCoinsUsage, lower
      ensures Valid() && Below() == old(Below())
      ensures forall c :: c in lower ==> c.contents == old(c.contents) && c.hashBlock == old(c.hashBlock)
      ensures found <==> o in cacheCoins
      ensures cacheCoins == if o in old(cacheCoins) || o !in Below() then old(cacheCoins)
                            else old(cacheCoins)[o := CacheEntry(Below()[o], false, false, Unlinked)]
      ensures overlay || o in old(cacheCoins) ==> forall c :: c in lower ==> unchanged(c)
      ensures !overlay && lower != [] && o !in old(cacheCoins) && o in Below() ==> o in lower[|lower| - 1].cacheCoins
      decreases |lower|, 1
    {
      hide LayerOk, ChainValid;
      if o in cacheCoins {
        return true;
      }
      var coin := FetchCoinFromBase(o);
      found := coin.Some?;
      if found {
        ghost var was := State();
        PeekShown(o);
        var entry := CacheEntry(coin.value, false, false, Unlinked);
        InsertUnlisted(cacheCoins, sentinel, flagged, o, entry);
        cacheCoins := cacheCoins[o := entry];
        cachedCoinsUsage := cachedCoinsUsage + coin.value.DynamicMemoryUsage();
        EditedLayerOk(was, State(), Below(), o);
      }
    }

    method GetCoin(o: OutPoint) returns (coin: Option<Coin>)
      requires Valid()
      modifies this`cacheCoins, this`cachedCoinsUsage, lower
      ensures Valid() && Below() == old(Below())
      ensures forall c :: c in lower ==> c.contents == old(c.contents) && c.hashBlock == old(c.hashBlock)
      ensures coin == Lookup(contents, o)
      ensures cacheCoins == if o in old(cacheCoins) || o !in Below() then old(cacheCoins)
                            else old(cacheCoins)[o := CacheEntry(Below()[o], false, false, Unlinked)]
      ensures o in contents ==> o in cacheCoins
      decreases |lower|, 2
    {
      hide LayerOk, ChainValid;
      var found := FetchCoin(o);
      PeekShown(o);
      coin := if found && !cacheCoins[o].coin.IsSpent() then Some(cacheCoins[o].coin) else None;
    }

    method HaveCoin(o: OutPoint) returns (have: bool)
      requires Valid()
      modifies this`cacheCoins, this`cachedCoinsUsage, lower
      ensures Valid() && Below() == old(Below())
      ensures forall c :: c in lower ==> c.contents == old(c.contents) && c.hashBlock == old(c.hashBlock)
      ensures have <==> o in contents
      ensures cacheCoins == if o in old(cacheCoins) || o !in Below() then old(cacheCoins)
                            else old(cacheCoins)[o := CacheEntry(Below()[o], false, false, Unlinked)]
    {
      hide LayerOk, ChainValid;
      var found := FetchCoin(o);
      PeekShown(o);
      have := found && !cacheCoins[o].coin.IsSpent();
    }

    // ---------- Writing ----------

    /**
      Adds an unspent coin. Unless an overwrite is announced, an unspent entry of this cache makes the
      call throw. An unspent coin that only the parent shows goes unnoticed, and exactly then the entry is
      FRESH where it must not be and the cache is no longer valid.
     */
    method AddCoin(o: OutPoint, coin: Coin, possibleOverwrite: bool) returns (threw: bool)
      requires Valid()
      requires !coin.IsSpent()
      modifies this
      ensures Valid() <==> coin.IsUnspendable() || possibleOverwrite || o in old(cacheCoins) || o !in Below()
      ensures hashBlock == old(hashBlock)
      ensures threw <==>
        && !coin.IsUnspendable() && !possibleOverwrite
        && o in old(cacheCoins) && !old(cacheCoins)[o].coin.IsSpent()
      ensures contents == if coin.IsUnspendable() || threw then old(contents) else old(contents)[o := coin]
      ensures coin.IsUnspendable() || threw ==> cacheCoins == old(cacheCoins)
      ensures !coin.IsUnspendable() && !threw ==>
        && SameExceptAt(cacheCoins, old(cacheCoins), o) && o in cacheCoins && cacheCoins[o].coin == coin && cacheCoins[o].isDirty
        && (cacheCoins[o].isFresh <==>
              if o !in old(cacheCoins) then !possibleOverwrite
              else old(cacheCoins)[o].isFresh || (!possibleOverwrite && !old(cacheCoins)[o].isDirty))
    {
      hide LayerOk, ChainValid, Linked, SameExceptAt;
      PeekShown(o);
      BelowUnspent();
      if coin.IsUnspendable() {
        return false;
      }
      ghost var was := State();
      var inserted := o !in cacheCoins;
      var entry := if inserted then CacheEntry(NullCoin, false, false, Unlinked) else cacheCoins[o];
      var freshen := false;
      if !possibleOverwrite {
        if !entry.coin.IsSpent() {
          return true;
        }
        freshen := !entry.isDirty;
      }
      if !inserted {
        dirtyCount := dirtyCount - if entry.isDirty then 1 else 0;
        cachedCoinsUsage := cachedCoinsUsage - entry.coin.DynamicMemoryUsage();
      }
      StoreDirty(o, coin, freshen);
      dirtyCount := dirtyCount + 1;
      cachedCoinsUsage := cachedCoinsUsage + cacheCoins[o].coin.DynamicMemoryUsage();
      contents := contents[o := coin];
      threw := false;
      if possibleOverwrite || !inserted || o !in Below() {
        EditedLayerOk(was, State(), Below(), o);
      } else {
        MisusedEntry(State(), Below(), o);
      }
    }

    /**
      Emplaces a coin of a snapshot, without any check, if the cache has no entry for it. The cache stays valid
      unless the coin is a spent one that has not been cleared.
     */
    method EmplaceCoinInternal(o: OutPoint, coin: Coin)
      requires Valid()
      modifies this
      ensures Valid() <==> o in old(cacheCoins) || !coin.IsSpent() || coin == NullCoin
      ensures hashBlock == old(hashBlock)
      ensures contents == if o in old(cacheCoins) then old(contents) else Put(old(contents), o, coin)
      ensures o in old(cacheCoins) ==> cacheCoins == old(cacheCoins)
      ensures o !in old(cacheCoins) ==>
        && SameExceptAt(cacheCoins, old(cacheCoins), o) && o in cacheCoins
        && cacheCoins[o].coin == coin && cacheCoins[o].isDirty && !cacheCoins[o].isFresh
    {
      hide LayerOk, ChainValid, Linked, SameExceptAt;
      PeekShown(o);
      BelowUnspent();
      if o !in cacheCoins {
        ghost var was := State();
        StoreDirty(o, coin, false);
        dirtyCount := dirtyCount + 1;
        cachedCoinsUsage := cachedCoinsUsage + coin.DynamicMemoryUsage();
        contents := Put(contents, o, coin);
        if !coin.IsSpent() || coin == NullCoin {
          EditedLayerOk(was, State(), Below(), o);
        } else {
          MisusedEntry(State(), Below(), o);
        }
      }
    }

    /** Spends a coin. The result tells whether an entry was found, which may already be a spent one. */
    method SpendCoin(o: OutPoint) returns (found: bool, moved: Coin)
      requires Valid()
      modifies this, lower
      ensures Valid() && Below() == old(Below()) && hashBlock == old(hashBlock)
      ensures forall c :: c in lower ==> c.contents == old(c.contents) && c.hashBlock == old(c.hashBlock)
      ensures contents == old(contents) - {o}
      ensures found <==> o in old(cacheCoins) || o in old(Below())
      ensures moved == if o in old(contents) then old(contents)[o] else NullCoin
      ensures SameExceptAt(cacheCoins, old(cacheCoins), o)
      ensures o in cacheCoins <==> found && !(o in old(cacheCoins) && old(cacheCoins)[o].isFresh)
      ensures o in cacheCoins ==> cacheCoins[o].coin == NullCoin && cacheCoins[o].isDirty && !cacheCoins[o].isFresh
    {
      hide LayerOk, ChainValid, Linked, EntryOk;
      PeekShown(o);
      found := FetchCoin(o);
      moved := NullCoin;
      if found {
        moved := MarkSpent(o);
      } else {
        PeekShown(o);
        assert contents == contents - {o};
      }
    }

    /** Takes the coin out of an entry: a fresh entry goes altogether, another stays as spent. */
    method MarkSpent(o: OutPoint) returns (moved: Coin)
      requires Valid() && o in cacheCoins
      modifies this`cacheCoins, this`sentinel, this`flagged, this`cachedCoinsUsage, this`dirtyCount, this`contents
      ensures Valid() && contents == old(contents) - {o}
      ensures moved == if o in old(contents) then old(contents)[o] else NullCoin
      ensures SameExceptAt(cacheCoins, old(cacheCoins), o) && (o in cacheCoins <==> !old(cacheCoins)[o].isFresh)
      ensures o in cacheCoins ==> cacheCoins[o].coin == NullCoin && cacheCoins[o].isDirty && !cacheCoins[o].isFresh
    {
      hide LayerOk, ChainValid, Linked, SameExceptAt;
      PeekShown(o);
      BelowUnspent();
      ghost var was := State();
      var entry := cacheCoins[o];
      dirtyCount := dirtyCount - if entry.isDirty then 1 else 0;
      cachedCoinsUsage := cachedCoinsUsage - entry.coin.DynamicMemoryUsage();
      moved := entry.coin;
      if entry.isFresh {
        ghost var k := Erase(o);
      } else {
        StoreDirty(o, NullCoin, false);
        dirtyCount := dirtyCount + 1;
      }
      contents := contents - {o};
      EditedLayerOk(was, State(), Below(), o);
    }

    /** Forgets an entry that was not modified; nothing shown changes. */
    method Uncache(o: OutPoint)
      requires Valid()
      modifies this`cacheCoins, this`sentinel, this`flagged, this`cachedCoinsUsage
      ensures Valid()
      ensures o in cacheCoins <==> o in old(cacheCoins) && old(cacheCoins)[o].isDirty
      ensures SameExceptAt(cacheCoins, old(cacheCoins), o) && (o in cacheCoins ==> cacheCoins == old(cacheCoins))
    {
      hide LayerOk, ChainValid, Linked;
      PeekShown(o);
      BelowUnspent();
      if o in cacheCoins && !cacheCoins[o].isDirty {
        ghost var was := State();
        cachedCoinsUsage := cachedCoinsUsage - cacheCoins[o].coin.DynamicMemoryUsage();
        ghost var k := Erase(o);
        EditedLayerOk(was, State(), Below(), o);
      }
    }

    /** Destroys all entries, in any order; each unlinks itself, so that the sentinel is left pointing at itself. */
    method Clear()
      requires Linked(cacheCoins, sentinel, flagged)
      modifies this`cacheCoins, this`sentinel, this`flagged
      ensures cacheCoins == map[] && flagged == [] && sentinel == Links(Sentinel, Sentinel)
    {
      hide Linked, SameExceptAt;
      while cacheCoins != map[]
        invariant Linked(cacheCoins, sentinel, flagged)
        decreases |cacheCoins.Keys|
      {
        var o :| o in cacheCoins;
        ghost var was := cacheCoins;
        ghost var k := Erase(o);
        OneLess(was, cacheCoins, o);
      }
      NoneLinked(sentinel, flagged);
    }

    /** Discards every modification: the layer shows what its parent shows. */
    method Reset()
      requires Valid()
      modifies this
      ensures Valid() && contents == Below() && cacheCoins == map[] && hashBlock == ZERO_HASH
    {
      hide LayerOk, ChainValid, Linked;
      BelowUnspent();
      ValidList();
      Clear();
      cachedCoinsUsage := 0;
      dirtyCount := 0;
      hashBlock := ZERO_HASH;
      contents := Below();
      EmptyLayerOk(Below());
    }

    lemma ValidList()
      requires Valid()
      ensures Linked(cacheCoins, sentinel, flagged)
    {
    }

    // ---------- The cursor over the flagged entries ----------

    /** The cursor stands at the `i`-th flagged entry of `l`; those in `done` lie behind it. */
    ghost predicate CursorAt(l: Layer, willErase: bool, it: Link, i: int, done: set<OutPoint>)
      reads this
    {
      && 0 <= i <= |l.order| && it == Node(l.order, i)
      && Passed(l.order, i, done)
      && Iterated(cacheCoins, l.cache, done, willErase)
      && Linked(cacheCoins, sentinel, flagged)
      && flagged == (if willErase then l.order else l.order[i..])
      && dirtyCount == |l.order| - i
    }

    /** Every flagged entry has been handed to the parent. */
    ghost predicate HandedOver(l: Layer, willErase: bool)
      reads this
    {
      && dirtyCount == 0
      && Linked(cacheCoins, sentinel, flagged) && (!willErase ==> flagged == [])
      && Iterated(cacheCoins, l.cache, Elements(l.order), willErase)
    }

    lemma CursorStart()
      requires Valid()
      ensures CursorAt(State(), true, sentinel.next, 0, {}) && CursorAt(State(), false, sentinel.next, 0, {})
      ensures AllDirty(State()) && Linked(cacheCoins, sentinel, flagged)
    {
      forall o | o in flagged ensures o in cacheCoins && cacheCoins[o].isDirty {
        FlaggedIsListed(cacheCoins, sentinel, flagged, o);
        assert EntryOk(cacheCoins[o], Lookup(Below(), o));
      }
    }

    lemma CursorEntry(l: Layer, willErase: bool, it: Link, i: int, done: set<OutPoint>)
      requires CursorAt(l, willErase, it, i, done) && it != Sentinel
      requires Linked(l.cache, l.sentinel, l.order)
      ensures i < |l.order| && it == At(l.order[i]) && it.outpoint !in done
      ensures it.outpoint in cacheCoins && it.outpoint in l.cache && SameData(cacheCoins[it.outpoint], l.cache[it.outpoint])
      ensures cacheCoins[it.outpoint].links.next == Node(l.order, i + 1)
      ensures Distinct(l.order)
    {
      assert NodeOk(l.cache, l.order, i);
      assert NodeOk(cacheCoins, flagged, if willErase then i else 0);
    }

    lemma CursorDone(l: Layer, willErase: bool, it: Link, i: int, done: set<OutPoint>)
      requires CursorAt(l, willErase, it, i, done) && it == Sentinel
      ensures HandedOver(l, willErase) && done == Elements(l.order)
    {
      assert l.order[..|l.order|] == l.order;
    }

    /** Steps over the current entry; unless the map is about to be cleared, a spent entry is erased and another unflagged. */
    method NextAndMaybeErase(current: OutPoint, willErase: bool, ghost l: Layer, ghost i: int, ghost done: set<OutPoint>)
      returns (next: Link)
      requires CursorAt(l, willErase, At(current), i, done)
      requires Linked(l.cache, l.sentinel, l.order)
      requires AllDirty(l)
      modifies this`cacheCoins, this`sentinel, this`flagged, this`dirtyCount
      ensures CursorAt(l, willErase, next, i + 1, done + {current})
    {
      hide Linked, SameExceptAt, Passed, Distinct;
      CursorEntry(l, willErase, At(current), i, done);
      PassedStep(l.order, i, done);
      var entry := cacheCoins[current];
      next := entry.links.next;
      dirtyCount := dirtyCount - if entry.isDirty then 1 else 0;
      if !willErase {
        ghost var k;
        if entry.coin.IsSpent() {
          k := Erase(current);
        } else {
          k := SetClean(current);
        }
        IteratedStep(old(cacheCoins), cacheCoins, l.cache, done, current);
        HeadOfRest(l.order, i, k);
      }
    }

    // ---------- Writing a child's changes through ----------

    /**
      Takes over one dirty entry of the child. A FRESH entry for a coin that is unspent here means that
      the flag was misapplied, and the call throws; for an entry whose flags are right that cannot be.
     */
    method WriteEntry(o: OutPoint, entry: CacheEntry) returns (threw: bool)
      requires Valid()
      modifies this`cacheCoins, this`sentinel, this`flagged, this`cachedCoinsUsage, this`dirtyCount, this`contents
      ensures threw <==> entry.isFresh && o in old(cacheCoins) && !old(cacheCoins)[o].coin.IsSpent()
      ensures threw ==> State() == old(State())
      ensures entry.isDirty && EntryOk(entry, Lookup(old(contents), o)) ==>
        !threw && Valid() && contents == Put(old(contents), o, entry.coin)
      ensures !threw ==> SameExceptAt(cacheCoins, old(cacheCoins), o) && MergedAt(old(cacheCoins), o, entry, cacheCoins)
    {
      hide LayerOk, ChainValid, Linked, SameExceptAt, EntryOk;
      threw := false;
      if o !in cacheCoins {
        WriteNew(o, entry);
      } else {
        PeekShown(o);
        if entry.isFresh && !cacheCoins[o].coin.IsSpent() {
          FreshUnspent(entry, cacheCoins[o].coin);
          return true;
        }
        WriteOver(o, entry);
      }
    }

    /** The part for a coin that has no entry here. */
    method WriteNew(o: OutPoint, entry: CacheEntry)
      requires Valid() && o !in cacheCoins
      modifies this`cacheCoins, this`sentinel, this`flagged, this`cachedCoinsUsage, this`dirtyCount, this`contents
      ensures entry.isDirty && EntryOk(entry, Lookup(old(contents), o)) ==> Valid() && contents == Put(old(contents), o, entry.coin)
      ensures SameExceptAt(cacheCoins, old(cacheCoins), o) && MergedAt(old(cacheCoins), o, entry, cacheCoins)
    {
      hide LayerOk, ChainValid, Linked, SameExceptAt;
      SameItself(cacheCoins, o);
      PeekShown(o);
      BelowUnspent();
      ghost var was := State();
      if !(entry.isFresh && entry.coin.IsSpent()) {
        StoreDirty(o, entry.coin, entry.isFresh);
        dirtyCount := dirtyCount + 1;
        cachedCoinsUsage := cachedCoinsUsage + entry.coin.DynamicMemoryUsage();
      }
      contents := Put(contents, o, entry.coin);
      if entry.isDirty && EntryOk(entry, Lookup(was.shown, o)) {
        EditedLayerOk(was, State(), Below(), o);
      }
    }

    /** The part for a coin that has one. */
    method WriteOver(o: OutPoint, entry: CacheEntry)
      requires Valid() && o in cacheCoins && (entry.isFresh ==> cacheCoins[o].coin.IsSpent())
      modifies this`cacheCoins, this`sentinel, this`flagged, this`cachedCoinsUsage, this`dirtyCount, this`contents
      ensures entry.isDirty && EntryOk(entry, Lookup(old(contents), o)) ==> Valid() && contents == Put(old(contents), o, entry.coin)
      ensures SameExceptAt(cacheCoins, old(cacheCoins), o) && MergedAt(old(cacheCoins), o, entry, cacheCoins)
    {
      hide LayerOk, ChainValid, Linked, SameExceptAt;
      SameItself(cacheCoins, o);
      PeekShown(o);
      BelowUnspent();
      ghost var was := State();
      var mine := cacheCoins[o];
      cachedCoinsUsage := cachedCoinsUsage - mine.coin.DynamicMemoryUsage();
      if mine.isFresh && entry.coin.IsSpent() {
        dirtyCount := dirtyCount - if mine.isDirty then 1 else 0;
        ghost var k := Erase(o);
      } else {
        StoreDirty(o, entry.coin, false);
        cachedCoinsUsage := cachedCoinsUsage + entry.coin.DynamicMemoryUsage();
        if !mine.isDirty {
          dirtyCount := dirtyCount + 1;
        }
      }
      contents := Put(contents, o, entry.coin);
      if entry.isDirty && EntryOk(entry, Lookup(was.shown, o)) {
        EditedLayerOk(was, State(), Below(), o);
      }
    }

    /** Takes over every dirty entry of the child; the misapplied-FRESH throw is never met. */
    method BatchWrite(child: CoinsViewCache, willErase: bool, hashBlockIn: nat)
      requires child.Valid() && child.base == Cached(this)
      modifies this, child`cacheCoins, child`sentinel, child`flagged, child`dirtyCount
      ensures Valid() && contents == child.contents && hashBlock == hashBlockIn
      ensures child.HandedOver(old(child.State()), willErase)
      ensures TakenOver(old(cacheCoins), old(child.cacheCoins), cacheCoins)
    {
      hide LayerOk, ChainValid, Linked, Iterated, Applied, EntryOk, CursorAt, HandedOver, AllDirty, Put, Merged, MergedAt, TakenOver;
      ghost var l, before, done, i := child.State(), contents, {}, 0;
      ghost var mine := cacheCoins;
      child.CursorStart();
      child.BaseValid();
      AppliedNone(contents, l.cache);
      MergedNone(mine, l.cache);
      var it := child.sentinel.next;
      while it != Sentinel
        invariant Valid() && child.CursorAt(l, willErase, it, i, done)
        invariant Applied(contents, before, l.cache, done) && Merged(mine, l.cache, done, cacheCoins)
        decreases |l.order| - i
      {
        child.CursorEntry(l, willErase, it, i, done);
        var o := it.outpoint;
        var entry := child.cacheCoins[o];
        if entry.isDirty {
          AppliedStep(contents, before, l.cache, done, o);
          PendingEntryOk(l, before, contents, done, o, entry);
          ghost var was := cacheCoins;
          var threw := WriteEntry(o, entry);
          assert !threw;
          MergedStep(mine, l.cache, done, was, o, entry, cacheCoins);
        }
        it := child.NextAndMaybeErase(o, willErase, l, i, done);
        done, i := done + {o}, i + 1;
      }
      child.CursorDone(l, willErase, it, i, done);
      AppliedAll(l, before, contents, done);
      MergedAll(mine, l, cacheCoins);
      hashBlock := hashBlockIn;
    }

    /** Pushes all modifications to the parent and empties the cache. Only the parent and this cache change. */
    method Flush()
      requires Valid()
      modifies this, lower, bottom
      ensures Valid() && contents == old(contents) && Below() == old(contents)
      ensures cacheCoins == map[] && hashBlock == old(hashBlock)
      ensures forall i :: 0 <= i < |lower| - 1 ==> unchanged(lower[i])
      ensures lower != [] ==> unchanged(bottom) && lower[|lower| - 1].hashBlock == hashBlock
      ensures lower != [] ==>
        TakenOver(old(lower[|lower| - 1].cacheCoins), old(cacheCoins), lower[|lower| - 1].cacheCoins)
    {
      hide LayerOk, Linked, Iterated, ChainValid, TakenOver;
      ContentsUnspent();
      match base {
        case Database(db) =>
          db.BatchWrite(this, true);
          ClearAll();
          ValidOverDatabase();
        case Cached(cache) =>
          BaseValid();
          cache.BatchWrite(this, true, hashBlock);
          ClearAll();
          ValidOverBase();
      }
    }

    /** Clears the map after all entries have been handed over. */
    method ClearAll()
      requires dirtyCount == 0 && Linked(cacheCoins, sentinel, flagged)
      requires contents == Below() && UnspentOnly(contents) && this !in lower
      modifies this`cacheCoins, this`sentinel, this`flagged, this`cachedCoinsUsage
      ensures cacheCoins == map[] && LayerOk(State(), Below())
    {
      hide Linked, LayerOk;
      Clear();
      cachedCoinsUsage := 0;
      EmptyLayerOk(Below());
    }

    /** Pushes all modifications to the parent, keeping the unspent coins as clean entries. */
    method Sync()
      requires Valid()
      modifies this, lower, bottom
      ensures Valid() && contents == old(contents) && Below() == old(contents)
      ensures hashBlock == old(hashBlock)
      ensures forall o :: o in cacheCoins <==> o in old(cacheCoins) && o in contents
      ensures forall o :: o in cacheCoins ==> cacheCoins[o] == CacheEntry(contents[o], false, false, Unlinked)
      ensures forall i :: 0 <= i < |lower| - 1 ==> unchanged(lower[i])
      ensures lower != [] ==> unchanged(bottom) && lower[|lower| - 1].hashBlock == hashBlock
      ensures lower != [] ==>
        TakenOver(old(lower[|lower| - 1].cacheCoins), old(cacheCoins), lower[|lower| - 1].cacheCoins)
    {
      hide LayerOk, Linked, Iterated, ChainValid, TakenOver;
      ghost var l, below := State(), Below();
      ContentsUnspent();
      match base {
        case Database(db) =>
          db.BatchWrite(this, false);
          SyncedLayerOk(l, below, cacheCoins, sentinel, Elements(l.order));
          assert sentinel.next == Sentinel by { EmptyList(cacheCoins, sentinel); }
          ValidOverDatabase();
        case Cached(cache) =>
          BaseValid();
          cache.BatchWrite(this, false, hashBlock);
          SyncedLayerOk(l, below, cacheCoins, sentinel, Elements(l.order));
          assert sentinel.next == Sentinel by { EmptyList(cacheCoins, sentinel); }
          ValidOverBase();
      }
      SyncedEntries(l, below, cacheCoins, sentinel, Elements(l.order));
    }

    // ---------- The cache's own consistency check ----------

    /** Looks at every entry: whether its state is a documented one, how much memory they use, and how many are dirty. */
    method CheckEntries() returns (ok: bool, usage: nat, dirty: nat)
      ensures ok <==> forall o :: o in cacheCoins ==> DocumentedState(cacheCoins[o])
      ensures usage == TotalUsage(cacheCoins) && dirty == |DirtyKeys(cacheCoins)|
    {
      hide TotalUsage, DirtyKeys;
      ok, usage, dirty := true, 0, 0;
      var rest := cacheCoins;
      while rest != map[]
        invariant rest.Keys <= cacheCoins.Keys && forall o :: o in rest ==> rest[o] == cacheCoins[o]
        invariant ok <==> forall o :: o in cacheCoins && o !in rest ==> DocumentedState(cacheCoins[o])
        invariant usage + TotalUsage(rest) == TotalUsage(cacheCoins)
        invariant dirty + |DirtyKeys(rest)| == |DirtyKeys(cacheCoins)|
        decreases |rest|
      {
        var o :| o in rest;
        TotalUsageSplit(rest, o);
        DirtyKeysSplit(rest, o);
        var entry := rest[o];
        if entry.coin.IsSpent() {
          ok := ok && entry.isDirty && !entry.isFresh;
        } else {
          ok := ok && (entry.isDirty || !entry.isFresh);
        }
        usage := usage + entry.coin.DynamicMemoryUsage();
        if entry.isDirty {
          dirty := dirty + 1;
        }
        rest := rest - {o};
      }
      NothingDirty();
    }

    function LinksAt(l: Link): Links
      requires l.At? ==> l.outpoint in cacheCoins
      reads this
    {
      if l.At? then cacheCoins[l.outpoint].links else sentinel
    }

    lemma {:induction false} DirtyKeysListed()
      requires Valid()
      ensures |DirtyKeys(cacheCoins)| == dirtyCount && cachedCoinsUsage == TotalUsage(cacheCoins)
    {
      CursorStart();
      forall o ensures o in DirtyKeys(cacheCoins) <==> o in flagged {
        FlaggedIsListed(cacheCoins, sentinel, flagged, o);
      }
      assert DirtyKeys(cacheCoins) == Elements(flagged);
      ElementsCount(flagged);
    }

    /** The next pointers lead from the sentinel through `order` and back, and the prev pointers lead somewhere. */
    ghost predicate Walk(order: seq<OutPoint>)
      reads this
    {
      sentinel.next == Node(order, 0) && forall i :: WalkAt(order, i)
    }

    ghost predicate WalkAt(order: seq<OutPoint>, i: int)
      reads this
    {
      0 <= i < |order| ==>
        && order[i] in cacheCoins && cacheCoins[order[i]].links.next == Node(order, i + 1)
        && (cacheCoins[order[i]].links.prev.At? ==> cacheCoins[order[i]].links.prev.outpoint in cacheCoins)
        && (i + 1 < |order| ==> order[i + 1] in cacheCoins)
    }

    /** Both neighbours of an entry of the list point back at it, and it is dirty. */
    ghost predicate SoundAt(order: seq<OutPoint>, i: int)
      requires Walk(order) && 0 <= i < |order|
      reads this
    {
      assert WalkAt(order, i);
      var links := cacheCoins[order[i]].links;
      LinksAt(links.next).prev == At(order[i]) && LinksAt(links.prev).next == At(order[i]) && cacheCoins[order[i]].isDirty
    }

    /** What the check is for. */
    ghost predicate Sane(order: seq<OutPoint>)
      requires Walk(order)
      reads this
    {
      && (forall o :: o in cacheCoins ==> DocumentedState(cacheCoins[o]))
      && (forall i :: 0 <= i < |order| ==> SoundAt(order, i))
      && |DirtyKeys(cacheCoins)| == |order| == dirtyCount
      && TotalUsage(cacheCoins) == cachedCoinsUsage
    }

    /** Every valid cache is sane. */
    lemma ValidIsSane()
      requires Valid()
      ensures Walk(flagged) && Sane(flagged)
    {
      hide LayerOk, ChainValid, Linked;
      PeekEnds();
      forall i ensures WalkAt(flagged, i) {
        if 0 <= i < |flagged| {
          Neighbours(i);
        }
      }
      forall i | 0 <= i < |flagged| ensures SoundAt(flagged, i) {
        Neighbours(i);
      }
      forall o | o in cacheCoins ensures DocumentedState(cacheCoins[o]) {
        PeekShown(o);
      }
      DirtyKeysListed();
    }

    lemma PeekEnds()
      requires Valid()
      ensures sentinel == Links(Node(flagged, |flagged| - 1), Node(flagged, 0)) && dirtyCount == |flagged|
    {
    }

    /** An entry of the list is dirty, and its neighbours point back at it. */
    lemma Neighbours(i: int)
      requires Valid() && 0 <= i < |flagged|
      ensures flagged[i] in cacheCoins && cacheCoins[flagged[i]].isDirty
      ensures cacheCoins[flagged[i]].links == Links(Node(flagged, i - 1), Node(flagged, i + 1))
      ensures i > 0 ==> flagged[i - 1] in cacheCoins && cacheCoins[flagged[i - 1]].links.next == At(flagged[i])
      ensures i + 1 < |flagged| ==> flagged[i + 1] in cacheCoins && cacheCoins[flagged[i + 1]].links.prev == At(flagged[i])
    {
      assert NodeOk(cacheCoins, flagged, i) && NodeOk(cacheCoins, flagged, i - 1) && NodeOk(cacheCoins, flagged, i + 1);
      FlaggedIsListed(cacheCoins, sentinel, flagged, flagged[i]);
      assert EntryOk(cacheCoins[flagged[i]], Lookup(Below(), flagged[i]));
    }

    /** Walks the list of flagged entries, checking every pointer, and then compares all the counts. */
    method SanityCheck(ghost order: seq<OutPoint>) returns (ok: bool)
      requires Walk(order)
      ensures ok <==> Sane(order)
    {
      hide TotalUsage, DirtyKeys;
      var usage, dirty;
      ok, usage, dirty := CheckEntries();
      ghost var fine := ok;
      var linked, it := 0, sentinel.next;
      ghost var i := 0;
      while it != Sentinel
        invariant 0 <= i <= |order| && linked == i && it == Node(order, i)
        invariant ok <==> fine && forall k :: 0 <= k < i ==> SoundAt(order, k)
        decreases |order| - i
      {
        assert WalkAt(order, i);
        ghost var sound, before := SoundAt(order, i), ok;
        var links := LinksAt(it);
        ok := ok && LinksAt(links.next).prev == it && LinksAt(links.prev).next == it;
        ok := ok && cacheCoins[it.outpoint].isDirty;
        assert ok <==> before && sound;
        linked, i := linked + 1, i + 1;
        it := links.next;
      }
      ok := ok && dirty == linked && dirty == dirtyCount && usage == cachedCoinsUsage;
    }
  }

  /** A coin added over one that only the database holds, without announcing it. */
  method UnannouncedOverwrite() returns (cache: CoinsViewCache)
    ensures !cache.Valid()
  {
    hide LayerOk;
    var o, coin := OutPoint(0, 0), Coin(1, [], 0, false);
    var db := new CoinsViewDB(map[o := coin]);
    cache := new CoinsViewCache(Database(db), false);
    var threw := cache.AddCoin(o, coin.(value := 2), false);
  }
}
