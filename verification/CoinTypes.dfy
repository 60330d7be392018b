/** Values shared by the layered coin caches: outpoints, coins, and the entries of one cache. */
module CoinTypes {
  import opened Options

  datatype OutPoint = OutPoint(txid: nat, n: nat)

  const OP_RETURN: nat := 0x6a
  const MAX_SCRIPT_SIZE: nat := 10000
  const DIRECT_SCRIPT_BYTES: nat := 36

  /** A coin; a value of -1 marks it as spent (or never created). */
  datatype Coin = Coin(value: int, script: seq<nat>, height: nat, coinbase: bool) {
    predicate IsSpent() {
      value == -1
    }

    predicate IsUnspendable() {
      (|script| > 0 && script[0] == OP_RETURN) || |script| > MAX_SCRIPT_SIZE
    }

    /** Heap bytes behind the script: none while it fits in place, else rounded up as malloc does. */
    function DynamicMemoryUsage(): nat {
      if |script| <= DIRECT_SCRIPT_BYTES then 0 else (|script| + 31) / 16 * 16
    }
  }

  /** Scripts beginning with byte 0x6a and scripts of more than 10000 bytes can never be satisfied; all others may be. */
  lemma UnspendableExactly(coin: Coin)
    ensures |coin.script| > 10000 ==> coin.IsUnspendable()
    ensures coin.script != [] && coin.script[0] == 106 ==> coin.IsUnspendable()
    ensures coin.IsUnspendable() ==> |coin.script| > 10000 || coin.script[0] == 106
  {
  }

  /** Beyond 36 bytes the memory is the one multiple of 16 that leaves from 16 up to 31 bytes besides the script. */
  lemma UsageExactly(coin: Coin)
    ensures |coin.script| <= 36 ==> coin.DynamicMemoryUsage() == 0
    ensures |coin.script| > 36 ==>
      && coin.DynamicMemoryUsage() % 16 == 0
      && |coin.script| + 16 <= coin.DynamicMemoryUsage() < |coin.script| + 32
  {
  }

  const NullCoin := Coin(-1, [], 0, false)

  /** A pointer of the intrusive list of flagged entries. */
  datatype Link = Null | Sentinel | At(outpoint: OutPoint)

  datatype Links = Links(prev: Link, next: Link)

  const Unlinked := Links(Null, Null)

  datatype CacheEntry = CacheEntry(coin: Coin, isDirty: bool, isFresh: bool, links: Links) {
    predicate IsFlagged() {
      isDirty || isFresh
    }

    function AsClean(): CacheEntry {
      CacheEntry(coin, false, false, Unlinked)
    }
  }

  type CoinsMap = map<OutPoint, CacheEntry>
  type CoinSet = map<OutPoint, Coin>

  function Lookup(coins: CoinSet, o: OutPoint): Option<Coin> {
    if o in coins then Some(coins[o]) else None
  }

  /** What a cache shows at an outpoint when its parent shows `below`. */
  function Peek(cache: CoinsMap, below: CoinSet, o: OutPoint): Option<Coin> {
    if o in cache then
      if cache[o].coin.IsSpent() then None else Some(cache[o].coin)
    else
      Lookup(below, o)
  }

  /** `shown` is the one plain map that a cache over `below` stands for. */
  ghost predicate Shows(cache: CoinsMap, below: CoinSet, shown: CoinSet) {
    forall o :: Lookup(shown, o) == Peek(cache, below, o)
  }

  /** The meaning of an entry's flags against what the parent shows. */
  ghost predicate EntryOk(e: CacheEntry, below: Option<Coin>) {
    && (e.coin.IsSpent() ==> e.coin == NullCoin && e.isDirty && !e.isFresh)
    && (e.isFresh ==> e.isDirty && below == None)
    && (!e.isDirty ==> below == Some(e.coin))
  }

  ghost predicate EntriesOk(cache: CoinsMap, below: CoinSet) {
    forall o :: o in cache ==> EntryOk(cache[o], Lookup(below, o))
  }

  /** The four combinations of spent, FRESH and DIRTY that an entry may be in. */
  predicate DocumentedState(e: CacheEntry) {
    || (!e.coin.IsSpent() && e.isFresh && e.isDirty)
    || (!e.coin.IsSpent() && !e.isFresh && e.isDirty)
    || (!e.coin.IsSpent() && !e.isFresh && !e.isDirty)
    || (e.coin.IsSpent() && !e.isFresh && e.isDirty)
  }

  /** Summed coin sizes of a cache. */
  ghost function TotalUsage(cache: CoinsMap): nat {
    if cache == map[] then 0
    else
      var o :| o in cache;
      cache[o].coin.DynamicMemoryUsage() + TotalUsage(cache - {o})
  }

  lemma {:induction false} TotalUsageSplit(cache: CoinsMap, o: OutPoint)
    requires o in cache
    ensures TotalUsage(cache) == cache[o].coin.DynamicMemoryUsage() + TotalUsage(cache - {o})
    decreases |cache|
  {
    var p :| p in cache && TotalUsage(cache) == cache[p].coin.DynamicMemoryUsage() + TotalUsage(cache - {p});
    if p != o {
      TotalUsageSplit(cache - {p}, o);
      TotalUsageSplit(cache - {o}, p);
      assert cache - {p} - {o} == cache - {o} - {p};
    }
  }

  lemma TotalUsageUpdate(cache: CoinsMap, o: OutPoint, e: CacheEntry)
    ensures TotalUsage(cache[o := e]) == TotalUsage(cache - {o}) + e.coin.DynamicMemoryUsage()
  {
    TotalUsageSplit(cache[o := e], o);
    assert cache[o := e] - {o} == cache - {o};
  }

  /** Relinking and reflagging leave the total alone. */
  lemma {:induction false} TotalUsageSameCoins(a: CoinsMap, b: CoinsMap)
    requires a.Keys == b.Keys
    requires forall o :: o in a ==> a[o].coin == b[o].coin
    ensures TotalUsage(a) == TotalUsage(b)
    decreases |a|
  {
    if a == map[] {
      assert b == map[];
    } else {
      var o :| o in a;
      TotalUsageSplit(a, o);
      TotalUsageSplit(b, o);
      TotalUsageSameCoins(a - {o}, b - {o});
    }
  }

  /** A cache stands for one plain map only. */
  lemma ShownIsUnique(cache: CoinsMap, below: CoinSet, shown: CoinSet, shown': CoinSet)
    requires Shows(cache, below, shown) && Shows(cache, below, shown')
    ensures shown == shown'
  {
    forall o ensures Lookup(shown, o) == Lookup(shown', o) {
      assert Lookup(shown, o) == Peek(cache, below, o) == Lookup(shown', o);
    }
    LookupExtensional(shown, shown');
  }

  lemma LookupExtensional(a: CoinSet, b: CoinSet)
    requires forall o :: Lookup(a, o) == Lookup(b, o)
    ensures a == b
  {
    forall o ensures o in a <==> o in b {
      assert Lookup(a, o) == Lookup(b, o);
    }
    forall o | o in a ensures a[o] == b[o] {
      assert Lookup(a, o) == Lookup(b, o);
    }
  }

  ghost predicate UnspentOnly(coins: CoinSet) {
    forall o :: o in coins ==> !coins[o].IsSpent()
  }

  /** Two caches hold the same coins under the same flags, except perhaps at `o`. */
  ghost predicate SameExceptAt(a: CoinsMap, b: CoinsMap, o: OutPoint) {
    && (forall p :: p != o ==> (p in a <==> p in b))
    && (forall p :: p != o && p in a && p in b ==> SameData(a[p], b[p]))
  }

  ghost predicate SameData(a: CacheEntry, b: CacheEntry) {
    a.coin == b.coin && a.isDirty == b.isDirty && a.isFresh == b.isFresh
  }

  function UsageAt(cache: CoinsMap, o: OutPoint): nat {
    if o in cache then cache[o].coin.DynamicMemoryUsage() else 0
  }

  lemma TotalUsageExceptAt(a: CoinsMap, b: CoinsMap, o: OutPoint)
    requires SameExceptAt(a, b, o)
    ensures TotalUsage(a) + UsageAt(b, o) == TotalUsage(b) + UsageAt(a, o)
  {
    TotalUsageSameCoins(a - {o}, b - {o});
    if o in a {
      TotalUsageSplit(a, o);
    } else {
      assert a - {o} == a;
    }
    if o in b {
      TotalUsageSplit(b, o);
    } else {
      assert b - {o} == b;
    }
  }

  /** After a change at `o` alone, only `o` has to be looked at again. */
  lemma ChangedAt(cache: CoinsMap, cache': CoinsMap, o: OutPoint, below: CoinSet, shown: CoinSet, shown': CoinSet)
    requires SameExceptAt(cache', cache, o)
    requires EntriesOk(cache, below) && Shows(cache, below, shown)
    requires o in cache' ==> EntryOk(cache'[o], Lookup(below, o))
    requires forall p :: p != o ==> Lookup(shown', p) == Lookup(shown, p)
    requires Lookup(shown', o) == Peek(cache', below, o)
    ensures EntriesOk(cache', below) && Shows(cache', below, shown')
  {
    forall p | p in cache' ensures EntryOk(cache'[p], Lookup(below, p)) {
      if p != o {
        assert EntryOk(cache[p], Lookup(below, p));
      }
    }
    forall p ensures Lookup(shown', p) == Peek(cache', below, p) {
      if p != o {
        assert Lookup(shown, p) == Peek(cache, below, p);
      }
    }
  }

  /** Dropping entries that own no memory, and relinking the rest, leaves the total alone. */
  lemma {:induction false} TotalUsageDrop(a: CoinsMap, b: CoinsMap)
    requires b.Keys <= a.Keys
    requires forall o :: o in b ==> a[o].coin == b[o].coin
    requires forall o :: o in a && o !in b ==> a[o].coin.DynamicMemoryUsage() == 0
    ensures TotalUsage(a) == TotalUsage(b)
    decreases |a|
  {
    if a == map[] {
      assert b == map[];
    } else {
      var o :| o in a;
      TotalUsageSplit(a, o);
      if o in b {
        TotalUsageSplit(b, o);
        TotalUsageDrop(a - {o}, b - {o});
      } else {
        TotalUsageDrop(a - {o}, b);
      }
    }
  }
}
