/**
  Whole runs of a stack of coin caches of any depth, against the same run made on plain maps.
  Layers only change through their child, so coins are added and spent at the top; every layer may be
  read, uncached, synced or flushed, and layers come and go at the top.
 */
module CoinsStack {
  import opened Options
  import opened CoinTypes
  import opened CoinsCache

  datatype Op =
    | Get(depth: nat, o: OutPoint)
    | Peek(depth: nat, o: OutPoint)
    | Uncache(depth: nat, o: OutPoint)
    | Sync(depth: nat)
    | Flush(depth: nat)
    | Add(o: OutPoint, coin: Coin, overwrite: bool)
    | Spend(o: OutPoint)
    | Reset
    | Push(overlay: bool)
    | Pop

  // ---------- The run on plain maps: the database at 0, then one map per layer ----------

  type Views = views: seq<CoinSet> | |views| > 0 witness [map[]]

  function Top(views: Views): CoinSet {
    views[|views| - 1]
  }

  /** An operation on the layer that lies `depth` layers below the top. */
  predicate AtDepth(op: Op) {
    op.Get? || op.Peek? || op.Uncache? || op.Sync? || op.Flush?
  }

  /** What the callers of the caches have to respect. */
  predicate Legal(views: Views, op: Op) {
    match op
    case Add(o, coin, overwrite) => |views| > 1 && !coin.IsSpent() && (overwrite || o !in Top(views))
    case Push(_) => true
    case _ => |views| > 1 && (AtDepth(op) ==> op.depth + 1 < |views|)
  }

  function Next(views: Views, op: Op): (r: Views)
    requires Legal(views, op)
  {
    var top := |views| - 1;
    match op
    case Sync(depth) => views[top - depth - 1 := views[top - depth]]
    case Flush(depth) => views[top - depth - 1 := views[top - depth]]
    case Add(o, coin, _) => if coin.IsUnspendable() then views else views[top := views[top][o := coin]]
    case Spend(o) => views[top := views[top] - {o}]
    case Reset => views[top := views[top - 1]]
    case Push(_) => views + [Top(views)]
    case Pop => views[..top]
    case _ => views
  }

  /** The coin that a read or a spend hands out. */
  function Seen(views: Views, op: Op): Option<Coin>
    requires Legal(views, op)
  {
    match op
    case Get(depth, o) => Lookup(views[|views| - 1 - depth], o)
    case Peek(depth, o) => Lookup(views[|views| - 1 - depth], o)
    case Spend(o) => Lookup(Top(views), o)
    case _ => None
  }

  predicate LegalRun(views: Views, ops: seq<Op>)
    decreases |ops|
  {
    ops == [] || (Legal(views, ops[0]) && LegalRun(Next(views, ops[0]), ops[1..]))
  }

  function RunViews(views: Views, ops: seq<Op>): Views
    requires LegalRun(views, ops)
    decreases |ops|
  {
    if ops == [] then views else RunViews(Next(views, ops[0]), ops[1..])
  }

  function RunSeen(views: Views, ops: seq<Op>): seq<Option<Coin>>
    requires LegalRun(views, ops)
    decreases |ops|
  {
    if ops == [] then [] else [Seen(views, ops[0])] + RunSeen(Next(views, ops[0]), ops[1..])
  }

  // ---------- The run on the caches ----------

  /** The objects a stack consists of. */
  ghost function Objects(stack: View): set<object> {
    match stack
    case Database(db) => {db}
    case Cached(top) => {top, top.bottom} + set c | c in top.lower
  }

  /** Every layer below and including `top`, and the database, shows exactly its plain map. */
  ghost predicate Agree(top: CoinsViewCache, views: Views)
    reads top, top.lower, top.bottom
  {
    && |views| == |top.lower| + 2 && views[0] == top.bottom.coins
    && (forall i :: 0 <= i < |top.lower| ==> views[i + 1] == top.lower[i].contents)
    && Top(views) == top.contents
  }

  ghost predicate StackShows(stack: View, views: Views)
    reads Objects(stack)
  {
    match stack
    case Database(db) => UnspentOnly(db.coins) && views == [db.coins]
    case Cached(top) => top.Valid() && Agree(top, views)
  }

  lemma AgreeBelow(top: CoinsViewCache, views: Views)
    requires top.Valid() && top.base.Cached?
    ensures |views| > 1 && Top(views) == top.contents && Agree(top.base.cache, views[..|views| - 1]) <==> Agree(top, views)
  {
    hide LayerOk, CoinsViewCache.ChainValid;
    top.BaseValid();
    if |views| > 1 && Top(views) == top.contents && Agree(top.base.cache, views[..|views| - 1]) {
      assert Top(views[..|views| - 1]) == views[|views| - 2];
    }
  }

  /** An operation on the top layer that can be made on any. */
  method AtTop(top: CoinsViewCache, ghost views: Views, op: Op) returns (seen: Option<Coin>)
    requires top.Valid() && Agree(top, views) && Legal(views, op) && AtDepth(op) && op.depth == 0
    modifies Objects(Cached(top))
    ensures top.Valid() && Agree(top, Next(views, op)) && seen == Seen(views, op)
  {
    hide LayerOk, CoinsViewCache.ChainValid;
    seen := None;
    match op {
      case Get(_, o) => seen := top.GetCoin(o);
      case Peek(_, o) => seen := top.PeekCoin(o);
      case Uncache(_, o) => top.Uncache(o);
      case Sync(_) => top.Sync();
      case Flush(_) => top.Flush();
    }
  }

  /** A change of the top layer. */
  method EditTop(top: CoinsViewCache, ghost views: Views, op: Op) returns (seen: Option<Coin>)
    requires top.Valid() && Agree(top, views) && Legal(views, op) && (op.Add? || op.Spend? || op.Reset?)
    modifies Objects(Cached(top))
    ensures top.Valid() && Agree(top, Next(views, op)) && seen == Seen(views, op)
  {
    hide LayerOk, CoinsViewCache.ChainValid, FlaggedList.Linked, EntryOk;
    seen := None;
    match op {
      case Add(o, coin, overwrite) =>
        top.PeekShown(o);
        var threw := top.AddCoin(o, coin, overwrite);
      case Spend(o) =>
        top.ContentsUnspent();
        var found, moved := top.SpendCoin(o);
        seen := if moved.IsSpent() then None else Some(moved);
      case Reset => top.Reset();
    }
  }

  /** Seen from the layer below the top, the operation is one less deep. */
  lemma NextBelow(views: Views, op: Op)
    requires Legal(views, op) && AtDepth(op) && op.depth > 0
    ensures |views| > 2 && Legal(views[..|views| - 1], op.(depth := op.depth - 1))
    ensures Next(views, op) == Next(views[..|views| - 1], op.(depth := op.depth - 1)) + [Top(views)]
    ensures Seen(views, op) == Seen(views[..|views| - 1], op.(depth := op.depth - 1))
    ensures Top(Next(views[..|views| - 1], op.(depth := op.depth - 1))) == Top(views[..|views| - 1])
  {
  }

  /** An operation on any layer, reached through the parents; the layers above it stay valid. */
  method AtLayer(top: CoinsViewCache, ghost views: Views, op: Op) returns (seen: Option<Coin>)
    requires top.Valid() && Agree(top, views) && Legal(views, op) && AtDepth(op)
    modifies Objects(Cached(top))
    ensures top.Valid() && Agree(top, Next(views, op)) && seen == Seen(views, op)
    decreases |top.lower|
  {
    hide LayerOk, CoinsViewCache.ChainValid, Next, Seen;
    if op.depth == 0 {
      seen := AtTop(top, views, op);
    } else {
      AgreeBelow(top, views);
      top.BaseValid();
      NextBelow(views, op);
      ghost var n := |views| - 1;
      seen := AtLayer(top.base.cache, views[..n], op.(depth := op.depth - 1));
      top.ValidOverBase();
      ghost var next := Next(views, op);
      assert next[..|next| - 1] == Next(views[..n], op.(depth := op.depth - 1));
      AgreeBelow(top, next);
    }
  }

  /** One operation on a stack: afterwards each layer shows what the operation on plain maps says. */
  method Step(stack: View, ghost views: Views, op: Op) returns (stack': View, seen: Option<Coin>)
    requires StackShows(stack, views) && Legal(views, op)
    modifies Objects(stack)
    ensures StackShows(stack', Next(views, op)) && seen == Seen(views, op)
    ensures forall c :: c in Objects(stack') ==> c in Objects(stack) || fresh(c)
  {
    hide LayerOk, CoinsViewCache.ChainValid;
    stack', seen := stack, None;
    if op.Push? {
      var top := new CoinsViewCache(stack, op.overlay);
      stack' := Cached(top);
      if stack.Cached? {
        AgreeBelow(top, Next(views, op));
      }
    } else if op.Pop? {
      stack' := stack.cache.base;
      PopShows(stack.cache, views);
    } else if AtDepth(op) {
      seen := AtLayer(stack.cache, views, op);
    } else {
      seen := EditTop(stack.cache, views, op);
    }
  }

  lemma StartShows(db: CoinsViewDB)
    requires UnspentOnly(db.coins)
    ensures StackShows(Database(db), [db.coins])
  {
  }

  lemma PopShows(top: CoinsViewCache, views: Views)
    requires top.Valid() && Agree(top, views)
    ensures |views| > 1 && StackShows(top.base, views[..|views| - 1])
    ensures Objects(top.base) <= Objects(Cached(top))
  {
    hide LayerOk;
    if top.base.Cached? {
      top.BaseValid();
      AgreeBelow(top, views);
    }
  }

  /**
    Any run, from a database without caches: whatever the interleaving of operations and however deep
    the stack gets, every layer ends up showing its plain map, and every coin handed out on the way is
    the one the plain maps hold.
   */
  method Run(db: CoinsViewDB, ops: seq<Op>) returns (stack: View, seen: seq<Option<Coin>>)
    requires UnspentOnly(db.coins) && LegalRun([db.coins], ops)
    modifies db
    ensures StackShows(stack, RunViews([old(db.coins)], ops))
    ensures seen == RunSeen([old(db.coins)], ops)
  {
    hide StackShows, Legal, Next, Seen;
    StartShows(db);
    stack, seen := Database(db), [];
    ghost var views: Views := [db.coins];
    var i := 0;
    while i < |ops|
      invariant 0 <= i <= |ops|
      invariant StackShows(stack, views) && LegalRun(views, ops[i..])
      invariant RunViews([old(db.coins)], ops) == RunViews(views, ops[i..])
      invariant RunSeen([old(db.coins)], ops) == seen + RunSeen(views, ops[i..])
      invariant forall c :: c in Objects(stack) ==> c == db || fresh(c)
    {
      var op := ops[i];
      assert ops[i..][0] == op && ops[i..][1..] == ops[i + 1..];
      var coin;
      stack, coin := Step(stack, views, op);
      views := Next(views, op);
      seen := seen + [coin];
      i := i + 1;
    }
  }

  // ---------- What such a run can be used for ----------

  /** Flushing every layer, the top one first. */
  function FlushAll(depth: nat, layers: nat): (ops: seq<Op>)
    requires depth <= layers
    decreases layers - depth
  {
    if depth == layers then [] else [Flush(depth)] + FlushAll(depth + 1, layers)
  }

  /** Flushing all layers from the top down carries the top's coins into the database and every layer between. */
  lemma {:induction false} FlushAllReachesDatabase(views: Views, depth: nat)
    requires depth <= |views| - 1
    requires forall i :: |views| - 1 - depth <= i < |views| ==> views[i] == Top(views)
    ensures LegalRun(views, FlushAll(depth, |views| - 1))
    ensures RunViews(views, FlushAll(depth, |views| - 1)) == seq(|views|, _ => Top(views))
    decreases |views| - depth
  {
    if depth < |views| - 1 {
      var ops := FlushAll(depth, |views| - 1);
      assert ops[0] == Flush(depth) && ops[1..] == FlushAll(depth + 1, |views| - 1);
      FlushAllReachesDatabase(Next(views, Flush(depth)), depth + 1);
    }
  }

  /** Work confined to the top layer: nothing is written through, and no layer comes or goes. */
  predicate Scratch(op: Op) {
    !op.Sync? && !op.Flush? && !op.Push? && !op.Pop?
  }

  /** Whatever is done in the top layer, dropping it unflushed leaves every layer below as it was. */
  lemma {:induction false} ScratchWorkIsLocal(views: Views, ops: seq<Op>)
    requires LegalRun(views, ops) && |views| > 1
    requires forall i :: 0 <= i < |ops| ==> Scratch(ops[i])
    ensures |RunViews(views, ops)| == |views|
    ensures Next(RunViews(views, ops), Pop) == views[..|views| - 1]
    decreases |ops|
  {
    if ops != [] {
      assert Scratch(ops[0]);
      ScratchWorkIsLocal(Next(views, ops[0]), ops[1..]);
    }
  }

  ghost predicate SpendableOnly(views: Views) {
    forall i, o :: 0 <= i < |views| && o in views[i] ==> !views[i][o].IsUnspendable()
  }

  /** No run ever makes an unspendable coin show up in any layer. */
  lemma {:induction false} UnspendableNeverShown(views: Views, ops: seq<Op>)
    requires LegalRun(views, ops) && SpendableOnly(views)
    ensures SpendableOnly(RunViews(views, ops))
    decreases |ops|
  {
    if ops != [] {
      var next := Next(views, ops[0]);
      forall i, o | 0 <= i < |next| && o in next[i] ensures !next[i][o].IsUnspendable() {
        var top := |views| - 1;
        match ops[0] {
          case Add(p, coin, _) =>
            assert i < top || o != p ==> o in views[i];
          case Spend(p) =>
            assert o in views[i];
          case _ =>
        }
      }
      UnspendableNeverShown(next, ops[1..]);
    }
  }

  // ---------- What FRESH is for ----------

  /** Flushes a FRESH coin down through the layers, as many as asked for. It is FRESH wherever it arrives. */
  method PushDown(top: CoinsViewCache, o: OutPoint, depth: nat) returns (reached: CoinsViewCache)
    requires top.Valid() && depth <= |top.lower|
    requires o in top.cacheCoins && top.cacheCoins[o].isFresh && !top.cacheCoins[o].coin.IsSpent()
    requires forall c :: c in top.lower ==> o !in c.cacheCoins
    modifies Objects(Cached(top))
    ensures top.Valid() && reached.Valid() && reached == (top.lower + [top])[|top.lower| - depth]
    ensures o in reached.cacheCoins && reached.cacheCoins[o].isFresh && reached.cacheCoins[o].coin == old(top.cacheCoins[o].coin)
    ensures top.contents == old(top.contents) && forall c :: c in reached.lower ==> c in top.lower
    decreases depth
  {
    hide LayerOk, CoinsViewCache.ChainValid, TakenOver, EntryOk, FlaggedList.Linked;
    if depth == 0 {
      return top;
    }
    ghost var mine, child := top.lower[|top.lower| - 1].cacheCoins, top.cacheCoins;
    top.FlagsMean(o);
    top.BaseValid();
    top.Flush();
    TakenFresh(mine, child, top.lower[|top.lower| - 1].cacheCoins, o);
    top.BaseValid();
    reached := PushDown(top.base.cache, o, depth - 1);
    top.ValidOverBase();
  }

  lemma TakenFresh(mine: CoinsMap, child: CoinsMap, now: CoinsMap, o: OutPoint)
    requires TakenOver(mine, child, now) && o !in mine && o in child && child[o].isDirty && child[o].isFresh && !child[o].coin.IsSpent()
    ensures o in now && now[o].isFresh && now[o].coin == child[o].coin
  {
  }

  /**
    A coin added above layers and a database that do not know it, flushed down to any of the layers and spent there,
    leaves no entry behind in that layer, so nothing is ever written of it.
   */
  method SpentWithoutTrace(top: CoinsViewCache, o: OutPoint, coin: Coin, depth: nat) returns (reached: CoinsViewCache)
    requires top.Valid() && depth <= |top.lower| && !coin.IsSpent() && !coin.IsUnspendable()
    requires o !in top.contents && o !in top.cacheCoins && forall c :: c in top.lower ==> o !in c.cacheCoins
    modifies Objects(Cached(top))
    ensures reached.Valid() && reached == (top.lower + [top])[|top.lower| - depth] && o !in reached.cacheCoins
  {
    hide LayerOk, CoinsViewCache.ChainValid;
    top.PeekShown(o);
    var threw := top.AddCoin(o, coin, false);
    reached := PushDown(top, o, depth);
    var found, moved := reached.SpendCoin(o);
  }
}
