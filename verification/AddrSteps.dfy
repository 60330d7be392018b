/** The elementary moves between the tables of the address manager, and how each keeps the invariant. */
module AddrSteps {
  import opened AddrTypes

  /** The entries agree on everything the tables depend on. */
  ghost predicate SameCore(a: map<int, AddrInfo>, b: map<int, AddrInfo>) {
    && a.Keys == b.Keys
    && (forall id :: id in a ==>
          a[id].service == b[id].service && a[id].refCount == b[id].refCount && a[id].inTried == b[id].inTried)
  }

  /** Entries changed only in their statistics and random positions. */
  lemma SameCoreTables(e: Env, m: Mem, m': Mem, x: Limbo)
    requires SameCore(m.info, m'.info)
    requires m' == m.(info := m'.info, random := m'.random)
    requires IndexOk(m) && NewOk(e, m) && TriedOk(e, m) && CountsOk(e, m, x.uncounted) && CollisionsOk(e, m, x.holes)
    ensures IndexOk(m') && NewOk(e, m') && TriedOk(e, m') && CountsOk(e, m', x.uncounted) && CollisionsOk(e, m', x.holes)
  {
    CountsSame(e, m, m', x.uncounted);
  }

  lemma CountsSame(e: Env, m: Mem, m': Mem, uncounted: set<int>)
    requires CountsOk(e, m, uncounted)
    requires m.info.Keys == m'.info.Keys
    requires forall id :: id in m.info ==> m.info[id].service == m'.info[id].service && m.info[id].inTried == m'.info[id].inTried
    requires m'.nNew == m.nNew && m'.nTried == m.nTried && m'.counts == m.counts
    ensures CountsOk(e, m', uncounted)
  {
    forall id
      ensures id in NewIds(m', uncounted) <==> id in NewIds(m, uncounted)
      ensures id in TriedIds(m') <==> id in TriedIds(m)
    {
      assert id in m.info.Keys <==> id in m'.info.Keys;
    }
    assert NewIds(m', uncounted) == NewIds(m, uncounted) && TriedIds(m') == TriedIds(m);
    forall n ensures OfNetwork(e, m', NewIds(m', uncounted), n) == OfNetwork(e, m, NewIds(m, uncounted), n)
             ensures OfNetwork(e, m', TriedIds(m'), n) == OfNetwork(e, m, TriedIds(m), n)
    {
    }
    forall n ensures CountOf(m'.counts, n) ==
                     Count(|OfNetwork(e, m', NewIds(m', uncounted), n)|, |OfNetwork(e, m', TriedIds(m'), n)|)
    {
      assert CountOf(m.counts, n) == Count(|OfNetwork(e, m, NewIds(m, uncounted), n)|, |OfNetwork(e, m, TriedIds(m), n)|);
    }
  }

  /** The parts of the invariant that do not look at reference counts, the new table or statistics. */
  lemma RestKeeps(e: Env, m: Mem, m': Mem, x: Limbo)
    requires m' == m.(info := m'.info, newTable := m'.newTable) && m.info.Keys == m'.info.Keys
    requires forall id :: id in m.info ==>
      && m.info[id].service == m'.info[id].service && m.info[id].inTried == m'.info[id].inTried
      && m.info[id].randomPos == m'.info[id].randomPos
    requires IndexOk(m) && RandomOk(m) && TriedOk(e, m) && CountsOk(e, m, x.uncounted) && CollisionsOk(e, m, x.holes)
    ensures IndexOk(m') && RandomOk(m') && TriedOk(e, m') && CountsOk(e, m', x.uncounted) && CollisionsOk(e, m', x.holes)
  {
    hide CountsOk;
    CountsSame(e, m, m', x.uncounted);
    RandomSame(m, m');
  }

  /** Updating the statistics of one entry. */
  lemma TouchKeeps(e: Env, m: Mem, x: Limbo, id: int, info: AddrInfo)
    requires Inv(e, m, x) && id in m.info
    requires info.service == m.info[id].service && info.refCount == m.info[id].refCount
    requires info.inTried == m.info[id].inTried && info.randomPos == m.info[id].randomPos
    requires info.lastTry >= 0 && info.lastSuccess >= 0 && (info.inTried ==> info.lastSuccess > 0)
    ensures Inv(e, m.(info := m.info[id := info]), x)
  {
    hide NewOk, TriedOk, CountsOk, CollisionsOk, IndexOk, RandomOk, RangeOk;
    var m' := m.(info := m.info[id := info]);
    SameCoreTables(e, m, m', x);
    RandomSame(m, m');
    RangeTouched(m, m', x.pending, id);
  }

  lemma RangeTouched(m: Mem, m': Mem, pending: set<int>, id: int)
    requires RangeOk(m, pending) && id in m.info && id in m'.info && m'.info == m.info[id := m'.info[id]]
    requires m'.info[id].refCount == m.info[id].refCount && m'.info[id].inTried == m.info[id].inTried
    requires m'.info[id].lastTry >= 0 && m'.info[id].lastSuccess >= 0 && (m'.info[id].inTried ==> m'.info[id].lastSuccess > 0)
    ensures RangeOk(m', pending)
  {
  }

  /** Two positions of vRandom exchanged. */
  function Swapped(m: Mem, i: int, j: int): Mem
    requires 0 <= i < |m.random| && 0 <= j < |m.random| && m.random[i] in m.info && m.random[j] in m.info
  {
    if i == j then m
    else
      var id1, id2 := m.random[i], m.random[j];
      var info := m.info[id1 := m.info[id1].(randomPos := j)];
      m.(info := info[id2 := info[id2].(randomPos := i)], random := m.random[i := id2][j := id1])
  }

  lemma SwappedRandom(m: Mem, i: int, j: int)
    requires RandomOk(m) && 0 <= i < |m.random| && 0 <= j < |m.random|
    ensures RandomOk(Swapped(m, i, j)) && Swapped(m, i, j).info.Keys == m.info.Keys
    ensures |Swapped(m, i, j).random| == |m.random| && Swapped(m, i, j).random[j] == m.random[i]
  {
    var m' := Swapped(m, i, j);
    if i != j {
      var id1, id2 := m.random[i], m.random[j];
      assert id1 != id2 && m'.info[id1].randomPos == j && m'.info[id2].randomPos == i;
      forall k | 0 <= k < |m'.random| ensures m'.random[k] in m'.info && m'.info[m'.random[k]].randomPos == k {
        if k != i && k != j {
          assert m'.random[k] == m.random[k] && m.random[k] != id1 && m.random[k] != id2;
        }
      }
      forall id | id in m'.info
        ensures 0 <= m'.info[id].randomPos < |m'.random| && m'.random[m'.info[id].randomPos] == id
      {
        if id != id1 && id != id2 {
          assert m'.info[id] == m.info[id];
        }
      }
    }
  }

  /** Entries that differ at most in their position in vRandom. */
  ghost predicate SameButRandom(a: map<int, AddrInfo>, b: map<int, AddrInfo>) {
    a.Keys == b.Keys && forall k :: k in a && k in b ==> a[k] == b[k].(randomPos := a[k].randomPos)
  }

  /** Only positions change. */
  lemma SwappedPlaces(m: Mem, i: int, j: int)
    requires 0 <= i < |m.random| && 0 <= j < |m.random| && m.random[i] in m.info && m.random[j] in m.info
    ensures Swapped(m, i, j) == m.(info := Swapped(m, i, j).info, random := Swapped(m, i, j).random)
    ensures SameButRandom(m.info, Swapped(m, i, j).info)
  {
    if i != j {
      var id1, id2 := m.random[i], m.random[j];
      MovedPlaces(m.info, id1, j);
      var info := m.info[id1 := m.info[id1].(randomPos := j)];
      MovedPlaces(info, id2, i);
      assert Swapped(m, i, j).info == info[id2 := info[id2].(randomPos := i)];
    }
  }

  lemma MovedPlaces(a: map<int, AddrInfo>, id: int, pos: int)
    requires id in a
    ensures SameButRandom(a, a[id := a[id].(randomPos := pos)])
  {
  }

  lemma PlacesCore(a: map<int, AddrInfo>, b: map<int, AddrInfo>)
    requires SameButRandom(a, b)
    ensures SameCore(a, b)
  {
  }

  lemma RangeSame(m: Mem, m': Mem, pending: set<int>)
    requires RangeOk(m, pending) && SameButRandom(m.info, m'.info)
    ensures RangeOk(m', pending)
  {
    forall id | id in m'.info ensures id in m.info {
      assert id in m.info.Keys;
    }
  }

  lemma SwapKeeps(e: Env, m: Mem, x: Limbo, i: int, j: int)
    requires Inv(e, m, x) && 0 <= i < |m.random| && 0 <= j < |m.random| && m.random[i] in m.info && m.random[j] in m.info
    ensures Inv(e, Swapped(m, i, j), x)
  {
    hide NewOk, TriedOk, CountsOk, CollisionsOk, IndexOk, RandomOk, RangeOk, SameCore, SameButRandom, Swapped;
    SwappedPlaces(m, i, j);
    PlacesCore(m.info, Swapped(m, i, j).info);
    SameCoreTables(e, m, Swapped(m, i, j), x);
    SwappedRandom(m, i, j);
    RangeSame(m, Swapped(m, i, j), x.pending);
  }

  // ---------- Counting ----------

  function Bump(counts: map<Network, Count>, n: Network, dNew: int, dTried: int): map<Network, Count> {
    counts[n := Count(CountOf(counts, n).nNew + dNew, CountOf(counts, n).nTried + dTried)]
  }

  function One(b: bool): int {
    if b then 1 else 0
  }

  lemma SetsApartFrom(a: set<int>, b: set<int>, id: int)
    requires forall k :: k != id ==> (k in a <==> k in b)
    ensures |b| - |a| == One(id in b) - One(id in a)
  {
    forall k ensures k in a - {id} <==> k in b - {id} {
      assert k != id ==> (k in a <==> k in b);
    }
    assert a - {id} == b - {id};
    assert |a - {id}| == |a| - One(id in a);
    assert |b - {id}| == |b| - One(id in b);
  }

  /** Apart from `id`, the same entries count as new and as tried. */
  ghost predicate CountedAlike(m: Mem, m': Mem, uncounted: set<int>, uncounted': set<int>, id: int) {
    && (forall k :: k != id ==> (k in m.info <==> k in m'.info))
    && (forall k :: k != id && k in m.info && k in m'.info ==>
          m.info[k].service == m'.info[k].service && m.info[k].inTried == m'.info[k].inTried)
    && (forall k :: k != id ==> (k in uncounted <==> k in uncounted'))
  }

  /** Moving one id between the new entries, the tried entries and nowhere, with the counters following. */
  lemma CountsStep(e: Env, m: Mem, m': Mem, uncounted: set<int>, uncounted': set<int>, id: int, s: Service)
    requires CountsOk(e, m, uncounted) && CountedAlike(m, m', uncounted, uncounted', id)
    requires id in m.info ==> m.info[id].service == s
    requires id in m'.info ==> m'.info[id].service == s
    requires var dNew := One(id in NewIds(m', uncounted')) - One(id in NewIds(m, uncounted));
             var dTried := One(id in TriedIds(m')) - One(id in TriedIds(m));
             && m'.nNew == m.nNew + dNew && m'.nTried == m.nTried + dTried
             && m'.counts == Bump(m.counts, e.network(s.addr), dNew, dTried)
    ensures CountsOk(e, m', uncounted')
  {
    SetsApartFrom(NewIds(m, uncounted), NewIds(m', uncounted'), id);
    SetsApartFrom(TriedIds(m), TriedIds(m'), id);
    forall n ensures CountOf(m'.counts, n) ==
                     Count(|OfNetwork(e, m', NewIds(m', uncounted'), n)|, |OfNetwork(e, m', TriedIds(m'), n)|)
    {
      NetworkCountsStep(e, m, m', uncounted, uncounted', id, s, n);
    }
  }

  lemma NetworkCountsStep(e: Env, m: Mem, m': Mem, uncounted: set<int>, uncounted': set<int>, id: int, s: Service, n: Network)
    requires CountsOk(e, m, uncounted) && CountedAlike(m, m', uncounted, uncounted', id)
    requires id in m.info ==> m.info[id].service == s
    requires id in m'.info ==> m'.info[id].service == s
    requires var dNew := One(id in NewIds(m', uncounted')) - One(id in NewIds(m, uncounted));
             var dTried := One(id in TriedIds(m')) - One(id in TriedIds(m));
             m'.counts == Bump(m.counts, e.network(s.addr), dNew, dTried)
    ensures CountOf(m'.counts, n) ==
            Count(|OfNetwork(e, m', NewIds(m', uncounted'), n)|, |OfNetwork(e, m', TriedIds(m'), n)|)
  {
    assert CountOf(m.counts, n) == Count(|OfNetwork(e, m, NewIds(m, uncounted), n)|, |OfNetwork(e, m, TriedIds(m), n)|);
    SetsApartFrom(OfNetwork(e, m, NewIds(m, uncounted), n), OfNetwork(e, m', NewIds(m', uncounted'), n), id);
    SetsApartFrom(OfNetwork(e, m, TriedIds(m), n), OfNetwork(e, m', TriedIds(m'), n), id);
  }

  // ---------- The new table ----------

  lemma IdsNatural(m: Mem)
    requires IndexOk(m)
    ensures forall id :: id in m.info ==> 0 <= id < m.idCount
  {
  }

  /** An id found in a slot holds that slot's bucket, so it has a reference there. */
  lemma HoldersAre(e: Env, m: Mem, id: int, s: Slot)
    requires NewOk(e, m) && s in m.newTable && m.newTable[s] == id && id != EMPTY
    ensures id in m.info && !m.info[id].inTried && m.info[id].refCount > 0
    ensures InNewTable(s) && s == NewSlot(e, s.bucket, m.info[id].service)
    ensures s.bucket in Holders(e, m.newTable, m.info[id].service, id)
  {
    assert s.bucket in Holders(e, m.newTable, m.info[id].service, id);
  }

  /** Emptying a slot of the new table takes one reference from the id it held. */
  lemma ClearSlotKeeps(e: Env, m: Mem, x: Limbo, s: Slot, id: int, m': Mem)
    requires Inv(e, m, x) && s in m.newTable && m.newTable[s] == id && id != EMPTY && id in m.info
    requires m' == m.(newTable := m.newTable[s := EMPTY],
                      info := m.info[id := m.info[id].(refCount := m.info[id].refCount - 1)])
    ensures Inv(e, m', x.(pending := x.pending + {id}))
    ensures m.info[id].refCount > 0
  {
    hide CountsOk, IndexOk, RandomOk, TriedOk, NewOk, CollisionsOk;
    RestKeeps(e, m, m', x);
    IdsNatural(m);
    HoldersAre(e, m, id, s);
    ClearSlotNewOk(e, m, s, id, m');
  }

  lemma ClearSlotNewOk(e: Env, m: Mem, s: Slot, id: int, m': Mem)
    requires NewOk(e, m) && s in m.newTable && m.newTable[s] == id && id != EMPTY && id in m.info
    requires forall k :: k in m.info ==> 0 <= k
    requires m' == m.(newTable := m.newTable[s := EMPTY],
                      info := m.info[id := m.info[id].(refCount := m.info[id].refCount - 1)])
    ensures NewOk(e, m')
  {
    hide Holders;
    HoldersAre(e, m, id, s);
    forall k | k in m'.info
      ensures m'.info[k].refCount == |Holders(e, m'.newTable, m'.info[k].service, k)|
    {
      assert m'.info[k].service == m.info[k].service;
      HoldersCleared(e, m.newTable, s, m.info[k].service, k);
    }
  }

  /** Emptying a slot takes its bucket from those that hold the address it held. */
  lemma HoldersCleared(e: Env, table: Table, s: Slot, service: Service, k: int)
    requires s in table && k != EMPTY
    ensures Holders(e, table[s := EMPTY], service, k)
         == Holders(e, table, service, k) - if table[s] == k && s == NewSlot(e, s.bucket, service) then {s.bucket} else {}
  {
    hide NewSlot;
  }

  lemma HoldersFilled(e: Env, table: Table, s: Slot, id: int, service: Service, k: int)
    requires s in table && table[s] == EMPTY && k != EMPTY && s.bucket < NEW_BUCKET_COUNT
    requires k == id ==> s == NewSlot(e, s.bucket, service)
    ensures s.bucket in Holders(e, table, service, k) ==> k != id
    ensures Holders(e, table[s := id], service, k)
         == Holders(e, table, service, k) + if k == id then {s.bucket} else {}
  {
    hide NewSlot;
  }

  /** Putting an id into an empty slot that is its own gives it one more reference. */
  lemma FillSlotKeeps(e: Env, m: Mem, x: Limbo, s: Slot, id: int, m': Mem)
    requires Inv(e, m, x) && id in m.info && !m.info[id].inTried && m.info[id].refCount < NEW_BUCKETS_PER_ADDRESS
    requires s in m.newTable && m.newTable[s] == EMPTY && s == NewSlot(e, s.bucket, m.info[id].service)
    requires m' == m.(newTable := m.newTable[s := id],
                      info := m.info[id := m.info[id].(refCount := m.info[id].refCount + 1)])
    ensures Inv(e, m', x.(pending := x.pending - {id}))
    ensures m.info[id].refCount >= 0
  {
    hide CountsOk, IndexOk, RandomOk, TriedOk, NewOk, CollisionsOk;
    RestKeeps(e, m, m', x);
    IdsNatural(m);
    FillSlotNewOk(e, m, s, id, m');
  }

  lemma FillSlotNewOk(e: Env, m: Mem, s: Slot, id: int, m': Mem)
    requires NewOk(e, m) && id in m.info && !m.info[id].inTried && id != EMPTY
    requires s in m.newTable && m.newTable[s] == EMPTY && s == NewSlot(e, s.bucket, m.info[id].service)
    requires forall k :: k in m.info ==> 0 <= k
    requires m' == m.(newTable := m.newTable[s := id],
                      info := m.info[id := m.info[id].(refCount := m.info[id].refCount + 1)])
    ensures NewOk(e, m') && m.info[id].refCount >= 0
  {
    hide Holders;
    forall k | k in m'.info
      ensures m'.info[k].refCount == |Holders(e, m'.newTable, m'.info[k].service, k)|
    {
      assert m'.info[k].service == m.info[k].service;
      HoldersFilled(e, m.newTable, s, id, m.info[k].service, k);
    }
  }

  // ---------- Entries coming and going ----------

  /** A new entry: indexed, listed last, counted as new, but not yet in any slot. */
  function Created(e: Env, m: Mem, info: AddrInfo): Mem {
    m.(info := m.info[m.idCount := info.(refCount := 0, inTried := false, randomPos := |m.random|)],
       addr := m.addr[info.service := m.idCount],
       random := m.random + [m.idCount],
       nNew := m.nNew + 1,
       counts := Bump(m.counts, e.network(info.service.addr), 1, 0),
       idCount := m.idCount + 1)
  }

  lemma CreateKeeps(e: Env, m: Mem, x: Limbo, info: AddrInfo)
    requires Inv(e, m, x) && info.service !in m.addr && info.lastTry >= 0 && info.lastSuccess >= 0
    requires m.idCount !in x.uncounted
    ensures Inv(e, Created(e, m, info), x.(pending := x.pending + {m.idCount}))
  {
    hide CountsOk, NewOk, TriedOk, IndexOk, RandomOk, RangeOk, CollisionsOk, Created;
    NewIsUnknown(m);
    CreateCounts(e, m, x.uncounted, info);
    CreateNewOk(e, m, info);
    CreateTriedOk(e, m, info);
    CreateIndexOk(e, m, info);
    CreateRandomOk(e, m, info);
    CreateRangeOk(e, m, x, info);
  }

  lemma NewIsUnknown(m: Mem)
    requires IndexOk(m)
    ensures m.idCount !in m.info && m.idCount >= 0
  {
  }

  lemma CreateIndexOk(e: Env, m: Mem, info: AddrInfo)
    requires IndexOk(m) && info.service !in m.addr
    ensures IndexOk(Created(e, m, info))
  {
  }

  lemma CreateRandomOk(e: Env, m: Mem, info: AddrInfo)
    requires RandomOk(m) && m.idCount !in m.info
    ensures RandomOk(Created(e, m, info))
  {
  }

  lemma CreateRangeOk(e: Env, m: Mem, x: Limbo, info: AddrInfo)
    requires RangeOk(m, x.pending) && CollisionsOk(e, m, x.holes) && info.lastTry >= 0 && info.lastSuccess >= 0
    ensures RangeOk(Created(e, m, info), x.pending + {m.idCount}) && CollisionsOk(e, Created(e, m, info), x.holes)
  {
  }

  lemma CreateCounts(e: Env, m: Mem, uncounted: set<int>, info: AddrInfo)
    requires CountsOk(e, m, uncounted) && m.idCount !in m.info && m.idCount !in uncounted
    ensures CountsOk(e, Created(e, m, info), uncounted)
  {
    CountsStep(e, m, Created(e, m, info), uncounted, uncounted, m.idCount, info.service);
  }

  lemma CreateNewOk(e: Env, m: Mem, info: AddrInfo)
    requires NewOk(e, m) && m.idCount !in m.info && m.idCount >= 0
    ensures NewOk(e, Created(e, m, info))
  {
    var m', id := Created(e, m, info), m.idCount;
    assert Holders(e, m'.newTable, info.service, id) == {} by {
      forall b: nat | b < NEW_BUCKET_COUNT ensures m.newTable[NewSlot(e, b, info.service)] != id {
      }
    }
  }

  lemma CreateTriedOk(e: Env, m: Mem, info: AddrInfo)
    requires TriedOk(e, m) && m.idCount !in m.info
    ensures TriedOk(e, Created(e, m, info))
  {
  }

  /** Dropping an entry that stands last in vRandom and is in no table. */
  function Deleted(e: Env, m: Mem, id: int): Mem
    requires id in m.info && |m.random| > 0
  {
    m.(info := m.info - {id},
       addr := m.addr - {m.info[id].service},
       random := m.random[..|m.random| - 1],
       nNew := m.nNew - 1,
       counts := Bump(m.counts, e.network(m.info[id].service.addr), -1, 0))
  }

  lemma DeleteKeeps(e: Env, m: Mem, x: Limbo, id: int)
    requires Inv(e, m, x) && id in m.info && !m.info[id].inTried && m.info[id].refCount == 0 && id !in x.uncounted
    requires m.info[id].randomPos == |m.random| - 1
    ensures Inv(e, Deleted(e, m, id), x.(pending := x.pending - {id}))
  {
    hide CountsOk, NewOk, TriedOk;
    var m' := Deleted(e, m, id);
    assert CountsOk(e, m', x.uncounted) by { DeleteCounts(e, m, x.uncounted, id); }
    assert NewOk(e, m') by { DeleteNewOk(e, m, id); }
    assert TriedOk(e, m') by { DeleteTriedOk(e, m, id); }
  }

  lemma DeleteCounts(e: Env, m: Mem, uncounted: set<int>, id: int)
    requires CountsOk(e, m, uncounted) && id in m.info && !m.info[id].inTried && id !in uncounted && |m.random| > 0
    ensures CountsOk(e, Deleted(e, m, id), uncounted)
  {
    CountsStep(e, m, Deleted(e, m, id), uncounted, uncounted, id, m.info[id].service);
  }

  lemma DeleteNewOk(e: Env, m: Mem, id: int)
    requires NewOk(e, m) && id in m.info && m.info[id].refCount == 0 && |m.random| > 0
    ensures NewOk(e, Deleted(e, m, id))
  {
    var m' := Deleted(e, m, id);
    forall s | s in m.newTable && m.newTable[s] != EMPTY ensures m.newTable[s] != id {
      HoldersAre(e, m, m.newTable[s], s);
    }
  }

  lemma DeleteTriedOk(e: Env, m: Mem, id: int)
    requires TriedOk(e, m) && id in m.info && !m.info[id].inTried && |m.random| > 0
    ensures TriedOk(e, Deleted(e, m, id))
  {
  }

  // ---------- Between new and tried ----------

  /** An untried entry that is in no slot leaves the count of new entries. */
  lemma UncountKeeps(e: Env, m: Mem, x: Limbo, id: int, m': Mem)
    requires Inv(e, m, x) && id in m.info && !m.info[id].inTried && id !in x.uncounted
    requires m' == m.(nNew := m.nNew - 1, counts := Bump(m.counts, e.network(m.info[id].service.addr), -1, 0))
    ensures Inv(e, m', x.(uncounted := x.uncounted + {id}))
  {
    hide CountsOk, IndexOk, RandomOk, TriedOk, NewOk, CollisionsOk;
    UnrelatedKeeps(e, m, m', x);
    CountsStep(e, m, m', x.uncounted, x.uncounted + {id}, id, m.info[id].service);
  }

  lemma RecountKeeps(e: Env, m: Mem, x: Limbo, id: int, m': Mem)
    requires Inv(e, m, x) && id in m.info && !m.info[id].inTried && id in x.uncounted
    requires m' == m.(nNew := m.nNew + 1, counts := Bump(m.counts, e.network(m.info[id].service.addr), 1, 0))
    ensures Inv(e, m', x.(uncounted := x.uncounted - {id}))
  {
    hide CountsOk, IndexOk, RandomOk, TriedOk, NewOk, CollisionsOk;
    UnrelatedKeeps(e, m, m', x);
    CountsStep(e, m, m', x.uncounted, x.uncounted - {id}, id, m.info[id].service);
  }

  lemma UnrelatedKeeps(e: Env, m: Mem, m': Mem, x: Limbo)
    requires m' == m.(nNew := m'.nNew, counts := m'.counts)
    requires IndexOk(m) && RandomOk(m) && NewOk(e, m) && TriedOk(e, m) && CollisionsOk(e, m, x.holes)
    ensures IndexOk(m') && RandomOk(m') && NewOk(e, m') && TriedOk(e, m') && CollisionsOk(e, m', x.holes)
  {
  }

  /** Taking an entry out of its tried slot: for the moment it is nowhere. */
  lemma EvictKeeps(e: Env, m: Mem, x: Limbo, id: int, m': Mem)
    requires Inv(e, m, x) && id in m.info && m.info[id].inTried
    requires var s := TriedSlot(e, m.info[id].service);
             m' == m.(info := m.info[id := m.info[id].(inTried := false)], triedTable := m.triedTable[s := EMPTY],
                      nTried := m.nTried - 1, counts := Bump(m.counts, e.network(m.info[id].service.addr), 0, -1))
    ensures Inv(e, m', Limbo(x.pending + {id}, x.uncounted + {id}, x.holes + {TriedSlot(e, m.info[id].service)}))
    ensures m'.info[id].refCount == 0
  {
    hide CountsOk, NewOk, TriedOk, RandomOk;
    var s := m.info[id].service;
    assert CountsOk(e, m', x.uncounted + {id}) by { CountsStep(e, m, m', x.uncounted, x.uncounted + {id}, id, s); }
    EvictNewOk(e, m, id, m');
    assert TriedOk(e, m') by { EvictTriedOk(e, m, id, m'); }
    assert RandomOk(m') by { RandomSame(m, m'); }
  }

  lemma RandomSame(m: Mem, m': Mem)
    requires RandomOk(m) && m.random == m'.random && m.info.Keys == m'.info.Keys
    requires forall id :: id in m.info ==> m.info[id].randomPos == m'.info[id].randomPos
    ensures RandomOk(m')
  {
    forall i | 0 <= i < |m.random| ensures m.random[i] in m'.info && m'.info[m.random[i]].randomPos == i {
      var id := m.random[i];
      assert id in m.info && m.info[id].randomPos == i && id in m.info.Keys;
    }
  }

  lemma EvictNewOk(e: Env, m: Mem, id: int, m': Mem)
    requires NewOk(e, m) && id in m.info && m.info[id].inTried
    requires m'.info == m.info[id := m.info[id].(inTried := false)] && m'.newTable == m.newTable && id != EMPTY
    ensures NewOk(e, m') && m.info[id].refCount == 0
  {
    assert Holders(e, m.newTable, m.info[id].service, id) == {};
  }

  lemma EvictTriedOk(e: Env, m: Mem, id: int, m': Mem)
    requires TriedOk(e, m) && id in m.info && m.info[id].inTried
    requires m'.info == m.info[id := m.info[id].(inTried := false)]
    requires m'.triedTable == m.triedTable[TriedSlot(e, m.info[id].service) := EMPTY]
    ensures TriedOk(e, m')
  {
  }

  /** Putting an entry that is nowhere into its empty tried slot. */
  lemma SettleKeeps(e: Env, m: Mem, x: Limbo, id: int, m': Mem)
    requires Inv(e, m, x) && id in m.info && !m.info[id].inTried && m.info[id].refCount == 0
    requires id in x.uncounted && m.info[id].lastSuccess > 0
    requires m.triedTable[TriedSlot(e, m.info[id].service)] == EMPTY
    requires var s := TriedSlot(e, m.info[id].service);
             m' == m.(info := m.info[id := m.info[id].(inTried := true)], triedTable := m.triedTable[s := id],
                      nTried := m.nTried + 1, counts := Bump(m.counts, e.network(m.info[id].service.addr), 0, 1))
    ensures Inv(e, m', Limbo(x.pending - {id}, x.uncounted - {id}, x.holes - {TriedSlot(e, m.info[id].service)}))
  {
    hide CountsOk, NewOk, TriedOk, RandomOk;
    var s := m.info[id].service;
    assert CountsOk(e, m', x.uncounted - {id}) by { CountsStep(e, m, m', x.uncounted, x.uncounted - {id}, id, s); }
    assert NewOk(e, m') by { SettleNewOk(e, m, id, m'); }
    assert TriedOk(e, m') by { SettleTriedOk(e, m, id, m'); }
    assert RandomOk(m') by { RandomSame(m, m'); }
  }

  lemma SettleNewOk(e: Env, m: Mem, id: int, m': Mem)
    requires NewOk(e, m) && id in m.info && m.info[id].refCount == 0
    requires m'.info == m.info[id := m.info[id].(inTried := true)] && m'.newTable == m.newTable
    ensures NewOk(e, m')
  {
    forall s | s in m.newTable && m.newTable[s] != EMPTY ensures m.newTable[s] != id {
      HoldersAre(e, m, m.newTable[s], s);
    }
  }

  lemma SettleTriedOk(e: Env, m: Mem, id: int, m': Mem)
    requires TriedOk(e, m) && id in m.info && !m.info[id].inTried
    requires forall k :: k in m.info ==> 0 <= k
    requires m.triedTable[TriedSlot(e, m.info[id].service)] == EMPTY
    requires m'.info == m.info[id := m.info[id].(inTried := true)]
    requires m'.triedTable == m.triedTable[TriedSlot(e, m.info[id].service) := id]
    ensures TriedOk(e, m')
  {
  }
}
