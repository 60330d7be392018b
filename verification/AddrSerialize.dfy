/** The address manager on disk: writing the tables, and rebuilding them from what was written. */
module AddrSerialize {
  import opened Collections
  import opened AddrTypes
  import opened AddrSteps
  import opened AddrCheck
  import AddrMan

  /** The fields of an entry that are written. */
  datatype Disk = Disk(
    service: Service,
    time: int,
    services: set<nat>,
    source: NetAddr,
    lastSuccess: int,
    attempts: int)

  /** The file: new entries, tried entries, and for each bucket of the new table the indexes of its entries. */
  datatype File = File(
    key: nat,
    news: seq<Disk>,
    trieds: seq<Disk>,
    buckets: seq<seq<int>>,
    asmapVersion: nat)

  function ToDisk(info: AddrInfo): Disk {
    Disk(info.service, info.time, info.services, info.source, info.lastSuccess, info.attempts)
  }

  /** An entry as read from disk: what is only kept in memory starts from zero. */
  function FromDisk(d: Disk): AddrInfo {
    AddrInfo(d.service, d.time, d.services, d.source, 0, 0, d.lastSuccess, d.attempts, 0, false, -1)
  }

  // ---------- What a file says ----------

  /** The sequence lists the elements of the set, each once. */
  ghost predicate Lists<T(!new)>(s: seq<T>, elements: set<T>) {
    Distinct(s) && forall x :: x in s <==> x in elements
  }

  lemma ListSize<T(!new)>(s: seq<T>, elements: set<T>)
    requires Lists(s, elements)
    ensures |s| == |elements|
  {
    ElementsCount(s);
    assert Elements(s) == elements;
  }

  /** The occupied slots of a bucket at positions below p, in order. */
  ghost function RowSlots(table: Table, bucket: nat, p: nat): (r: seq<Slot>)
    ensures forall j :: 0 <= j < |r| ==>
      r[j].bucket == bucket && r[j].pos < p && r[j] in table && table[r[j]] != EMPTY
  {
    if p == 0 then []
    else
      var s := Slot(bucket, p - 1);
      if s in table && table[s] != EMPTY then RowSlots(table, bucket, p - 1) + [s] else RowSlots(table, bucket, p - 1)
  }

  /** The row gives for each of the slots the index of its entry among the new ones. */
  ghost predicate Row(table: Table, news: seq<int>, slots: seq<Slot>, row: seq<int>) {
    && |row| == |slots|
    && forall j :: 0 <= j < |row| ==> slots[j] in table && 0 <= row[j] < |news| && news[row[j]] == table[slots[j]]
  }

  /** The file describes the address manager; news and trieds are the ids in the order they were written. */
  ghost predicate Wrote(e: Env, m: Mem, news: seq<int>, trieds: seq<int>, file: File) {
    && file.key == e.key && file.asmapVersion == e.asmapVersion
    && Lists(news, NewIds(m, {})) && Lists(trieds, TriedIds(m))
    && |file.news| == |news|
    && (forall i :: 0 <= i < |news| ==> news[i] in m.info && file.news[i] == ToDisk(m.info[news[i]]))
    && |file.trieds| == |trieds|
    && (forall i :: 0 <= i < |trieds| ==> trieds[i] in m.info && file.trieds[i] == ToDisk(m.info[trieds[i]]))
    && |file.buckets| == NEW_BUCKET_COUNT
    && (forall b: nat :: b < NEW_BUCKET_COUNT ==> Row(m.newTable, news, RowSlots(m.newTable, b, BUCKET_SIZE), file.buckets[b]))
  }

  // ---------- Writing ----------

  /** The ids of a list that are tried, or that are not. */
  ghost function Pick(m: Mem, ids: seq<int>, tried: bool): (r: seq<int>)
    requires forall i :: 0 <= i < |ids| ==> ids[i] in m.info
    ensures forall i :: 0 <= i < |r| ==> r[i] in m.info && m.info[r[i]].inTried == tried
    ensures |r| <= |ids|
  {
    if ids == [] then []
    else
      var n := |ids| - 1;
      if m.info[ids[n]].inTried == tried then Pick(m, ids[..n], tried) + [ids[n]] else Pick(m, ids[..n], tried)
  }

  lemma {:induction false} PickHas(m: Mem, ids: seq<int>, tried: bool, x: int)
    requires forall i :: 0 <= i < |ids| ==> ids[i] in m.info
    ensures x in Pick(m, ids, tried) <==> x in ids && x in m.info && m.info[x].inTried == tried
  {
    if ids != [] {
      var n := |ids| - 1;
      PickHas(m, ids[..n], tried, x);
      assert ids == ids[..n] + [ids[n]];
    }
  }

  lemma {:induction false} PickDistinct(m: Mem, ids: seq<int>, tried: bool)
    requires forall i :: 0 <= i < |ids| ==> ids[i] in m.info
    requires forall i, j :: 0 <= i < j < |ids| ==> ids[i] != ids[j]
    ensures var r := Pick(m, ids, tried); forall i, j :: 0 <= i < j < |r| ==> r[i] != r[j]
  {
    if ids != [] {
      var n := |ids| - 1;
      PickDistinct(m, ids[..n], tried);
      PickHas(m, ids[..n], tried, ids[n]);
      assert ids[n] !in ids[..n];
    }
  }

  lemma PickLists(m: Mem, order: seq<int>)
    requires Lists(order, m.info.Keys)
    ensures forall i :: 0 <= i < |order| ==> order[i] in m.info
    ensures Lists(Pick(m, order, false), NewIds(m, {})) && Lists(Pick(m, order, true), TriedIds(m))
  {
    assert forall i :: 0 <= i < |order| ==> order[i] in order;
    PickDistinct(m, order, false);
    PickDistinct(m, order, true);
    forall x ensures x in Pick(m, order, false) <==> x in NewIds(m, {}) {
      PickHas(m, order, false, x);
    }
    forall x ensures x in Pick(m, order, true) <==> x in TriedIds(m) {
      PickHas(m, order, true, x);
    }
  }

  lemma PickNext(m: Mem, order: seq<int>, tried: bool, i: nat)
    requires (forall i :: 0 <= i < |order| ==> order[i] in m.info) && i < |order|
    ensures Pick(m, order[..i + 1], tried)
         == Pick(m, order[..i], tried) + if m.info[order[i]].inTried == tried then [order[i]] else []
    ensures |Pick(m, order[..i + 1], tried)| <= |Pick(m, order, tried)|
  {
    assert order[..i + 1][..i] == order[..i];
    PickPrefix(m, order, tried, i + 1);
  }

  lemma {:induction false} PickPrefix(m: Mem, ids: seq<int>, tried: bool, i: nat)
    requires (forall i :: 0 <= i < |ids| ==> ids[i] in m.info) && i <= |ids|
    ensures |Pick(m, ids[..i], tried)| <= |Pick(m, ids, tried)|
    decreases |ids|
  {
    if i < |ids| {
      var n := |ids| - 1;
      PickPrefix(m, ids[..n], tried, i);
      assert ids[..n][..i] == ids[..i];
    } else {
      assert ids[..i] == ids;
    }
  }

  /** In a settled state, exactly the entries that are not tried have references. */
  lemma Referenced(e: Env, m: Mem, id: int)
    requires Inv(e, m, Settled) && id in m.info
    ensures m.info[id].refCount != 0 <==> !m.info[id].inTried
  {
    IdsNatural(m);
    if m.info[id].inTried {
      NotHeld(e, m, id);
    }
  }

  /** Writes the entries that are tried, or that are not, numbering them in the order of writing. */
  method WriteEntries(e: Env, m: Mem, order: seq<int>, tried: bool)
    returns (written: seq<Disk>, index: map<int, int>, ghost ids: seq<int>)
    requires Inv(e, m, Settled) && Lists(order, m.info.Keys)
    ensures |written| == |ids| && forall j :: 0 <= j < |ids| ==> ids[j] in m.info && written[j] == ToDisk(m.info[ids[j]])
    ensures Lists(ids, if tried then TriedIds(m) else NewIds(m, {}))
    ensures forall j :: 0 <= j < |ids| ==> ids[j] in index && index[ids[j]] == j
  {
    hide Inv, Lists, Pick;
    PickLists(m, order);
    PickTotal(e, m, order, tried);
    ids := Pick(m, order[..0], tried);
    PickNone(m, order, tried);
    written, index := [], map[];
    var i := 0;
    while i < |order|
      invariant 0 <= i <= |order| && ids == Pick(m, order[..i], tried) && |written| == |ids|
      invariant forall j :: 0 <= j < |ids| ==> written[j] == ToDisk(m.info[ids[j]])
      invariant forall j :: 0 <= j < |ids| ==> ids[j] in index && index[ids[j]] == j
    {
      PickNext(m, order, tried, i);
      PickFresh(m, order, tried, i);
      Referenced(e, m, order[i]);
      ids := Pick(m, order[..i + 1], tried);
      index := index[order[i] := |written|];
      if (if tried then m.info[order[i]].inTried else m.info[order[i]].refCount != 0) {
        assert |written| != if tried then m.nTried else m.nNew;
        written := written + [ToDisk(m.info[order[i]])];
      }
      i := i + 1;
    }
    assert order[..i] == order;
  }

  lemma PickNone(m: Mem, order: seq<int>, tried: bool)
    ensures Pick(m, order[..0], tried) == []
  {}

  lemma PickFresh(m: Mem, order: seq<int>, tried: bool, i: nat)
    requires Lists(order, m.info.Keys) && i < |order| && forall i :: 0 <= i < |order| ==> order[i] in m.info
    ensures order[i] !in Pick(m, order[..i], tried)
  {
    PickHas(m, order[..i], tried, order[i]);
  }

  /** As many as the counts say. */
  lemma PickTotal(e: Env, m: Mem, order: seq<int>, tried: bool)
    requires Inv(e, m, Settled) && Lists(order, m.info.Keys) && forall i :: 0 <= i < |order| ==> order[i] in m.info
    ensures |Pick(m, order, tried)| == if tried then m.nTried else m.nNew
  {
    PickLists(m, order);
    if tried {
      ListSize(Pick(m, order, true), TriedIds(m));
    } else {
      ListSize(Pick(m, order, false), NewIds(m, {}));
    }
  }

  /** Writes one bucket of the new table. */
  method WriteRow(e: Env, m: Mem, bucket: nat, index: map<int, int>, ghost news: seq<int>) returns (row: seq<int>)
    requires Inv(e, m, Settled) && bucket < NEW_BUCKET_COUNT && Lists(news, NewIds(m, {}))
    requires forall j :: 0 <= j < |news| ==> news[j] in index && index[news[j]] == j
    ensures Row(m.newTable, news, RowSlots(m.newTable, bucket, BUCKET_SIZE), row)
  {
    hide Inv, RowSlots;
    row := [];
    RowNone(m.newTable, bucket);
    var i := 0;
    while i < BUCKET_SIZE
      invariant 0 <= i <= BUCKET_SIZE && Row(m.newTable, news, RowSlots(m.newTable, bucket, i), row)
    {
      var s := Slot(bucket, i);
      RowNext(e, m, bucket, i, news);
      if m.newTable[s] != EMPTY {
        row := row + [index[m.newTable[s]]];
      }
      i := i + 1;
    }
  }

  lemma RowNone(table: Table, bucket: nat)
    ensures RowSlots(table, bucket, 0) == []
  {}

  lemma RowNext(e: Env, m: Mem, bucket: nat, i: nat, news: seq<int>)
    requires Inv(e, m, Settled) && bucket < NEW_BUCKET_COUNT && i < BUCKET_SIZE && Lists(news, NewIds(m, {}))
    ensures var s := Slot(bucket, i);
            && s in m.newTable && (m.newTable[s] != EMPTY ==> m.newTable[s] in news)
            && RowSlots(m.newTable, bucket, i + 1)
               == RowSlots(m.newTable, bucket, i) + if m.newTable[s] != EMPTY then [s] else []
  {
    assert InNewTable(Slot(bucket, i));
  }

  /** Writes the file. The order in which the entries are visited is arbitrary, but the same each time. */
  method Serialize(e: Env, m: Mem, order: seq<int>) returns (file: File, ghost news: seq<int>, ghost trieds: seq<int>)
    requires Inv(e, m, Settled) && Lists(order, m.info.Keys)
    ensures Wrote(e, m, news, trieds, file)
  {
    hide Inv, Lists, RowSlots, Row;
    var writtenNew, index, writtenTried, unused;
    writtenNew, index, news := WriteEntries(e, m, order, false);
    writtenTried, unused, trieds := WriteEntries(e, m, order, true);
    var buckets := [];
    while |buckets| < NEW_BUCKET_COUNT
      invariant |buckets| <= NEW_BUCKET_COUNT
      invariant forall b: nat :: b < |buckets| ==> Row(m.newTable, news, RowSlots(m.newTable, b, BUCKET_SIZE), buckets[b])
    {
      var row := WriteRow(e, m, |buckets|, index, news);
      buckets := buckets + [row];
    }
    file := File(e.key, writtenNew, writtenTried, buckets, e.asmapVersion);
  }

  // ---------- Reading entries ----------

  function EmptyMem(): Mem {
    Mem(map[], map[], [],
        map b: nat, p: nat | b < NEW_BUCKET_COUNT && p < BUCKET_SIZE :: Slot(b, p) := EMPTY,
        map b: nat, p: nat | b < TRIED_BUCKET_COUNT && p < BUCKET_SIZE :: Slot(b, p) := EMPTY,
        0, 0, map[], 0, {})
  }

  lemma EmptyMemInv(e: Env)
    ensures Inv(e, EmptyMem(), Settled)
    ensures forall s :: s in EmptyMem().newTable <==> InNewTable(s)
    ensures forall s :: s in EmptyMem().triedTable <==> InTriedTable(s)
    ensures forall s :: InNewTable(s) ==> EmptyMem().newTable[s] == EMPTY
    ensures forall s :: InTriedTable(s) ==> EmptyMem().triedTable[s] == EMPTY
  {
    forall s ensures s in EmptyMem().newTable <==> InNewTable(s) {
      assert s == Slot(s.bucket, s.pos);
    }
    forall s ensures s in EmptyMem().triedTable <==> InTriedTable(s) {
      assert s == Slot(s.bucket, s.pos);
    }
    AddrMan.EmptyInv(e, EmptyMem());
  }

  /** Ids are given out from zero in the order of vRandom, and the tables have all their slots. */
  ghost predicate Numbered(m: Mem) {
    && (forall k :: k in m.info <==> 0 <= k < m.idCount) && |m.random| == m.idCount
    && (forall i :: 0 <= i < m.idCount ==> m.random[i] == i && m.info[i].randomPos == i)
    && (forall s :: s in m.newTable <==> InNewTable(s)) && (forall s :: s in m.triedTable <==> InTriedTable(s))
  }

  /**
   * What every state that is built from a file has, whatever the file holds: the index leads to entries with those
   * addresses, ids are below the counter, every network met has a count, and there are no collisions.
   */
  ghost predicate Closed(e: Env, m: Mem) {
    && (forall s :: s in m.addr ==> m.addr[s] in m.info && m.info[m.addr[s]].service == s)
    && (forall id :: id in m.info ==> 0 <= id < m.idCount && NetworkOf(e, m, id) in m.counts)
    && 0 <= m.idCount && m.collisions == {}
  }

  lemma CreatedClosed(e: Env, m: Mem, info: AddrInfo)
    requires Closed(e, m)
    ensures Closed(e, Created(e, m, info))
  {
  }

  lemma AddTriedClosed(e: Env, m: Mem, info: AddrInfo)
    requires Closed(e, m)
    ensures Closed(e, AddTried(e, m, info))
  {
  }

  lemma FilledClosed(e: Env, m: Mem, s: Slot, id: int)
    requires Closed(e, m) && id in m.info
    ensures Closed(e, Filled(m, s, id))
  {
  }

  lemma SwappedClosed(e: Env, m: Mem, i: int, j: int)
    requires Closed(e, m) && 0 <= i < |m.random| && 0 <= j < |m.random| && m.random[i] in m.info && m.random[j] in m.info
    ensures Closed(e, Swapped(m, i, j))
  {
    hide Swapped;
    SwappedPlaces(m, i, j);
    var m' := Swapped(m, i, j);
    forall id | id in m'.info ensures id in m.info && m'.info[id].service == m.info[id].service {
      assert id in m.info.Keys;
    }
    forall id | id in m.info ensures id in m'.info {
      assert id in m'.info.Keys;
    }
  }

  lemma DeletedClosed(e: Env, m: Mem, id: int)
    requires Closed(e, m) && id in m.info && |m.random| > 0
    ensures Closed(e, Deleted(e, m, id))
  {
  }

  /** With that, the check establishes the whole invariant. */
  lemma ConsistentIsInv(e: Env, m: Mem)
    requires Consistent(e, m) && Closed(e, m)
    ensures Inv(e, m, Settled)
  {
    hide RandomOk, NewOk, TriedOk, RangeOk;
    forall n ensures CountOf(m.counts, n) == Count(|OfNetwork(e, m, NewIds(m, {}), n)|, |OfNetwork(e, m, TriedIds(m), n)|) {
      if n !in m.counts {
        assert OfNetwork(e, m, NewIds(m, {}), n) == {} && OfNetwork(e, m, TriedIds(m), n) == {};
      }
    }
  }

  /** The entry b holds what was written of a. */
  ghost predicate SameEntry(a: AddrInfo, b: AddrInfo) {
    && a.service == b.service && a.time == b.time && a.services == b.services && a.source == b.source
    && a.lastSuccess == b.lastSuccess && a.attempts == b.attempts && a.inTried == b.inTried
    && b.lastTry == 0 && b.lastCountAttempt == 0
  }

  /** The entries of m are those of m0 that were written, in this order. */
  ghost predicate Copies(m0: Mem, ids: seq<int>, m: Mem) {
    && m.idCount <= |ids|
    && forall k :: 0 <= k < m.idCount ==> k in m.info && ids[k] in m0.info && SameEntry(m0.info[ids[k]], m.info[k])
  }

  ghost predicate AllValid(e: Env, m: Mem) {
    forall id :: id in m.info ==> e.isValid(m.info[id].service.addr)
  }

  /** The file was written from a settled state in which all addresses are valid. */
  ghost predicate Faithful(e: Env, m0: Mem, news: seq<int>, trieds: seq<int>, file: File) {
    Inv(e, m0, Settled) && AllValid(e, m0) && Wrote(e, m0, news, trieds, file)
  }

  /** The address of the next entry is not yet known. */
  lemma NotYetKnown(m0: Mem, ids: seq<int>, m: Mem, k: nat)
    requires IndexOk(m0) && IndexOk(m) && Copies(m0, ids, m) && m.idCount == k < |ids| && ids[k] in m0.info
    requires forall i, j :: 0 <= i < j < |ids| ==> ids[i] != ids[j]
    ensures m0.info[ids[k]].service !in m.addr
  {
    var s := m0.info[ids[k]].service;
    if s in m.addr {
      CopyKnows(m0, ids, m, m.addr[s]);
    }
  }

  lemma CopyKnows(m0: Mem, ids: seq<int>, m: Mem, j: int)
    requires IndexOk(m0) && Copies(m0, ids, m) && j in m.info && 0 <= j < m.idCount
    ensures m.info[j].service in m0.addr && m0.addr[m.info[j].service] == ids[j]
  {}

  /** Reads the entries of the new table. None of them has a slot yet. */
  method LoadNew(e: Env, file: File, ghost m0: Mem, ghost news: seq<int>, ghost trieds: seq<int>)
    returns (m: Mem, ghost pending: set<int>)
    ensures Numbered(m) && m.idCount == m.nNew == |file.news| && m.nTried == 0
    ensures m.newTable == EmptyMem().newTable && m.triedTable == EmptyMem().triedTable && Closed(e, m) && FromFile(e, file, m)
    ensures Faithful(e, m0, news, trieds, file) ==>
              && Copies(m0, news + trieds, m) && Inv(e, m, Limbo(pending, {}, {})) && (forall k :: k in pending ==> 0 <= k < |news|)
  {
    hide Inv, Lists, Wrote, EmptyMem, Numbered, Copies, Created, Faithful, Closed, FromFile;
    m, pending := EmptyMem(), {};
    EmptyMemInv(e);
    EmptyNumbered();
    EmptyClosed(e);
    NothingCopied(m0, news + trieds, m);
    assert FromFile(e, file, m) by { NothingFromFile(e, file, m); }
    ghost var fine := Faithful(e, m0, news, trieds, file);
    var n := 0;
    while n < |file.news|
      invariant 0 <= n <= |file.news| && Numbered(m) && m.idCount == m.nNew == n && m.nTried == 0
      invariant m.newTable == EmptyMem().newTable && m.triedTable == EmptyMem().triedTable && Closed(e, m) && FromFile(e, file, m)
      invariant fine ==> Copies(m0, news + trieds, m) && Inv(e, m, Limbo(pending, {}, {}))
      invariant forall k :: k in pending ==> 0 <= k < n
    {
      var info := FromDisk(file.news[n]);
      if fine {
        NewIsNext(e, m0, news, trieds, file, m, n, pending);
      }
      CreatedNumbered(e, m, info);
      CreatedClosed(e, m, info);
      CreatedFromFile(e, file, m);
      m := Created(e, m, info);
      pending := pending + {n};
      n := n + 1;
    }
    if fine {
      WroteSizes(e, m0, news, trieds, file);
    }
  }

  lemma NothingFromFile(e: Env, file: File, m: Mem)
    requires m.info == map[]
    ensures FromFile(e, file, m)
  {}

  lemma NothingCopied(m0: Mem, ids: seq<int>, m: Mem)
    requires m.idCount == 0
    ensures Copies(m0, ids, m)
  {}

  lemma CreatedNumbered(e: Env, m: Mem, info: AddrInfo)
    requires Numbered(m)
    ensures var m' := Created(e, m, info);
            && Numbered(m') && m'.idCount == m.idCount + 1 && m'.nNew == m.nNew + 1 && m'.nTried == m.nTried
            && m'.newTable == m.newTable && m'.triedTable == m.triedTable && m'.collisions == m.collisions
  {}

  lemma EmptyClosed(e: Env)
    ensures Closed(e, EmptyMem())
  {
    hide EmptyMem;
    EmptyMemInv(e);
    EmptyNumbered();
  }

  lemma EmptyNumbered()
    ensures var m := EmptyMem(); Numbered(m) && m.idCount == m.nNew == m.nTried == 0 && m.collisions == {} && m.info == map[]
  {
    EmptyMemInv(Env(0, _ => 0, _ => [], _ => [], _ => 0, _ => 0, _ => true, _ => true, 0));
  }

  lemma WroteSizes(e: Env, m0: Mem, news: seq<int>, trieds: seq<int>, file: File)
    requires Faithful(e, m0, news, trieds, file)
    ensures |file.news| == |news| && |file.trieds| == |trieds|
  {}

  /** The ids written are all different. */
  lemma AllDistinct(m0: Mem, news: seq<int>, trieds: seq<int>)
    requires Lists(news, NewIds(m0, {})) && Lists(trieds, TriedIds(m0))
    ensures var all := news + trieds; forall i, j :: 0 <= i < j < |all| ==> all[i] != all[j]
    ensures forall i :: 0 <= i < |news| ==> news[i] in m0.info && !m0.info[news[i]].inTried
    ensures forall i :: 0 <= i < |trieds| ==> trieds[i] in m0.info && m0.info[trieds[i]].inTried
  {
    assert forall i :: 0 <= i < |news| ==> news[i] in news;
    assert forall i :: 0 <= i < |trieds| ==> trieds[i] in trieds;
  }

  lemma NewIsNext(e: Env, m0: Mem, news: seq<int>, trieds: seq<int>, file: File, m: Mem, n: nat, pending: set<int>)
    requires Faithful(e, m0, news, trieds, file) && n < |file.news|
    requires Copies(m0, news + trieds, m) && Inv(e, m, Limbo(pending, {}, {})) && m.idCount == n
    ensures var m' := Created(e, m, FromDisk(file.news[n]));
            Copies(m0, news + trieds, m') && Inv(e, m', Limbo(pending + {n}, {}, {}))
  {
    hide RandomOk, NewOk, TriedOk, CountsOk, CollisionsOk, Row;
    var all := news + trieds;
    var info := FromDisk(file.news[n]);
    AllDistinct(m0, news, trieds);
    assert all[n] == news[n];
    NotYetKnown(m0, all, m, n);
    assert m0.info[news[n]].lastSuccess >= 0;
    CreateKeeps(e, m, Limbo(pending, {}, {}), info);
  }

  /** A tried entry gets the next id and its one slot. */
  function AddTried(e: Env, m: Mem, info: AddrInfo): Mem {
    m.(info := m.info[m.idCount := info.(refCount := 0, inTried := true, randomPos := |m.random|)],
       addr := m.addr[info.service := m.idCount],
       random := m.random + [m.idCount],
       triedTable := m.triedTable[TriedSlot(e, info.service) := m.idCount],
       nTried := m.nTried + 1,
       counts := Bump(m.counts, e.network(info.service.addr), 0, 1),
       idCount := m.idCount + 1)
  }

  lemma AddTriedKeeps(e: Env, m: Mem, pending: set<int>, info: AddrInfo)
    requires Inv(e, m, Limbo(pending, {}, {})) && info.service !in m.addr && info.lastTry >= 0 && info.lastSuccess > 0
    requires TriedSlot(e, info.service) in m.triedTable && m.triedTable[TriedSlot(e, info.service)] == EMPTY
    requires m.idCount !in pending
    ensures Inv(e, AddTried(e, m, info), Limbo(pending, {}, {}))
  {
    hide IndexOk, RandomOk, NewOk, TriedOk, CountsOk, RangeOk, CollisionsOk, Bump;
    var id, n := m.idCount, e.network(info.service.addr);
    var x := Limbo(pending, {}, {});
    var m1 := Created(e, m, info);
    CreateKeeps(e, m, x, info);
    var x1 := Limbo(pending + {id}, {}, {});
    var m2 := m1.(nNew := m1.nNew - 1, counts := Bump(m1.counts, n, -1, 0));
    UncountKeeps(e, m1, x1, id, m2);
    var x2 := Limbo(pending + {id}, {id}, {});
    assert x2 == x1.(uncounted := x1.uncounted + {id});
    var m3 := m2.(info := m2.info[id := m2.info[id].(inTried := true)],
                  triedTable := m2.triedTable[TriedSlot(e, info.service) := id],
                  nTried := m2.nTried + 1, counts := Bump(m2.counts, n, 0, 1));
    SettleKeeps(e, m2, x2, id, m3);
    Bumps(m.counts, n);
    assert m3 == AddTried(e, m, info);
    assert Limbo(x2.pending - {id}, x2.uncounted - {id}, x2.holes - {TriedSlot(e, info.service)}) == x;
  }

  lemma Bumps(counts: map<Network, Count>, n: Network)
    ensures Bump(Bump(Bump(counts, n, 1, 0), n, -1, 0), n, 0, 1) == Bump(counts, n, 0, 1)
  {}

  /** The tried table holds copies of what it held. */
  ghost predicate TriedCopied(m0: Mem, ids: seq<int>, m: Mem) {
    forall s :: s in m.triedTable && m.triedTable[s] != EMPTY ==>
      && 0 <= m.triedTable[s] < m.idCount <= |ids| && s in m0.triedTable && ids[m.triedTable[s]] == m0.triedTable[s]
  }

  /** Reads the entries of the tried table. Invalid addresses, and those whose slot is taken, are lost. */
  method LoadTried(e: Env, file: File, start: Mem, ghost pending: set<int>,
                   ghost m0: Mem, ghost news: seq<int>, ghost trieds: seq<int>) returns (m: Mem)
    requires Numbered(start) && start.idCount == start.nNew == |file.news| && start.nTried == 0
    requires Closed(e, start) && FromFile(e, file, start)
    requires start.newTable == EmptyMem().newTable && start.triedTable == EmptyMem().triedTable
    requires Faithful(e, m0, news, trieds, file) ==>
               && Copies(m0, news + trieds, start) && Inv(e, start, Limbo(pending, {}, {}))
               && forall k :: k in pending ==> 0 <= k < |news|
    ensures Numbered(m) && m.nNew == |file.news| <= m.idCount && m.newTable == EmptyMem().newTable
    ensures Closed(e, m) && FromFile(e, file, m)
    ensures Faithful(e, m0, news, trieds, file) ==>
              && m.idCount == |news + trieds| && Copies(m0, news + trieds, m) && Inv(e, m, Limbo(pending, {}, {}))
              && TriedCopied(m0, news + trieds, m) && m.nTried == |trieds|
  {
    hide Inv, Lists, Wrote, EmptyMem, Numbered, Copies, AddTried, Faithful, TriedCopied, Closed, FromFile;
    m := start;
    ghost var fine := Faithful(e, m0, news, trieds, file);
    if fine {
      WroteSizes(e, m0, news, trieds, file);
    }
    EmptyMemInv(e);
    NoneTriedCopied(m0, news + trieds, m);
    var n := 0;
    while n < |file.trieds|
      invariant 0 <= n <= |file.trieds| && Numbered(m) && m.nNew == |file.news| <= m.idCount
      invariant m.newTable == EmptyMem().newTable && Closed(e, m) && FromFile(e, file, m)
      invariant fine ==> m.idCount == |news| + n && Copies(m0, news + trieds, m) && Inv(e, m, Limbo(pending, {}, {}))
      invariant fine ==> TriedCopied(m0, news + trieds, m) && m.nTried == n
    {
      var info := FromDisk(file.trieds[n]);
      var slot := TriedSlot(e, info.service);
      NumberedSlots(m, slot);
      if fine {
        TriedIsNext(e, m0, news, trieds, file, m, n, pending);
      }
      if e.isValid(info.service.addr) && m.triedTable[slot] == EMPTY {
        AddTriedNumbered(e, m, info);
        AddTriedClosed(e, m, info);
        AddTriedFromFile(e, file, m, n);
        m := AddTried(e, m, info);
      }
      n := n + 1;
    }
  }

  lemma NumberedSlots(m: Mem, s: Slot)
    requires Numbered(m)
    ensures InTriedTable(s) ==> s in m.triedTable
    ensures InNewTable(s) ==> s in m.newTable
  {}

  lemma NoneTriedCopied(m0: Mem, ids: seq<int>, m: Mem)
    requires forall s :: s in m.triedTable ==> m.triedTable[s] == EMPTY
    ensures TriedCopied(m0, ids, m)
  {}

  lemma AddTriedNumbered(e: Env, m: Mem, info: AddrInfo)
    requires Numbered(m)
    ensures var m' := AddTried(e, m, info);
            && Numbered(m') && m'.idCount == m.idCount + 1 && m'.nNew == m.nNew && m'.nTried == m.nTried + 1
            && m'.newTable == m.newTable && m'.collisions == m.collisions
  {}

  lemma TriedIsNext(e: Env, m0: Mem, news: seq<int>, trieds: seq<int>, file: File, m: Mem, n: nat, pending: set<int>)
    requires Faithful(e, m0, news, trieds, file) && n < |file.trieds| && (forall k :: k in pending ==> 0 <= k < |news|)
    requires Copies(m0, news + trieds, m) && Inv(e, m, Limbo(pending, {}, {})) && m.idCount == |news| + n
    requires TriedCopied(m0, news + trieds, m)
    ensures var info := FromDisk(file.trieds[n]);
            var m' := AddTried(e, m, info);
            && e.isValid(info.service.addr) && TriedSlot(e, info.service) in m.triedTable
            && m.triedTable[TriedSlot(e, info.service)] == EMPTY
            && Copies(m0, news + trieds, m') && Inv(e, m', Limbo(pending, {}, {})) && TriedCopied(m0, news + trieds, m')
  {
    hide IndexOk, RandomOk, NewOk, TriedOk, CountsOk, CollisionsOk, Row, Copies, TriedCopied, AddTried;
    TriedWritten(e, m0, news, trieds, file, n);
    AllDistinct(m0, news, trieds);
    var all := news + trieds;
    assert all[|news| + n] == trieds[n];
    NotYetKnown(m0, all, m, |news| + n);
    TriedFree(e, m0, all, m, |news| + n);
    var info := FromDisk(file.trieds[n]);
    AddTriedKeeps(e, m, pending, info);
    AddTriedCopies(e, m0, all, m, info);
  }

  /** What was written of the n-th tried entry. */
  lemma TriedWritten(e: Env, m0: Mem, news: seq<int>, trieds: seq<int>, file: File, n: nat)
    requires Faithful(e, m0, news, trieds, file) && n < |file.trieds|
    ensures |file.trieds| == |trieds| && trieds[n] in m0.info && m0.info[trieds[n]].inTried && file.trieds[n] == ToDisk(m0.info[trieds[n]])
    ensures m0.info[trieds[n]].lastSuccess > 0 && e.isValid(m0.info[trieds[n]].service.addr)
  {
    hide IndexOk, RandomOk, NewOk, TriedOk, CountsOk, CollisionsOk, Row;
    assert trieds[n] in trieds;
    assert trieds[n] in TriedIds(m0);
    TriedSucceeded(m0, trieds[n]);
  }

  lemma TriedSucceeded(m: Mem, id: int)
    requires RangeOk(m, {}) && id in m.info && m.info[id].inTried
    ensures m.info[id].lastSuccess > 0
  {}

  /** The slot of the next tried entry is still free. */
  lemma TriedFree(e: Env, m0: Mem, ids: seq<int>, m: Mem, k: nat)
    requires TriedOk(e, m0) && TriedOk(e, m) && IndexOk(m0) && TriedCopied(m0, ids, m) && m.idCount == k < |ids|
    requires forall i, j :: 0 <= i < j < |ids| ==> ids[i] != ids[j]
    requires ids[k] in m0.info && m0.info[ids[k]].inTried
    ensures var s := TriedSlot(e, m0.info[ids[k]].service); s in m.triedTable && m.triedTable[s] == EMPTY && s in m0.triedTable && m0.triedTable[s] == ids[k]
  {
    hide TriedSlot;
    var s := TriedSlot(e, m0.info[ids[k]].service);
    assert InTriedTable(s);
  }

  lemma AddTriedCopies(e: Env, m0: Mem, ids: seq<int>, m: Mem, info: AddrInfo)
    requires Copies(m0, ids, m) && TriedCopied(m0, ids, m) && 0 <= m.idCount < |ids| && ids[m.idCount] in m0.info
    requires info == FromDisk(ToDisk(m0.info[ids[m.idCount]])) && m0.info[ids[m.idCount]].inTried
    requires TriedSlot(e, info.service) in m0.triedTable && m0.triedTable[TriedSlot(e, info.service)] == ids[m.idCount]
    ensures Copies(m0, ids, AddTried(e, m, info)) && TriedCopied(m0, ids, AddTried(e, m, info))
  {
    hide TriedSlot;
  }

  // ---------- Reading the buckets ----------

  /** Each entry of the list comes from an occupied slot of the table, and the slots come in order. */
  ghost predicate Tracks(table: Table, news: seq<int>, entries: seq<(int, int)>, slots: seq<Slot>) {
    && |entries| == |slots|
    && (forall i :: 0 <= i < |slots| ==>
          && slots[i] in table && table[slots[i]] != EMPTY && entries[i].0 == slots[i].bucket
          && 0 <= entries[i].1 < |news| && news[entries[i].1] == table[slots[i]])
    && (forall i, j :: 0 <= i < j < |slots| ==> Precedes(slots[i], slots[j]))
  }

  predicate Precedes(s: Slot, t: Slot) {
    s.bucket < t.bucket || (s.bucket == t.bucket && s.pos < t.pos)
  }

  /** All occupied slots in buckets below b are there. */
  ghost predicate Covers(table: Table, slots: seq<Slot>, b: nat) {
    forall s :: s in table && table[s] != EMPTY && s.bucket < b ==> s in slots
  }

  lemma {:induction false} RowOrdered(table: Table, bucket: nat, p: nat, i: nat, j: nat)
    requires i < j < |RowSlots(table, bucket, p)|
    ensures RowSlots(table, bucket, p)[i].pos < RowSlots(table, bucket, p)[j].pos
  {
    if p > 0 {
      var prev := RowSlots(table, bucket, p - 1);
      if j < |prev| {
        RowOrdered(table, bucket, p - 1, i, j);
      } else {
        assert prev[i].pos < p - 1;
      }
    }
  }

  lemma {:induction false} RowComplete(table: Table, bucket: nat, p: nat, s: Slot)
    requires s in table && table[s] != EMPTY && s.bucket == bucket && s.pos < p
    ensures s in RowSlots(table, bucket, p)
  {
    if s.pos < p - 1 {
      RowComplete(table, bucket, p - 1, s);
    }
  }

  lemma TrackNext(table: Table, news: seq<int>, entries: seq<(int, int)>, slots: seq<Slot>, o: (int, int), s: Slot)
    requires Tracks(table, news, entries, slots) && s in table && table[s] != EMPTY && o.0 == s.bucket
    requires 0 <= o.1 < |news| && news[o.1] == table[s] && forall i :: 0 <= i < |slots| ==> Precedes(slots[i], s)
    ensures Tracks(table, news, entries + [o], slots + [s])
  {
    hide Before;
  }

  /** Reads the positions of the new entries, to be applied later. Indexes out of range are skipped. */
  method CollectEntries(e: Env, file: File, ghost m0: Mem, ghost news: seq<int>, ghost trieds: seq<int>)
    returns (entries: seq<(int, int)>, ghost slots: seq<Slot>)
    ensures forall b, i :: (b, i) in entries <==> Listed(file, b, i)
    ensures Faithful(e, m0, news, trieds, file) ==>
              Tracks(m0.newTable, news, entries, slots) && Covers(m0.newTable, slots, NEW_BUCKET_COUNT)
  {
    hide Tracks, Covers, RowSlots, Wrote, Inv, Faithful, Row;
    entries, slots := [], [];
    ghost var fine := Faithful(e, m0, news, trieds, file);
    ghost var table := m0.newTable;
    TrackNone(table, news);
    if fine {
      BucketsAre(e, m0, news, trieds, file);
    }
    var b := 0;
    while b < |file.buckets|
      invariant 0 <= b <= |file.buckets|
      invariant forall b', i :: (b', i) in entries <==> b' < b && Listed(file, b', i)
      invariant fine ==> Tracks(table, news, entries, slots) && Covers(table, slots, b)
      invariant fine ==> forall i :: 0 <= i < |slots| ==> slots[i].bucket < b
    {
      ghost var row := RowSlots(table, b, BUCKET_SIZE);
      ghost var before := slots;
      if fine {
        RowOf(e, m0, news, trieds, file, b);
      }
      var n := 0;
      while n < |file.buckets[b]|
        invariant 0 <= n <= |file.buckets[b]|
        invariant forall b', i :: (b', i) in entries <==>
          (b' < b && Listed(file, b', i)) || (b' == b && i in file.buckets[b][..n] && 0 <= i < |file.news|)
        invariant fine ==> Tracks(table, news, entries, slots) && slots == before + row[..n]
      {
        var index := file.buckets[b][n];
        if fine {
          RowAt(table, news, row, file.buckets[b], b, n, before);
          TrackNext(table, news, entries, slots, (b, index), row[n]);
          assert row[..n + 1] == row[..n] + [row[n]];
          slots := slots + [row[n]];
        }
        if 0 <= index < |file.news| {
          entries := entries + [(b, index)];
        }
        n := n + 1;
      }
      if fine {
        RowDone(m0, table, before, slots, row, b);
      }
      b := b + 1;
    }
  }

  lemma TrackNone(table: Table, news: seq<int>)
    ensures Tracks(table, news, [], []) && Covers(table, [], 0)
  {}

  lemma BucketsAre(e: Env, m0: Mem, news: seq<int>, trieds: seq<int>, file: File)
    requires Faithful(e, m0, news, trieds, file)
    ensures |file.buckets| == NEW_BUCKET_COUNT && |file.news| == |news|
    ensures forall s :: s in m0.newTable ==> s.pos < BUCKET_SIZE
  {}

  lemma RowOf(e: Env, m0: Mem, news: seq<int>, trieds: seq<int>, file: File, b: nat)
    requires Faithful(e, m0, news, trieds, file) && b < |file.buckets|
    ensures Row(m0.newTable, news, RowSlots(m0.newTable, b, BUCKET_SIZE), file.buckets[b])
    ensures |RowSlots(m0.newTable, b, BUCKET_SIZE)| == |file.buckets[b]| && |news| == |file.news|
  {}

  lemma RowAt(table: Table, news: seq<int>, row: seq<Slot>, indexes: seq<int>, b: nat, n: nat, before: seq<Slot>)
    requires row == RowSlots(table, b, BUCKET_SIZE) && Row(table, news, row, indexes) && n < |indexes|
    requires forall i :: 0 <= i < |before| ==> before[i].bucket < b
    ensures row[n] in table && table[row[n]] != EMPTY && row[n].bucket == b
    ensures 0 <= indexes[n] < |news| && news[indexes[n]] == table[row[n]]
    ensures var slots := before + row[..n]; forall i :: 0 <= i < |slots| ==> Precedes(slots[i], row[n])
  {
    forall i | 0 <= i < n ensures Precedes(row[i], row[n]) {
      RowOrdered(table, b, BUCKET_SIZE, i, n);
    }
  }

  lemma RowDone(m0: Mem, table: Table, before: seq<Slot>, slots: seq<Slot>, row: seq<Slot>, b: nat)
    requires table == m0.newTable && (forall s :: s in table ==> s.pos < BUCKET_SIZE)
    requires row == RowSlots(table, b, BUCKET_SIZE) && slots == before + row
    requires Covers(table, before, b) && forall i :: 0 <= i < |before| ==> before[i].bucket < b
    ensures Covers(table, slots, b + 1) && forall i :: 0 <= i < |slots| ==> slots[i].bucket < b + 1
  {
    forall s | s in table && table[s] != EMPTY && s.bucket < b + 1 ensures s in slots {
      if s.bucket == b {
        RowComplete(table, b, BUCKET_SIZE, s);
      } else {
        assert s in before;
      }
    }
  }

  // ---------- Restoring the new table ----------

  /** The slot s holds the entry id. */
  function Filled(m: Mem, s: Slot, id: int): Mem
    requires id in m.info
  {
    m.(newTable := m.newTable[s := id], info := m.info[id := m.info[id].(refCount := m.info[id].refCount + 1)])
  }

  /**
   * Gives an entry a slot of the new table. With unchanged buckets it goes back to the bucket it was in; otherwise, or if
   * that place is taken, it gets the bucket of its own source, if that is free.
   */
  function Put(e: Env, m: Mem, bucket: nat, id: int, restore: bool): Mem
    requires id in m.info && (forall s :: InNewTable(s) ==> s in m.newTable) && (restore ==> bucket < NEW_BUCKET_COUNT)
  {
    var info := m.info[id];
    if !e.isValid(info.service.addr) || info.refCount >= NEW_BUCKETS_PER_ADDRESS then m
    else
      var slot := NewSlot(e, bucket, info.service);
      assert restore ==> InNewTable(slot);
      if restore && m.newTable[slot] == EMPTY then Filled(m, slot, id)
      else
        var home := NewSlot(e, NewBucket(e, info.service, info.source), info.service);
        assert InNewTable(home);
        if m.newTable[home] == EMPTY then Filled(m, home, id) else m
  }

  lemma PutClosed(e: Env, m: Mem, bucket: nat, id: int, restore: bool)
    requires id in m.info && (forall s :: InNewTable(s) ==> s in m.newTable) && (restore ==> bucket < NEW_BUCKET_COUNT)
    requires Closed(e, m)
    ensures Closed(e, Put(e, m, bucket, id, restore))
  {
    hide Closed, Filled;
    var service := m.info[id].service;
    FilledClosed(e, m, NewSlot(e, bucket, service), id);
    FilledClosed(e, m, NewSlot(e, NewBucket(e, service, m.info[id].source), service), id);
  }

  lemma PutNumbered(e: Env, m: Mem, bucket: nat, id: int, restore: bool)
    requires Numbered(m) && id in m.info && (restore ==> bucket < NEW_BUCKET_COUNT)
    ensures forall s :: InNewTable(s) ==> s in m.newTable
    ensures var m' := Put(e, m, bucket, id, restore);
            && Numbered(m') && m'.idCount == m.idCount && m'.triedTable == m.triedTable
            && m'.nNew == m.nNew && m'.nTried == m.nTried
  {
    hide Filled, Numbered;
    NumberedTables(m);
    if restore {
      FilledNumbered(m, NewSlot(e, bucket, m.info[id].service), id);
    }
    FilledNumbered(m, NewSlot(e, NewBucket(e, m.info[id].service, m.info[id].source), m.info[id].service), id);
  }

  lemma NumberedTables(m: Mem)
    requires Numbered(m)
    ensures forall s :: InNewTable(s) ==> s in m.newTable
  {}

  /** Exactly the given slots of the table have been restored. */
  ghost predicate Restored(table: Table, news: seq<int>, slots: seq<Slot>, m: Mem) {
    forall s :: s in m.newTable ==>
      if s in slots then s in table && 0 <= m.newTable[s] < |news| && news[m.newTable[s]] == table[s]
      else m.newTable[s] == EMPTY
  }

  /** Entries that have not got any slot yet. */
  ghost predicate Waiting(pending: set<int>, news: seq<int>, entries: seq<(int, int)>) {
    forall k :: k in pending ==> 0 <= k < |news| && forall i :: 0 <= i < |entries| ==> entries[i].1 != k
  }

  /** Applies the positions one by one. */
  method PlaceEntries(e: Env, file: File, start: Mem, entries: seq<(int, int)>, restore: bool, ghost pending0: set<int>,
                      ghost slots: seq<Slot>, ghost m0: Mem, ghost news: seq<int>, ghost trieds: seq<int>)
    returns (m: Mem, ghost pending: set<int>)
    requires Numbered(start) && |file.news| <= start.idCount && start.newTable == EmptyMem().newTable && Closed(e, start)
    requires restore <==> |file.buckets| == NEW_BUCKET_COUNT && file.asmapVersion == e.asmapVersion
    requires FromFile(e, file, start) && forall i :: 0 <= i < |entries| ==> Listed(file, entries[i].0, entries[i].1)
    requires Faithful(e, m0, news, trieds, file) ==>
               && Copies(m0, news + trieds, start) && Inv(e, start, Limbo(pending0, {}, {})) && start.idCount == |news + trieds|
               && Tracks(m0.newTable, news, entries, slots) && (forall k :: k in pending0 ==> 0 <= k < |news|)
    ensures Numbered(m) && m.idCount == start.idCount && m.triedTable == start.triedTable
    ensures m.nNew == start.nNew && m.nTried == start.nTried && Closed(e, m) && FromFile(e, file, m) && Housed(e, file, restore, m)
    ensures forall i :: 0 <= i < |entries| ==> ServedAt(e, file, restore, m, entries[i].0, entries[i].1)
    ensures Faithful(e, m0, news, trieds, file) ==>
              && Copies(m0, news + trieds, m) && Inv(e, m, Limbo(pending, {}, {})) && Restored(m0.newTable, news, slots, m)
              && Waiting(pending, news, entries)
  {
    hide Inv, Wrote, EmptyMem, Numbered, Copies, Faithful, Tracks, Restored, Waiting, Put, Closed, FromFile, Housed, ServedAt;
    m, pending := start, pending0;
    ghost var fine := Faithful(e, m0, news, trieds, file);
    EmptyMemInv(e);
    NothingRestored(m0.newTable, news, m, pending);
    assert Housed(e, file, restore, m) by { NobodyHoused(e, file, restore, m); }
    if fine {
      BucketsAre(e, m0, news, trieds, file);
      WroteKey(e, m0, news, trieds, file);
      TrackSize(m0.newTable, news, entries, slots);
    }
    assert entries[..0] == [] && slots[..0] == [];
    var j := 0;
    while j < |entries|
      invariant 0 <= j <= |entries| && Numbered(m) && m.idCount == start.idCount && m.triedTable == start.triedTable
      invariant m.nNew == start.nNew && m.nTried == start.nTried && Closed(e, m) && FromFile(e, file, m) && Housed(e, file, restore, m)
      invariant forall i :: 0 <= i < j ==> ServedAt(e, file, restore, m, entries[i].0, entries[i].1)
      invariant fine ==> Copies(m0, news + trieds, m) && Inv(e, m, Limbo(pending, {}, {}))
      invariant fine ==> |slots| == |entries| && Restored(m0.newTable, news, slots[..j], m) && Waiting(pending, news, entries[..j])
    {
      var (bucket, id) := entries[j];
      NumberedHas(m, id);
      PutNumbered(e, m, bucket, id, restore);
      PutClosed(e, m, bucket, id, restore);
      PutServes(e, file, restore, m, bucket, id);
      if fine {
        EntryIsNext(e, m0, news, trieds, file, m, pending, entries, slots, j);
      }
      m := Put(e, m, bucket, id, restore);
      pending := pending - {id};
      j := j + 1;
    }
    assert entries[..j] == entries;
    if fine {
      assert slots[..j] == slots;
    }
  }

  lemma TrackSize(table: Table, news: seq<int>, entries: seq<(int, int)>, slots: seq<Slot>)
    requires Tracks(table, news, entries, slots)
    ensures |slots| == |entries|
    ensures forall j :: 0 <= j < |entries| ==> 0 <= entries[j].1 < |news| && entries[j].0 == slots[j].bucket
  {}

  lemma WroteKey(e: Env, m0: Mem, news: seq<int>, trieds: seq<int>, file: File)
    requires Faithful(e, m0, news, trieds, file)
    ensures file.asmapVersion == e.asmapVersion && file.key == e.key
  {}

  lemma NobodyHoused(e: Env, file: File, restore: bool, m: Mem)
    requires forall s :: s in m.newTable ==> m.newTable[s] == EMPTY
    ensures Housed(e, file, restore, m)
  {}

  lemma NothingRestored(table: Table, news: seq<int>, m: Mem, pending: set<int>)
    requires forall s :: s in m.newTable ==> m.newTable[s] == EMPTY
    ensures Restored(table, news, [], m)
    ensures (forall k :: k in pending ==> 0 <= k < |news|) ==> Waiting(pending, news, [])
  {}

  lemma NumberedHas(m: Mem, id: int)
    requires Numbered(m)
    ensures 0 <= id < m.idCount ==> id in m.info
  {}

  lemma FilledNumbered(m: Mem, s: Slot, id: int)
    requires Numbered(m) && id in m.info && InNewTable(s)
    ensures var m' := Filled(m, s, id);
            Numbered(m') && m'.idCount == m.idCount && m'.triedTable == m.triedTable && m'.nNew == m.nNew && m'.nTried == m.nTried
  {}

  /** The next entry goes back to its slot. */
  lemma EntryIsNext(e: Env, m0: Mem, news: seq<int>, trieds: seq<int>, file: File, m: Mem, pending: set<int>,
                    entries: seq<(int, int)>, slots: seq<Slot>, j: nat)
    requires Faithful(e, m0, news, trieds, file) && Copies(m0, news + trieds, m) && m.idCount == |news + trieds|
    requires Inv(e, m, Limbo(pending, {}, {})) && Tracks(m0.newTable, news, entries, slots) && j < |entries|
    requires Restored(m0.newTable, news, slots[..j], m) && Waiting(pending, news, entries[..j])
    requires forall s :: InNewTable(s) ==> s in m.newTable
    requires entries[j].1 in m.info && 0 <= entries[j].0 < NEW_BUCKET_COUNT
    ensures var id := entries[j].1;
            var m' := Put(e, m, entries[j].0, id, true);
            && Copies(m0, news + trieds, m') && Inv(e, m', Limbo(pending - {id}, {}, {}))
            && Restored(m0.newTable, news, slots[..j + 1], m') && Waiting(pending - {id}, news, entries[..j + 1])
  {
    hide Inv, Faithful, Copies, Tracks, Restored, Waiting, Filled;
    TrackSize(m0.newTable, news, entries, slots);
    var id, s := entries[j].1, slots[j];
    InvNew(e, m, Limbo(pending, {}, {}));
    EntrySlot(e, m0, news, trieds, file, m, entries, slots, j);
    EntryRoom(e, m0, news, trieds, file, m, entries, slots, j);
    var m' := Filled(m, s, id);
    FilledIs(m, s, id);
    FillSlotKeeps(e, m, Limbo(pending, {}, {}), s, id, m');
    FilledCopies(m0, news + trieds, m, s, id);
    RestoredNext(m0.newTable, news, entries, slots, m, j);
    WaitingNext(pending, news, entries, j);
  }

  lemma FilledIs(m: Mem, s: Slot, id: int)
    requires id in m.info
    ensures Filled(m, s, id) == m.(newTable := m.newTable[s := id],
                                   info := m.info[id := m.info[id].(refCount := m.info[id].refCount + 1)])
  {}

  lemma FilledCopies(m0: Mem, ids: seq<int>, m: Mem, s: Slot, id: int)
    requires Copies(m0, ids, m) && id in m.info
    ensures Copies(m0, ids, Filled(m, s, id))
  {}

  lemma WaitingNext(pending: set<int>, news: seq<int>, entries: seq<(int, int)>, j: nat)
    requires j < |entries| && Waiting(pending, news, entries[..j])
    ensures Waiting(pending - {entries[j].1}, news, entries[..j + 1])
  {
    assert entries[..j + 1] == entries[..j] + [entries[j]];
  }

  lemma RestoredNext(table: Table, news: seq<int>, entries: seq<(int, int)>, slots: seq<Slot>, m: Mem, j: nat)
    requires Tracks(table, news, entries, slots) && j < |slots| && Restored(table, news, slots[..j], m)
    requires entries[j].1 in m.info
    ensures Restored(table, news, slots[..j + 1], Filled(m, slots[j], entries[j].1))
  {
    assert slots[..j + 1] == slots[..j] + [slots[j]];
  }

  /** The entry belongs to the slot, which is still free. */
  lemma EntrySlot(e: Env, m0: Mem, news: seq<int>, trieds: seq<int>, file: File, m: Mem,
                  entries: seq<(int, int)>, slots: seq<Slot>, j: nat)
    requires Faithful(e, m0, news, trieds, file) && Copies(m0, news + trieds, m) && m.idCount == |news + trieds|
    requires NewOk(e, m) && Tracks(m0.newTable, news, entries, slots) && j < |entries|
    requires Restored(m0.newTable, news, slots[..j], m)
    ensures var id := entries[j].1;
            && id in m.info && e.isValid(m.info[id].service.addr) && !m.info[id].inTried
            && news[id] in m0.info && m.info[id].service == m0.info[news[id]].service
            && slots[j] == NewSlot(e, slots[j].bucket, m.info[id].service)
            && slots[j] in m.newTable && m.newTable[slots[j]] == EMPTY
  {
    hide RandomOk, TriedOk, CountsOk, CollisionsOk, Row, IndexOk;
    var id, s := entries[j].1, slots[j];
    AllDistinct(m0, news, trieds);
    assert (news + trieds)[id] == news[id];
    assert SameEntry(m0.info[news[id]], m.info[id]);
    assert s in m0.newTable && InNewTable(s);
    forall i | 0 <= i < j ensures slots[i] != s {
      assert Precedes(slots[i], slots[j]);
    }
  }

  lemma InvNew(e: Env, m: Mem, x: Limbo)
    requires Inv(e, m, x)
    ensures NewOk(e, m)
  {}

  /** An entry that still has a place to go back to has not used up its references. */
  lemma EntryRoom(e: Env, m0: Mem, news: seq<int>, trieds: seq<int>, file: File, m: Mem,
                  entries: seq<(int, int)>, slots: seq<Slot>, j: nat)
    requires Faithful(e, m0, news, trieds, file) && Tracks(m0.newTable, news, entries, slots) && j < |entries|
    requires NewOk(e, m) && Restored(m0.newTable, news, slots[..j], m)
    requires var id := entries[j].1;
             && id in m.info && news[id] in m0.info && m.info[id].service == m0.info[news[id]].service
             && slots[j] == NewSlot(e, slots[j].bucket, m.info[id].service) && m.newTable[slots[j]] == EMPTY && id != EMPTY
    ensures m.info[entries[j].1].refCount < NEW_BUCKETS_PER_ADDRESS
  {
    hide Inv, Wrote, AllValid, NewOk, Restored;
    var id := entries[j].1;
    var service := m.info[id].service;
    References(e, m, id);
    MaxReferences(e, m0, news[id]);
    var now, was := Holders(e, m.newTable, service, id), Holders(e, m0.newTable, service, news[id]);
    assert slots[j] in m0.newTable && m0.newTable[slots[j]] == news[id];
    RestoredHolders(e, m0.newTable, news, slots[..j], m, service, id);
    NewTableBounds(e, m0);
    assert slots[j].bucket in was && slots[j].bucket !in now;
    SmallerSet(now, was, slots[j].bucket);
  }

  lemma NewTableBounds(e: Env, m: Mem)
    requires Inv(e, m, Settled)
    ensures forall s :: s in m.newTable ==> InNewTable(s)
  {}

  lemma References(e: Env, m: Mem, id: int)
    requires NewOk(e, m) && id in m.info
    ensures m.info[id].refCount == |Holders(e, m.newTable, m.info[id].service, id)|
  {}

  lemma MaxReferences(e: Env, m: Mem, id: int)
    requires Inv(e, m, Settled) && id in m.info
    ensures |Holders(e, m.newTable, m.info[id].service, id)| <= NEW_BUCKETS_PER_ADDRESS
  {
    References(e, m, id);
  }

  lemma RestoredHolders(e: Env, table: Table, news: seq<int>, slots: seq<Slot>, m: Mem, service: Service, id: int)
    requires Restored(table, news, slots, m) && 0 <= id < |news|
    ensures Holders(e, m.newTable, service, id) <= Holders(e, table, service, news[id])
  {
    forall b | b in Holders(e, m.newTable, service, id) ensures b in Holders(e, table, service, news[id]) {
      var s := NewSlot(e, b, service);
      assert s in m.newTable && m.newTable[s] == id;
    }
  }

  lemma SmallerSet(a: set<nat>, b: set<nat>, x: nat)
    requires a <= b && x in b && x !in a
    ensures |a| < |b|
  {
    assert a <= b - {x};
    SubsetSize(a, b - {x});
  }

  // ---------- How many entries there can be ----------

  ghost function RowSet(bucket: nat, p: nat): set<Slot> {
    if p == 0 then {} else RowSet(bucket, p - 1) + {Slot(bucket, p - 1)}
  }

  ghost function Grid(buckets: nat): set<Slot> {
    if buckets == 0 then {} else Grid(buckets - 1) + RowSet(buckets - 1, BUCKET_SIZE)
  }

  lemma {:induction false} RowSetHas(bucket: nat, p: nat, s: Slot)
    ensures s in RowSet(bucket, p) <==> s.bucket == bucket && s.pos < p
  {
    if p > 0 {
      RowSetHas(bucket, p - 1, s);
      assert s == Slot(s.bucket, s.pos);
    }
  }

  lemma {:induction false} RowSetSize(bucket: nat, p: nat)
    ensures |RowSet(bucket, p)| == p
  {
    if p > 0 {
      RowSetSize(bucket, p - 1);
      RowSetHas(bucket, p - 1, Slot(bucket, p - 1));
    }
  }

  lemma {:induction false} GridHas(buckets: nat, s: Slot)
    ensures s in Grid(buckets) <==> s.bucket < buckets && s.pos < BUCKET_SIZE
  {
    hide RowSet;
    if buckets > 0 {
      GridHas(buckets - 1, s);
      RowSetHas(buckets - 1, BUCKET_SIZE, s);
    }
  }

  lemma {:induction false} GridSize(buckets: nat)
    ensures |Grid(buckets)| == BUCKET_SIZE * buckets
  {
    hide RowSet;
    if buckets > 0 {
      GridSize(buckets - 1);
      RowSetSize(buckets - 1, BUCKET_SIZE);
      var grid, row := Grid(buckets - 1), RowSet(buckets - 1, BUCKET_SIZE);
      forall s | s in grid ensures s !in row {
        GridHas(buckets - 1, s);
        RowSetHas(buckets - 1, BUCKET_SIZE, s);
      }
      DisjointSum(grid, row);
    }
  }

  lemma DisjointSum(a: set<Slot>, b: set<Slot>)
    requires forall s :: s in a ==> s !in b
    ensures |a + b| == |a| + |b|
  {
    assert a * b == {};
  }

  /** A table cannot hold more ids than it has slots. */
  lemma {:induction false} HeldBound(table: Table, ids: set<int>, slots: set<Slot>)
    requires forall id :: id in ids ==> exists s :: s in slots && s in table && table[s] == id
    ensures |ids| <= |slots|
    decreases |ids|
  {
    if ids != {} {
      var id := SomeOf(ids);
      var s :| s in slots && s in table && table[s] == id;
      forall k | k in ids - {id} ensures exists t :: t in slots - {s} && t in table && table[t] == k {
        var t :| t in slots && t in table && table[t] == k;
        assert t in slots - {s};
      }
      HeldBound(table, ids - {id}, slots - {s});
    }
  }

  /** The sizes in the file are within the limits that are checked. */
  lemma WithinLimits(e: Env, m: Mem)
    requires Inv(e, m, Settled)
    ensures |NewIds(m, {})| <= NEW_BUCKET_COUNT * BUCKET_SIZE && |TriedIds(m)| <= TRIED_BUCKET_COUNT * BUCKET_SIZE
  {
    hide RandomOk, CountsOk, CollisionsOk, Grid;
    GridSize(NEW_BUCKET_COUNT);
    GridSize(TRIED_BUCKET_COUNT);
    forall id | id in NewIds(m, {}) ensures exists s :: s in Grid(NEW_BUCKET_COUNT) && s in m.newTable && m.newTable[s] == id {
      var s := HasSlot(e, m, id);
      GridHas(NEW_BUCKET_COUNT, s);
    }
    HeldBound(m.newTable, NewIds(m, {}), Grid(NEW_BUCKET_COUNT));
    forall id | id in TriedIds(m) ensures exists s :: s in Grid(TRIED_BUCKET_COUNT) && s in m.triedTable && m.triedTable[s] == id {
      var s := TriedSlot(e, m.info[id].service);
      GridHas(TRIED_BUCKET_COUNT, s);
      assert InTriedTable(s) && s in m.triedTable;
    }
    HeldBound(m.triedTable, TriedIds(m), Grid(TRIED_BUCKET_COUNT));
  }

  /** An entry with references has a slot. */
  lemma HasSlot(e: Env, m: Mem, id: int) returns (s: Slot)
    requires NewOk(e, m) && RangeOk(m, {}) && id in m.info && !m.info[id].inTried
    ensures InNewTable(s) && s in m.newTable && m.newTable[s] == id
  {
    var b :| b in Holders(e, m.newTable, m.info[id].service, id);
    s := NewSlot(e, b, m.info[id].service);
  }

  // ---------- What any file gives ----------

  ghost predicate ReadFrom(d: Disk, info: AddrInfo) {
    && info.service == d.service && info.time == d.time && info.services == d.services && info.source == d.source
    && info.lastSuccess == d.lastSuccess && info.attempts == d.attempts && info.lastTry == 0 && info.lastCountAttempt == 0
  }

  /** Every entry was read from the file: the first ids are the new entries, with up to eight slots, the others valid tried ones. */
  ghost predicate FromFile(e: Env, file: File, m: Mem) {
    forall id :: id in m.info ==> EntryFrom(e, file, id, m.info[id])
  }

  ghost predicate EntryFrom(e: Env, file: File, id: int, info: AddrInfo) {
    if id < |file.news| then 0 <= id && !info.inTried && 0 <= info.refCount <= 8 && ReadFrom(file.news[id], info)
    else info.inTried && info.refCount == 0 && e.isValid(info.service.addr) && exists j :: 0 <= j < |file.trieds| && ReadFrom(file.trieds[j], info)
  }

  /** The file puts the new entry i into bucket b. */
  predicate Listed(file: File, b: int, i: int) {
    0 <= b < |file.buckets| && i in file.buckets[b] && 0 <= i < |file.news|
  }

  /** Where a new entry belongs if nothing else is known. */
  ghost function OwnSlot(e: Env, d: Disk): (s: Slot)
    ensures InNewTable(s)
  {
    NewSlot(e, NewBucket(e, d.service, d.source), d.service)
  }

  /** Who has a slot is valid, and has it because the file says so and the buckets are the same, or because it belongs there. */
  ghost predicate Housed(e: Env, file: File, restore: bool, m: Mem) {
    forall s :: s in m.newTable && m.newTable[s] != EMPTY ==> HousedAt(e, file, restore, s, m.newTable[s])
  }

  ghost predicate HousedAt(e: Env, file: File, restore: bool, s: Slot, i: int) {
    && 0 <= i < |file.news| && e.isValid(file.news[i].service.addr)
    && (s == OwnSlot(e, file.news[i]) || (restore && Listed(file, s.bucket, i) && s == NewSlot(e, s.bucket, file.news[i].service)))
  }

  /** What is listed and valid has its slot, unless it has eight already or the slot where it belongs is taken. */
  ghost predicate ServedAt(e: Env, file: File, restore: bool, m: Mem, b: int, i: int)
    requires Listed(file, b, i)
  {
    var d := file.news[i];
    e.isValid(d.service.addr) ==>
      || (i in m.info && m.info[i].refCount >= 8)
      || (restore && NewSlot(e, b, d.service) in m.newTable && m.newTable[NewSlot(e, b, d.service)] == i)
      || (OwnSlot(e, d) in m.newTable && m.newTable[OwnSlot(e, d)] != EMPTY)
  }

  ghost predicate Served(e: Env, file: File, restore: bool, m: Mem) {
    forall b, i :: Listed(file, b, i) ==> ServedAt(e, file, restore, m, b, i)
  }

  lemma CreatedFromFile(e: Env, file: File, m: Mem)
    requires FromFile(e, file, m) && 0 <= m.idCount < |file.news|
    ensures FromFile(e, file, Created(e, m, FromDisk(file.news[m.idCount])))
  {
    var m' := Created(e, m, FromDisk(file.news[m.idCount]));
    forall id | id in m'.info ensures EntryFrom(e, file, id, m'.info[id]) {
      if id != m.idCount {
        assert EntryFrom(e, file, id, m.info[id]);
      }
    }
  }

  lemma AddTriedFromFile(e: Env, file: File, m: Mem, n: nat)
    requires FromFile(e, file, m) && n < |file.trieds| && |file.news| <= m.idCount && e.isValid(file.trieds[n].service.addr)
    ensures FromFile(e, file, AddTried(e, m, FromDisk(file.trieds[n])))
  {
    var m' := AddTried(e, m, FromDisk(file.trieds[n]));
    forall id | id in m'.info ensures EntryFrom(e, file, id, m'.info[id]) {
      if id == m.idCount {
        assert ReadFrom(file.trieds[n], m'.info[id]);
      } else {
        assert EntryFrom(e, file, id, m.info[id]);
      }
    }
  }

  lemma FilledFromFile(e: Env, file: File, m: Mem, s: Slot, id: int)
    requires FromFile(e, file, m) && id in m.info && id < |file.news| && m.info[id].refCount < 8
    ensures FromFile(e, file, Filled(m, s, id))
  {
    var m' := Filled(m, s, id);
    forall k | k in m'.info ensures EntryFrom(e, file, k, m'.info[k]) {
      assert EntryFrom(e, file, k, m.info[k]);
      if m.info[k].inTried {
        var j :| 0 <= j < |file.trieds| && ReadFrom(file.trieds[j], m.info[k]);
        assert ReadFrom(file.trieds[j], m'.info[k]);
      }
    }
  }

  lemma FilledServed(e: Env, file: File, restore: bool, m: Mem, s: Slot, id: int, b: int, i: int)
    requires Listed(file, b, i) && ServedAt(e, file, restore, m, b, i)
    requires id in m.info && id != EMPTY && s in m.newTable && m.newTable[s] == EMPTY
    ensures ServedAt(e, file, restore, Filled(m, s, id), b, i)
  {
  }

  /** One position is applied: whoever was served stays served, and now this entry is as well. */
  lemma PutServes(e: Env, file: File, restore: bool, m: Mem, b: nat, i: int)
    requires FromFile(e, file, m) && Housed(e, file, restore, m) && Listed(file, b, i) && i in m.info
    requires (forall s :: InNewTable(s) ==> s in m.newTable) && (restore ==> b < NEW_BUCKET_COUNT)
    ensures var m' := Put(e, m, b, i, restore);
      && FromFile(e, file, m') && Housed(e, file, restore, m') && ServedAt(e, file, restore, m', b, i)
      && forall b', i' :: Listed(file, b', i') && ServedAt(e, file, restore, m, b', i') ==> ServedAt(e, file, restore, m', b', i')
  {
    hide FromFile, ServedAt, Filled;
    var m' := Put(e, m, b, i, restore);
    EntryRead(e, file, m, i);
    PutServesIt(e, file, restore, m, b, i);
    if m' != m {
      var s := PutWhere(e, file, restore, m, b, i);
      FilledFromFile(e, file, m, s, i);
      forall b', i' | Listed(file, b', i') && ServedAt(e, file, restore, m, b', i') ensures ServedAt(e, file, restore, m', b', i') {
        FilledServed(e, file, restore, m, s, i, b', i');
      }
      FilledHoused(e, file, restore, m, s, i);
    }
  }

  lemma EntryRead(e: Env, file: File, m: Mem, i: int)
    requires FromFile(e, file, m) && i in m.info && i < |file.news|
    ensures 0 <= i && m.info[i].service == file.news[i].service && m.info[i].source == file.news[i].source
  {
    assert EntryFrom(e, file, i, m.info[i]);
  }

  lemma PutWhere(e: Env, file: File, restore: bool, m: Mem, b: nat, i: int) returns (s: Slot)
    requires FromFile(e, file, m) && Listed(file, b, i) && i in m.info
    requires (forall s :: InNewTable(s) ==> s in m.newTable) && (restore ==> b < NEW_BUCKET_COUNT)
    requires Put(e, m, b, i, restore) != m
    ensures s in m.newTable && m.newTable[s] == EMPTY && HousedAt(e, file, restore, s, i) && m.info[i].refCount < 8
    ensures Put(e, m, b, i, restore) == Filled(m, s, i)
  {
    hide Filled, FromFile;
    EntryRead(e, file, m, i);
    s := NewSlot(e, b, m.info[i].service);
    if !(restore && m.newTable[s] == EMPTY) {
      s := OwnSlot(e, file.news[i]);
    }
  }

  lemma PutServesIt(e: Env, file: File, restore: bool, m: Mem, b: nat, i: int)
    requires FromFile(e, file, m) && Listed(file, b, i) && i in m.info
    requires (forall s :: InNewTable(s) ==> s in m.newTable) && (restore ==> b < NEW_BUCKET_COUNT)
    ensures ServedAt(e, file, restore, Put(e, m, b, i, restore), b, i)
  {
    hide FromFile;
    EntryRead(e, file, m, i);
  }

  lemma FilledHoused(e: Env, file: File, restore: bool, m: Mem, s: Slot, i: int)
    requires Housed(e, file, restore, m) && i in m.info && HousedAt(e, file, restore, s, i)
    ensures Housed(e, file, restore, Filled(m, s, i))
  {
    hide HousedAt;
  }

  // ---------- Pruning ----------

  lemma DeletedRandom(e: Env, m: Mem, id: int)
    requires RandomOk(m) && id in m.info && |m.random| > 0 && m.random[|m.random| - 1] == id
    ensures RandomOk(Deleted(e, m, id)) && Deleted(e, m, id).info.Keys == m.info.Keys - {id}
  {}

  /** Entries that stay when those without a slot are deleted. */
  predicate Placed(info: AddrInfo) {
    info.inTried || info.refCount != 0
  }

  /** Of the entries, exactly those in `rest` and those with a slot are left, and they are as they were. */
  ghost predicate Pruned(start: Mem, m: Mem, rest: set<int>) {
    && (forall id :: id in m.info <==> id in start.info && (id in rest || Placed(start.info[id])))
    && (forall id :: id in m.info && id in start.info ==> m.info[id] == start.info[id].(randomPos := m.info[id].randomPos))
    && m.newTable == start.newTable && m.triedTable == start.triedTable
    && ((forall id :: id in start.info ==> Placed(start.info[id])) ==> m == start)
  }

  lemma PrunedOne(e: Env, start: Mem, m: Mem, rest: set<int>, id: int)
    requires Pruned(start, m, rest) && id in rest && id in m.info && RandomOk(m)
    ensures Placed(m.info[id]) ==> Pruned(start, m, rest - {id})
    ensures 0 <= m.info[id].randomPos < |m.random| && m.random[m.info[id].randomPos] in m.info && m.random[|m.random| - 1] in m.info
    ensures var m1 := Swapped(m, m.info[id].randomPos, |m.random| - 1);
            !Placed(m.info[id]) ==> id in m1.info && |m1.random| > 0 && Pruned(start, Deleted(e, m1, id), rest - {id})
  {
    hide RandomOk, Swapped;
    InRandom(m, id);
    SwappedPlaces(m, m.info[id].randomPos, |m.random| - 1);
    SwappedRandom(m, m.info[id].randomPos, |m.random| - 1);
    var m1 := Swapped(m, m.info[id].randomPos, |m.random| - 1);
    forall k ensures k in m1.info <==> k in m.info {
      assert k in m1.info.Keys <==> k in m.info.Keys;
    }
  }

  /** Deletes exactly the entries that have no slot. */
  method Prune(e: Env, start: Mem) returns (m: Mem)
    requires RandomOk(start) && TablesTotal(start) && EMPTY !in start.info && Closed(e, start)
    ensures TablesTotal(m) && EMPTY !in m.info && Closed(e, m) && Pruned(start, m, {})
  {
    hide RandomOk, TablesTotal, Deleted, Swapped, Closed, Pruned, Placed;
    m := start;
    var rest := m.info.Keys;
    AllLeft(m, rest);
    while rest != {}
      invariant rest <= m.info.Keys && RandomOk(m) && TablesTotal(m) && EMPTY !in m.info && Closed(e, m) && Pruned(start, m, rest)
      decreases rest
    {
      var id := AnyOf(rest);
      PrunedOne(e, start, m, rest, id);
      rest := rest - {id};
      if !Placed(m.info[id]) {
        var p := m.info[id].randomPos;
        InRandom(m, id);
        var last := |m.random| - 1;
        SwappedRandom(m, p, last);
        SwappedTables(m, p, last);
        SwappedClosed(e, m, p, last);
        var m1 := Swapped(m, p, last);
        DeletedRandom(e, m1, id);
        DeletedTables(e, m1, id);
        DeletedClosed(e, m1, id);
        m := Deleted(e, m1, id);
      }
    }
  }

  lemma AllLeft(m: Mem, rest: set<int>)
    requires rest == m.info.Keys
    ensures Pruned(m, m, rest)
  {}

  lemma InRandom(m: Mem, id: int)
    requires RandomOk(m) && id in m.info
    ensures 0 <= m.info[id].randomPos < |m.random| && m.random[m.info[id].randomPos] == id
    ensures m.random[|m.random| - 1] in m.info
  {}

  lemma SwappedTables(m: Mem, i: int, j: int)
    requires RandomOk(m) && 0 <= i < |m.random| && 0 <= j < |m.random| && TablesTotal(m)
    ensures TablesTotal(Swapped(m, i, j))
  {}

  lemma DeletedTables(e: Env, m: Mem, id: int)
    requires TablesTotal(m) && id in m.info && |m.random| > 0
    ensures TablesTotal(Deleted(e, m, id))
  {}

  // ---------- The whole file ----------

  /** The slot holds the same entry in both tables, under its old and its new id. */
  ghost predicate SameSlot(was: Table, ids: seq<int>, table: Table, s: Slot) {
    && s in was && s in table
    && if was[s] == EMPTY then table[s] == EMPTY else 0 <= table[s] < |ids| && ids[table[s]] == was[s]
  }

  /**
   * Up to the renaming of ids, m is the same address manager as m0: the same entries with the same reference counts, in
   * the same slots of both tables, and the same totals. What is kept in memory only has been reset.
   */
  ghost predicate SameManager(m0: Mem, ids: seq<int>, m: Mem) {
    && Lists(ids, m0.info.Keys) && m.idCount == |ids| && Copies(m0, ids, m)
    && (forall k :: k in m.info <==> 0 <= k < |ids|)
    && (forall k :: k in m.info ==> m.info[k].refCount == m0.info[ids[k]].refCount)
    && (forall s :: InNewTable(s) ==> SameSlot(m0.newTable, ids, m.newTable, s))
    && (forall s :: InTriedTable(s) ==> SameSlot(m0.triedTable, ids, m.triedTable, s))
    && m.nNew == m0.nNew && m.nTried == m0.nTried
  }

  lemma AllListed(m0: Mem, news: seq<int>, trieds: seq<int>)
    requires Lists(news, NewIds(m0, {})) && Lists(trieds, TriedIds(m0))
    ensures Lists(news + trieds, m0.info.Keys)
  {
    AllDistinct(m0, news, trieds);
    var all := news + trieds;
    forall x ensures x in all <==> x in m0.info.Keys {
      if x in m0.info {
        assert if m0.info[x].inTried then x in trieds else x in news;
      }
      if x in all {
        assert x in news || x in trieds;
      }
    }
  }

  /** Every entry has got back at least one slot. */
  lemma NoneWaiting(e: Env, m0: Mem, news: seq<int>, trieds: seq<int>, file: File, entries: seq<(int, int)>,
                    slots: seq<Slot>, pending: set<int>)
    requires Faithful(e, m0, news, trieds, file) && Tracks(m0.newTable, news, entries, slots)
    requires Covers(m0.newTable, slots, NEW_BUCKET_COUNT) && Waiting(pending, news, entries)
    ensures pending == {}
  {
    hide Faithful, Tracks, Covers;
    if pending != {} {
      var k := SomeOf(pending);
      EntryGiven(e, m0, news, trieds, file, entries, slots, k);
    }
  }

  /** Every new entry occurs among the positions. */
  lemma EntryGiven(e: Env, m0: Mem, news: seq<int>, trieds: seq<int>, file: File, entries: seq<(int, int)>,
                   slots: seq<Slot>, k: int)
    requires Faithful(e, m0, news, trieds, file) && Tracks(m0.newTable, news, entries, slots)
    requires Covers(m0.newTable, slots, NEW_BUCKET_COUNT) && 0 <= k < |news|
    ensures exists i :: 0 <= i < |entries| && entries[i].1 == k
  {
    hide RandomOk, TriedOk, CountsOk, CollisionsOk, Row, IndexOk;
    AllDistinct(m0, news, trieds);
    IdsNatural(m0);
    var s := HasSlot(e, m0, news[k]);
    assert s in slots;
    var i :| 0 <= i < |slots| && slots[i] == s;
    assert news[entries[i].1] == news[k];
  }

  lemma NewSlotsSame(e: Env, m0: Mem, news: seq<int>, trieds: seq<int>, entries: seq<(int, int)>, slots: seq<Slot>, m: Mem)
    requires NewOk(e, m0) && NewOk(e, m) && Tracks(m0.newTable, news, entries, slots)
    requires Covers(m0.newTable, slots, NEW_BUCKET_COUNT) && Restored(m0.newTable, news, slots, m)
    ensures forall s :: InNewTable(s) ==> SameSlot(m0.newTable, news + trieds, m.newTable, s)
  {
    var all := news + trieds;
    forall s | InNewTable(s) ensures SameSlot(m0.newTable, all, m.newTable, s) {
      assert s in m0.newTable && s in m.newTable;
      if s in slots {
        var i :| 0 <= i < |slots| && slots[i] == s;
        assert all[m.newTable[s]] == news[m.newTable[s]];
      }
    }
  }

  lemma TriedSlotsSame(e: Env, m0: Mem, news: seq<int>, trieds: seq<int>, m: Mem)
    requires TriedOk(e, m0) && TriedOk(e, m) && IndexOk(m0) && Copies(m0, news + trieds, m) && m.idCount == |news + trieds|
    requires TriedCopied(m0, news + trieds, m) && Lists(trieds, TriedIds(m0))
    ensures forall s :: InTriedTable(s) ==> SameSlot(m0.triedTable, news + trieds, m.triedTable, s)
  {
    var all := news + trieds;
    forall s | InTriedTable(s) ensures SameSlot(m0.triedTable, all, m.triedTable, s) {
      assert s in m0.triedTable && s in m.triedTable;
      if m0.triedTable[s] != EMPTY {
        var id := m0.triedTable[s];
        assert id in TriedIds(m0) && id in trieds;
        var i :| 0 <= i < |trieds| && trieds[i] == id;
        assert all[|news| + i] == id;
        assert SameEntry(m0.info[id], m.info[|news| + i]);
      }
    }
  }

  lemma ReferencesSame(e: Env, m0: Mem, ids: seq<int>, m: Mem, k: int)
    requires NewOk(e, m0) && NewOk(e, m) && Copies(m0, ids, m) && 0 <= k < m.idCount && IndexOk(m0)
    requires forall i, j :: 0 <= i < j < |ids| ==> ids[i] != ids[j]
    requires forall s :: InNewTable(s) ==> SameSlot(m0.newTable, ids, m.newTable, s)
    ensures m.info[k].refCount == m0.info[ids[k]].refCount
  {
    var service := m.info[k].service;
    assert SameEntry(m0.info[ids[k]], m.info[k]);
    var now, was := Holders(e, m.newTable, service, k), Holders(e, m0.newTable, service, ids[k]);
    forall b: nat | b < NEW_BUCKET_COUNT ensures b in now <==> b in was {
      var s := NewSlot(e, b, service);
      assert InNewTable(s) && SameSlot(m0.newTable, ids, m.newTable, s);
    }
    assert now == was;
  }

  /** What has been rebuilt is the address manager that was written. */
  lemma Rebuilt(e: Env, m0: Mem, news: seq<int>, trieds: seq<int>, file: File, entries: seq<(int, int)>, slots: seq<Slot>,
                pending: set<int>, m: Mem)
    requires Faithful(e, m0, news, trieds, file) && Tracks(m0.newTable, news, entries, slots)
    requires Covers(m0.newTable, slots, NEW_BUCKET_COUNT) && Waiting(pending, news, entries)
    requires Restored(m0.newTable, news, slots, m) && Copies(m0, news + trieds, m) && m.idCount == |news + trieds|
    requires Inv(e, m, Limbo(pending, {}, {})) && TriedCopied(m0, news + trieds, m) && Numbered(m)
    requires m.nNew == |file.news| && m.nTried == |trieds|
    ensures Inv(e, m, Settled) && SameManager(m0, news + trieds, m)
  {
    hide RandomOk, NewOk, TriedOk, CountsOk, RangeOk, CollisionsOk, Restored, Tracks, Covers, Waiting, TriedCopied, Row, Copies;
    hide SameSlot, IndexOk;
    NoneWaiting(e, m0, news, trieds, file, entries, slots, pending);
    AllListed(m0, news, trieds);
    NewSlotsSame(e, m0, news, trieds, entries, slots, m);
    TriedSlotsSame(e, m0, news, trieds, m);
    CopiesAre(m0, news + trieds, m);
    forall k | k in m.info ensures m.info[k].refCount == m0.info[(news + trieds)[k]].refCount {
      ReferencesSame(e, m0, news + trieds, m, k);
    }
    ListSize(news, NewIds(m0, {}));
    ListSize(trieds, TriedIds(m0));
    Totals(e, m0);
  }

  lemma CopiesAre(m0: Mem, ids: seq<int>, m: Mem)
    requires Copies(m0, ids, m)
    ensures m.idCount <= |ids| && forall k :: 0 <= k < m.idCount ==> ids[k] in m0.info
  {}

  lemma Totals(e: Env, m: Mem)
    requires Inv(e, m, Settled)
    ensures m.nNew == |NewIds(m, {})| && m.nTried == |TriedIds(m)|
  {}

  lemma NumberedFacts(m: Mem)
    requires Numbered(m)
    ensures RandomOk(m) && TablesTotal(m) && EMPTY !in m.info
  {}

  lemma NothingToPrune(e: Env, m: Mem)
    requires Inv(e, m, Settled)
    ensures forall id :: id in m.info ==> Placed(m.info[id])
  {}

  /**
   * Reads a file. Whatever it contains, the result is only accepted if it satisfies the invariant. A file written from a settled
   * state, with the same map of autonomous systems, gives the same address manager back if all addresses are valid.
   */
  method Unserialize(env: Env, file: File, ghost m0: Mem, ghost news: seq<int>, ghost trieds: seq<int>)
    returns (ok: bool, m: Mem)
    ensures ok ==> file.key != 0 && |file.news| <= 65_536 && |file.trieds| <= 16_384
    ensures ok ==> Inv(env.(key := file.key), m, Settled) && AllValid(env, m)
    ensures ok ==>
      && var e, restore := env.(key := file.key), |file.buckets| == 1024 && file.asmapVersion == env.asmapVersion;
      FromFile(e, file, m) && Housed(e, file, restore, m) && Served(e, file, restore, m)
    ensures Faithful(env.(key := file.key), m0, news, trieds, file) && file.key != 0 ==> ok && SameManager(m0, news + trieds, m)
  {
    hide Inv, Faithful, Consistent, Copies, Tracks, Covers, Restored, Waiting, TriedCopied, Numbered, SameManager, EmptyMem;
    hide Closed, Pruned, Placed, FromFile, Housed, ServedAt, AllValid;
    var e := env.(key := file.key);
    ghost var fine := Faithful(e, m0, news, trieds, file);
    m := EmptyMem();
    if fine {
      SizesFit(e, m0, news, trieds, file);
    }
    if |file.news| > NEW_BUCKET_COUNT * BUCKET_SIZE || |file.trieds| > TRIED_BUCKET_COUNT * BUCKET_SIZE {
      return false, m;
    }
    ghost var pending, slots;
    m, pending := LoadNew(e, file, m0, news, trieds);
    m := LoadTried(e, file, m, pending, m0, news, trieds);
    ghost var loaded := m;
    var entries;
    entries, slots := CollectEntries(e, file, m0, news, trieds);
    var restore := |file.buckets| == NEW_BUCKET_COUNT && file.asmapVersion == e.asmapVersion;
    m, pending := PlaceEntries(e, file, m, entries, restore, pending, slots, m0, news, trieds);
    if fine {
      TriedKept(m0, news + trieds, loaded, m);
      Rebuilt(e, m0, news, trieds, file, entries, slots, pending, m);
      NothingToPrune(e, m);
    }
    NumberedFacts(m);
    ghost var placed := m;
    m := Prune(e, m);
    PrunedSame(e, file, restore, placed, m);
    if fine {
      NonePruned(placed, m);
    }
    if fine && file.key != 0 {
      InvConsistent(e, m);
    }
    var err := CheckAddrman(e, m);
    ok := err == 0;
    if ok {
      ConsistentIsInv(e, m);
      HasKey(e, m);
      PlacedAreValid(env, e, file, restore, m);
    }
  }

  lemma HasKey(e: Env, m: Mem)
    requires Consistent(e, m)
    ensures e.key != 0
  {}

  /** Deleting entries without a slot changes nothing of this. */
  lemma PrunedSame(e: Env, file: File, restore: bool, start: Mem, m: Mem)
    requires Pruned(start, m, {}) && FromFile(e, file, start) && Housed(e, file, restore, start)
    ensures FromFile(e, file, m) && Housed(e, file, restore, m)
    ensures forall b, i :: Listed(file, b, i) && ServedAt(e, file, restore, start, b, i) ==> ServedAt(e, file, restore, m, b, i)
  {
    hide HousedAt;
    forall id | id in m.info ensures EntryFrom(e, file, id, m.info[id]) {
      assert EntryFrom(e, file, id, start.info[id]);
      if start.info[id].inTried {
        var j :| 0 <= j < |file.trieds| && ReadFrom(file.trieds[j], start.info[id]);
        assert ReadFrom(file.trieds[j], m.info[id]);
      }
    }
  }

  /** Every entry that is left is in one of the tables, and only valid ones get there. */
  lemma PlacedAreValid(env: Env, e: Env, file: File, restore: bool, m: Mem)
    requires e == env.(key := e.key) && Inv(e, m, Settled) && FromFile(e, file, m) && Housed(e, file, restore, m)
    ensures AllValid(env, m)
  {
    hide RandomOk, CountsOk, CollisionsOk, IndexOk, TriedOk;
    forall id | id in m.info ensures env.isValid(m.info[id].service.addr) {
      assert EntryFrom(e, file, id, m.info[id]);
      if !m.info[id].inTried {
        var s := HasSlot(e, m, id);
        assert HousedAt(e, file, restore, s, id);
      }
    }
  }

  lemma NonePruned(start: Mem, m: Mem)
    requires Pruned(start, m, {}) && forall id :: id in start.info ==> Placed(start.info[id])
    ensures m == start
  {}

  lemma TriedKept(m0: Mem, ids: seq<int>, a: Mem, b: Mem)
    requires TriedCopied(m0, ids, a) && b.triedTable == a.triedTable && b.idCount == a.idCount
    ensures TriedCopied(m0, ids, b)
  {}

  lemma SizesFit(e: Env, m0: Mem, news: seq<int>, trieds: seq<int>, file: File)
    requires Faithful(e, m0, news, trieds, file)
    ensures |file.news| <= NEW_BUCKET_COUNT * BUCKET_SIZE && |file.trieds| <= TRIED_BUCKET_COUNT * BUCKET_SIZE
  {
    hide Inv, Row;
    WithinLimits(e, m0);
    ListSize(news, NewIds(m0, {}));
    ListSize(trieds, TriedIds(m0));
  }

  /** Writing a settled address manager and reading the file again loses nothing, up to the renaming of ids. */
  method SaveAndLoad(e: Env, m0: Mem, order: seq<int>) returns (ok: bool, m: Mem, ghost ids: seq<int>)
    requires Inv(e, m0, Settled) && AllValid(e, m0) && e.key != 0 && Lists(order, m0.info.Keys)
    ensures ok && Inv(e, m, Settled) && SameManager(m0, ids, m)
  {
    hide Inv, AllValid, Wrote, SameManager, Lists, Consistent;
    ghost var news, trieds;
    var file;
    file, news, trieds := Serialize(e, m0, order);
    WroteSameKey(e, m0, news, trieds, file);
    assert e.(key := file.key) == e;
    ok, m := Unserialize(e, file, m0, news, trieds);
    ids := news + trieds;
  }

  lemma WroteSameKey(e: Env, m0: Mem, news: seq<int>, trieds: seq<int>, file: File)
    requires Wrote(e, m0, news, trieds, file)
    ensures file.key == e.key
  {}
}
