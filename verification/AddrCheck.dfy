/** The address manager's own consistency check, and exactly what it does and does not detect. */
module AddrCheck {
  import opened Collections
  import opened AddrTypes
  import opened AddrSteps
  import AddrMan

  /** The error found in one entry, or zero. */
  function EntryCode(m: Mem, id: int): int
    requires id in m.info
  {
    var info := m.info[id];
    if info.inTried && info.lastSuccess == 0 then -1
    else if info.inTried && info.refCount != 0 then -2
    else if !info.inTried && (info.refCount < 0 || info.refCount > NEW_BUCKETS_PER_ADDRESS) then -3
    else if !info.inTried && info.refCount == 0 then -4
    else if info.service !in m.addr || m.addr[info.service] != id then -5
    else if info.randomPos < 0 || info.randomPos >= |m.random| || m.random[info.randomPos] != id then -14
    else if info.lastTry < 0 then -6
    else if info.lastSuccess < 0 then -8
    else 0
  }

  // ---------- What the errors mean ----------

  /** What is wrong with an entry. */
  ghost predicate EntryBlamed(m: Mem, id: int, err: int) {
    && id in m.info
    && var info := m.info[id];
    || (err == -1 && info.inTried && info.lastSuccess == 0)
    || (err == -2 && info.inTried && info.refCount != 0)
    || (err == -3 && !info.inTried && !(0 <= info.refCount <= 8))
    || (err == -4 && !info.inTried && info.refCount == 0)
    || (err == -5 && !(info.service in m.addr && m.addr[info.service] == id))
    || (err == -14 && !(0 <= info.randomPos < |m.random| && m.random[info.randomPos] == id))
    || (err == -6 && info.lastTry < 0)
    || (err == -8 && info.lastSuccess < 0)
  }

  /** What is wrong with a slot of the tried table: its entry is not a tried one, has another slot too, or belongs elsewhere. */
  ghost predicate TriedBlamed(e: Env, m: Mem, s: Slot, err: int) {
    && s in m.triedTable && m.triedTable[s] != EMPTY
    && var id := m.triedTable[s];
    || (err == -11 && (id !in TriedIds(m) || exists t :: t in m.triedTable && t != s && m.triedTable[t] == id))
    || (err == -17 && id in m.info && TriedSlot(e, m.info[id].service).bucket != s.bucket)
    || (err == -18 && id in m.info && TriedSlot(e, m.info[id].service).bucket == s.bucket && TriedSlot(e, m.info[id].service) != s)
  }

  /** What is wrong with a slot of the new table: its entry is not a new one, has slots enough without it, or belongs elsewhere. */
  ghost predicate NewBlamed(e: Env, m: Mem, s: Slot, err: int) {
    && s in m.newTable && m.newTable[s] != EMPTY
    && var id := m.newTable[s];
    || (err == -12 && (id !in NewIds(m, {}) || |Holders(e, m.newTable, m.info[id].service, id)| >= m.info[id].refCount))
    || (err == -19 && id in m.info && NewSlot(e, s.bucket, m.info[id].service) != s)
  }

  /** What is wrong when the check reports an error. */
  ghost predicate Blamed(e: Env, m: Mem, err: int) {
    || (err == -7 && |m.random| != m.nTried + m.nNew)
    || (exists id :: EntryBlamed(m, id, err))
    || (err == -9 && |TriedIds(m)| != m.nTried) || (err == -10 && |NewIds(m, {})| != m.nNew)
    || (exists s :: TriedBlamed(e, m, s, err))
    || (exists s :: NewBlamed(e, m, s, err))
    || (err == -13 && exists id :: id in TriedIds(m) && forall s :: s in m.triedTable ==> m.triedTable[s] != id)
    || (err == -15 && exists id :: id in NewIds(m, {}) && |Holders(e, m.newTable, m.info[id].service, id)| < m.info[id].refCount)
    || (err == -16 && e.key == 0)
    || (err == -20 && |m.counts| < |Networks(e, m)|) || (err == -21 && !CountersExact(e, m))
  }

  lemma EntryCodeBlames(m: Mem, id: int)
    requires id in m.info && EntryCode(m, id) != 0
    ensures EntryBlamed(m, id, EntryCode(m, id))
  {
  }

  lemma TriedCodeBlames(e: Env, m: Mem, n: nat, i: nat, left: set<int>)
    requires Slot(n, i) in m.triedTable && left == TriedIds(m) - FoundTried(m, n, i)
    requires TriedSlotCode(e, m, left, Slot(n, i)) != 0
    ensures TriedBlamed(e, m, Slot(n, i), TriedSlotCode(e, m, left, Slot(n, i)))
  {
    var s, id := Slot(n, i), m.triedTable[Slot(n, i)];
    if id in FoundTried(m, n, i) {
      var t :| t in m.triedTable && Before(t, n, i) && m.triedTable[t] == id;
      assert t != s;
    }
  }

  lemma NewCodeBlames(e: Env, m: Mem, n: nat, i: nat, left: map<int, int>)
    requires Slot(n, i) in m.newTable && Remaining(e, m, left, n, i) && NewSlotCode(e, m, left, Slot(n, i)) != 0
    ensures NewBlamed(e, m, Slot(n, i), NewSlotCode(e, m, left, Slot(n, i)))
  {
    var id := m.newTable[Slot(n, i)];
    if id !in left && id in NewIds(m, {}) {
      SubsetSize(HeldBefore(e, m, m.info[id].service, id, n, i), Holders(e, m.newTable, m.info[id].service, id));
    }
  }

  ghost function Networks(e: Env, m: Mem): set<Network> {
    set id | id in m.info :: NetworkOf(e, m, id)
  }

  /**
    What the check establishes. It is weaker than the invariant in two ways: the index may hold addresses
    that no entry has, and a network may lack its counter as long as the map of counters is large enough.
   */
  ghost predicate Consistent(e: Env, m: Mem) {
    && e.key != 0
    && (forall id :: id in m.info ==> m.info[id].service in m.addr && m.addr[m.info[id].service] == id)
    && RandomOk(m)
    && NewOk(e, m)
    && TriedOk(e, m)
    && RangeOk(m, {})
    && m.nNew == |NewIds(m, {})| && m.nTried == |TriedIds(m)|
    && CountersExact(e, m)
    && |Networks(e, m)| <= |m.counts|
  }

  ghost predicate CountersExact(e: Env, m: Mem) {
    forall n :: n in m.counts ==>
      m.counts[n] == Count(|OfNetwork(e, m, NewIds(m, {}), n)|, |OfNetwork(e, m, TriedIds(m), n)|)
  }

  lemma EntryFine(e: Env, m: Mem, id: int)
    requires Consistent(e, m) && id in m.info && EMPTY !in m.info
    ensures EntryCode(m, id) == 0
  {
    hide CountersExact;
    if m.info[id].inTried {
      NotHeld(e, m, id);
    }
  }

  lemma NotHeld(e: Env, m: Mem, id: int)
    requires NewOk(e, m) && id in m.info && m.info[id].inTried && id != EMPTY
    ensures m.info[id].refCount == 0
  {
    assert Holders(e, m.newTable, m.info[id].service, id) == {};
  }

  /** First pass: every entry on its own, collecting the tried ids, the reference counts and the network counts. */
  method CheckEntries(e: Env, m: Mem) returns (err: int, tried: set<int>, refs: map<int, int>, counts: map<Network, Count>)
    requires EMPTY !in m.info
    ensures Consistent(e, m) ==> err == 0
    ensures err != 0 ==> exists id :: EntryBlamed(m, id, err)
    ensures err == 0 ==>
      && (forall id :: id in m.info ==> EntryCode(m, id) == 0)
      && tried == TriedIds(m)
      && refs == (map id | id in NewIds(m, {}) :: m.info[id].refCount)
      && CountsOk(e, m.(nNew := |refs|, nTried := |tried|, counts := counts), {})
      && counts.Keys == Networks(e, m)
  {
    hide Consistent, CountsOk, EntryCode, Collected, EntryBlamed;
    err, tried, refs, counts := 0, {}, map[], map[];
    var rest := m.info;
    ghost var done := m.(info := map[], nNew := 0, nTried := 0, counts := map[]);
    CollectNone(e, m, done);
    while rest != map[]
      invariant rest.Keys <= m.info.Keys && done.info.Keys == m.info.Keys - rest.Keys
      invariant Collected(e, m, done, tried, refs, counts)
      decreases |rest|
    {
      var id := AnyOf(rest.Keys);
      err := EntryCode(m, id);
      if err != 0 {
        EntryCodeBlames(m, id);
        if Consistent(e, m) {
          EntryFine(e, m, id);
        }
        return;
      }
      var info := m.info[id];
      CollectStep(e, m, done, tried, refs, counts, id);
      done := Counted(e, done, id, info);
      if info.inTried {
        tried := tried + {id};
        counts := Bump(counts, e.network(info.service.addr), 0, 1);
      } else {
        refs := refs[id := info.refCount];
        counts := Bump(counts, e.network(info.service.addr), 1, 0);
      }
      rest := rest - {id};
    }
    CollectAll(e, m, done, tried, refs, counts);
  }

  /** What the first pass has gathered from the entries in `done`. */
  ghost predicate Collected(e: Env, m: Mem, done: Mem, tried: set<int>, refs: map<int, int>, counts: map<Network, Count>) {
    && (forall id :: id in done.info ==> id in m.info && done.info[id] == m.info[id] && EntryCode(m, id) == 0)
    && tried == TriedIds(done)
    && refs == (map id | id in NewIds(done, {}) :: done.info[id].refCount)
    && done.counts == counts && CountsOk(e, done, {})
    && counts.Keys == Networks(e, done)
  }

  ghost function Counted(e: Env, done: Mem, id: int, info: AddrInfo): Mem {
    done.(info := done.info[id := info],
          nNew := done.nNew + One(!info.inTried),
          nTried := done.nTried + One(info.inTried),
          counts := Bump(done.counts, e.network(info.service.addr), One(!info.inTried), One(info.inTried)))
  }

  lemma CollectNone(e: Env, m: Mem, done: Mem)
    requires done == m.(info := map[], nNew := 0, nTried := 0, counts := map[])
    ensures Collected(e, m, done, {}, map[], map[])
  {
    NothingCounted(e, done);
  }

  lemma CollectStep(e: Env, m: Mem, done: Mem, tried: set<int>, refs: map<int, int>, counts: map<Network, Count>, id: int)
    requires Collected(e, m, done, tried, refs, counts) && id in m.info && id !in done.info && EntryCode(m, id) == 0
    ensures var info := m.info[id]; var n := e.network(info.service.addr); var done' := Counted(e, done, id, info);
      if info.inTried then Collected(e, m, done', tried + {id}, refs, Bump(counts, n, 0, 1))
      else Collected(e, m, done', tried, refs[id := info.refCount], Bump(counts, n, 1, 0))
  {
    hide CountsOk, EntryCode, Networks, NewIds, TriedIds;
    var info := m.info[id];
    var done' := Counted(e, done, id, info);
    IdsStep(e, done, id, info);
    CountedStep(e, done, id, info);
    NetworksStep(e, done, id, info);
    RefsStep(done, done', id, info);
  }

  lemma NetworksStep(e: Env, done: Mem, id: int, info: AddrInfo)
    requires id !in done.info
    ensures Networks(e, Counted(e, done, id, info)) == Networks(e, done) + {e.network(info.service.addr)}
  {
    var done' := Counted(e, done, id, info);
    forall n ensures n in Networks(e, done') <==> n in Networks(e, done) + {e.network(info.service.addr)} {
      if n in Networks(e, done) {
        var k :| k in done.info && NetworkOf(e, done, k) == n;
        assert k in done'.info && NetworkOf(e, done', k) == n;
      }
      assert id in done'.info && NetworkOf(e, done', id) == e.network(info.service.addr);
    }
  }

  lemma IdsStep(e: Env, done: Mem, id: int, info: AddrInfo)
    requires id !in done.info
    ensures var done' := Counted(e, done, id, info);
      && NewIds(done', {}) == (if info.inTried then NewIds(done, {}) else NewIds(done, {}) + {id})
      && TriedIds(done') == (if info.inTried then TriedIds(done) + {id} else TriedIds(done))
  {
  }

  lemma CountedStep(e: Env, done: Mem, id: int, info: AddrInfo)
    requires id !in done.info && CountsOk(e, done, {})
    ensures CountsOk(e, Counted(e, done, id, info), {})
  {
    hide CountsOk;
    CountsStep(e, done, Counted(e, done, id, info), {}, {}, id, info.service);
  }

  lemma RefsStep(done: Mem, done': Mem, id: int, info: AddrInfo)
    requires id !in done.info && done'.info == done.info[id := info]
    ensures (map k | k in NewIds(done', {}) :: done'.info[k].refCount) ==
      (if info.inTried then map k | k in NewIds(done, {}) :: done.info[k].refCount
       else (map k | k in NewIds(done, {}) :: done.info[k].refCount)[id := info.refCount])
  {
  }

  lemma SameEntries(a: map<int, AddrInfo>, b: map<int, AddrInfo>)
    requires a.Keys == b.Keys && forall id :: id in a ==> id in b && a[id] == b[id]
    ensures a == b
  {
    assert forall id :: id in a.Keys ==> a[id] == b[id];
    assert a.Items <= b.Items;
  }

  lemma CollectAll(e: Env, m: Mem, done: Mem, tried: set<int>, refs: map<int, int>, counts: map<Network, Count>)
    requires Collected(e, m, done, tried, refs, counts) && done.info.Keys == m.info.Keys
    ensures forall id :: id in m.info ==> EntryCode(m, id) == 0
    ensures tried == TriedIds(m) && refs == (map id | id in NewIds(m, {}) :: m.info[id].refCount)
    ensures CountsOk(e, m.(nNew := |refs|, nTried := |tried|, counts := counts), {})
    ensures counts.Keys == Networks(e, m)
  {
    hide CountsOk, EntryCode;
    SameEntries(done.info, m.info);
    CountedEntries(e, m, done, tried, refs, counts);
  }

  lemma NothingCounted(e: Env, m: Mem)
    requires m.info == map[] && m.nNew == 0 && m.nTried == 0 && m.counts == map[]
    ensures CountsOk(e, m, {}) && TriedIds(m) == {} && NewIds(m, {}) == {}
  {
    assert NewIds(m, {}) == {} && TriedIds(m) == {};
    forall n ensures OfNetwork(e, m, {}, n) == {} {
    }
  }

  lemma CountedEntries(e: Env, m: Mem, done: Mem, tried: set<int>, refs: map<int, int>, counts: map<Network, Count>)
    requires done.info == m.info && CountsOk(e, done, {}) && done.counts == counts
    requires tried == TriedIds(done) && refs.Keys == NewIds(done, {})
    ensures CountsOk(e, m.(nNew := |refs|, nTried := |tried|, counts := counts), {})
    ensures tried == TriedIds(m) && NewIds(m, {}) == NewIds(done, {})
  {
    assert TriedIds(m) == TriedIds(done) && NewIds(m, {}) == NewIds(done, {});
    assert |refs| == |refs.Keys|;
    CountsSame(e, done, m.(nNew := |refs|, nTried := |tried|, counts := counts), {});
  }

  // ---------- The tables ----------

  /** Slots visited before slot (n, i) by the nested loops. */
  predicate Before(s: Slot, n: nat, i: nat) {
    s.bucket < n || (s.bucket == n && s.pos < i)
  }

  ghost predicate TablesTotal(m: Mem) {
    && (forall s :: s in m.newTable <==> InNewTable(s))
    && (forall s :: s in m.triedTable <==> InTriedTable(s))
  }

  /** Ids found so far in the tried table. */
  ghost function FoundTried(m: Mem, n: nat, i: nat): set<int> {
    set s | s in m.triedTable && Before(s, n, i) && m.triedTable[s] != EMPTY :: m.triedTable[s]
  }

  ghost predicate TriedSlotFine(e: Env, m: Mem, s: Slot) {
    s in m.triedTable && m.triedTable[s] != EMPTY ==>
      && m.triedTable[s] in TriedIds(m)
      && s == TriedSlot(e, m.info[m.triedTable[s]].service)
  }

  lemma FoundTriedStep(m: Mem, n: nat, i: nat)
    requires Slot(n, i) in m.triedTable
    ensures FoundTried(m, n, i + 1) == FoundTried(m, n, i) + if m.triedTable[Slot(n, i)] == EMPTY then {} else {m.triedTable[Slot(n, i)]}
  {
    forall s ensures Before(s, n, i + 1) <==> Before(s, n, i) || s == Slot(n, i) {
    }
  }

  lemma FoundTriedRow(m: Mem, n: nat)
    requires TablesTotal(m)
    ensures FoundTried(m, n + 1, 0) == FoundTried(m, n, BUCKET_SIZE)
  {
    forall s | s in m.triedTable ensures Before(s, n + 1, 0) <==> Before(s, n, BUCKET_SIZE) {
    }
  }

  /** With the invariant, an id found in its slot was not found before. */
  lemma TriedFoundOnce(e: Env, m: Mem, n: nat, i: nat)
    requires TriedOk(e, m) && Slot(n, i) in m.triedTable && m.triedTable[Slot(n, i)] != EMPTY
    ensures m.triedTable[Slot(n, i)] in TriedIds(m) && m.triedTable[Slot(n, i)] !in FoundTried(m, n, i)
    ensures TriedSlotFine(e, m, Slot(n, i))
  {
  }

  /** Second pass: each tried slot holds a tried id that belongs there, and takes it off the list. */
  method CheckTried(e: Env, m: Mem, tried: set<int>) returns (err: int, left: set<int>)
    requires TablesTotal(m) && tried == TriedIds(m)
    ensures TriedOk(e, m) ==> err == 0
    ensures err != 0 ==> exists s :: TriedBlamed(e, m, s, err)
    ensures err == 0 ==> left == tried - FoundTried(m, TRIED_BUCKET_COUNT, 0)
    ensures err == 0 ==> forall s :: s in m.triedTable ==> TriedSlotFine(e, m, s)
  {
    hide TriedOk, TriedSlotFine, FoundTried, TriedSlot, TriedBlamed;
    err, left := 0, tried;
    var n := 0;
    NothingFound(m);
    while n < TRIED_BUCKET_COUNT
      invariant 0 <= n <= TRIED_BUCKET_COUNT && left == tried - FoundTried(m, n, 0)
      invariant forall s :: s in m.triedTable && Before(s, n, 0) ==> TriedSlotFine(e, m, s)
    {
      var i := 0;
      while i < BUCKET_SIZE
        invariant 0 <= i <= BUCKET_SIZE && left == tried - FoundTried(m, n, i)
        invariant forall s :: s in m.triedTable && Before(s, n, i) ==> TriedSlotFine(e, m, s)
      {
        var s := Slot(n, i);
        FoundTriedStep(m, n, i);
        err := TriedSlotCode(e, m, left, s);
        if err != 0 {
          TriedCodeBlames(e, m, n, i, left);
          if TriedOk(e, m) {
            TriedFoundOnce(e, m, n, i);
            TriedCodeFine(e, m, left, s);
          }
          return;
        }
        TriedCodeMeans(e, m, tried, left, s);
        if m.triedTable[s] != EMPTY {
          left := left - {m.triedTable[s]};
        }
        i := i + 1;
      }
      FoundTriedRow(m, n);
      n := n + 1;
    }
  }

  function TriedSlotCode(e: Env, m: Mem, left: set<int>, s: Slot): int
    requires s in m.triedTable
  {
    var id := m.triedTable[s];
    if id == EMPTY then 0
    else if id !in left then -11
    else if id !in m.info || TriedBucket(e, m.info[id].service) != s.bucket then -17
    else if BucketPosition(e, false, s.bucket, m.info[id].service) != s.pos then -18
    else 0
  }

  lemma TriedCodeFine(e: Env, m: Mem, left: set<int>, s: Slot)
    requires s in m.triedTable && (m.triedTable[s] != EMPTY ==> m.triedTable[s] in left) && TriedSlotFine(e, m, s)
    ensures TriedSlotCode(e, m, left, s) == 0
  {
  }

  lemma TriedCodeMeans(e: Env, m: Mem, tried: set<int>, left: set<int>, s: Slot)
    requires s in m.triedTable && left <= tried == TriedIds(m) && TriedSlotCode(e, m, left, s) == 0
    ensures TriedSlotFine(e, m, s)
  {
  }

  lemma NothingFound(m: Mem)
    ensures FoundTried(m, 0, 0) == {}
  {
  }

  /** Buckets, among the slots visited so far, in which an id is held. */
  ghost function HeldBefore(e: Env, m: Mem, s: Service, id: int, n: nat, i: nat): set<nat> {
    set b | b in Holders(e, m.newTable, s, id) && Before(NewSlot(e, b, s), n, i)
  }

  ghost predicate NewSlotFine(e: Env, m: Mem, s: Slot) {
    s in m.newTable && m.newTable[s] != EMPTY ==>
      && m.newTable[s] in NewIds(m, {})
      && s == NewSlot(e, s.bucket, m.info[m.newTable[s]].service)
  }

  /** The references of the new ids that have not been met yet; an id whose references are used up is gone. */
  ghost predicate Remaining(e: Env, m: Mem, left: map<int, int>, n: nat, i: nat) {
    && left.Keys <= NewIds(m, {})
    && (forall id :: id in NewIds(m, {}) ==>
          var rem := m.info[id].refCount - |HeldBefore(e, m, m.info[id].service, id, n, i)|;
          rem >= 0 && (if rem == 0 then id !in left else id in left && left[id] == rem))
  }

  function NewSlotCode(e: Env, m: Mem, left: map<int, int>, s: Slot): int
    requires s in m.newTable
  {
    var id := m.newTable[s];
    if id == EMPTY then 0
    else if id !in left then -12
    else if id !in m.info || BucketPosition(e, true, s.bucket, m.info[id].service) != s.pos then -19
    else 0
  }

  /** One slot later: the id in it, if any, has one more reference met. */
  lemma HeldStep(e: Env, m: Mem, id: int, n: nat, i: nat)
    requires TablesTotal(m) && id in m.info && id != EMPTY && Slot(n, i) in m.newTable && NewSlotFine(e, m, Slot(n, i))
    ensures var s := m.info[id].service;
      HeldBefore(e, m, s, id, n, i + 1) ==
      HeldBefore(e, m, s, id, n, i) + if m.newTable[Slot(n, i)] == id then {n} else {}
    ensures n !in HeldBefore(e, m, m.info[id].service, id, n, i) || m.newTable[Slot(n, i)] != id
  {
    forall b: nat ensures Before(NewSlot(e, b, m.info[id].service), n, i + 1) <==>
      Before(NewSlot(e, b, m.info[id].service), n, i) || NewSlot(e, b, m.info[id].service) == Slot(n, i)
    {
    }
  }

  lemma RemainingStep(e: Env, m: Mem, left: map<int, int>, n: nat, i: nat)
    requires TablesTotal(m) && EMPTY !in m.info && Slot(n, i) in m.newTable
    requires Remaining(e, m, left, n, i) && NewSlotCode(e, m, left, Slot(n, i)) == 0
    ensures NewSlotFine(e, m, Slot(n, i))
    ensures Remaining(e, m, Used(left, m.newTable[Slot(n, i)]), n, i + 1)
  {
    var found := m.newTable[Slot(n, i)];
    var left' := Used(left, found);
    forall id | id in NewIds(m, {})
      ensures var rem := m.info[id].refCount - |HeldBefore(e, m, m.info[id].service, id, n, i + 1)|;
        rem >= 0 && (if rem == 0 then id !in left' else id in left' && left'[id] == rem)
    {
      HeldStep(e, m, id, n, i);
    }
  }

  /** Counts one reference off. */
  function Used(left: map<int, int>, id: int): map<int, int> {
    if id !in left then left
    else if left[id] == 1 then left - {id}
    else left[id := left[id] - 1]
  }

  /** With the invariant, the id in a slot still has a reference to be met. */
  lemma NewCodeFine(e: Env, m: Mem, left: map<int, int>, n: nat, i: nat)
    requires NewOk(e, m) && Remaining(e, m, left, n, i) && Slot(n, i) in m.newTable && EMPTY !in m.info
    ensures NewSlotCode(e, m, left, Slot(n, i)) == 0
  {
    var id := m.newTable[Slot(n, i)];
    if id != EMPTY {
      HoldersAre(e, m, id, Slot(n, i));
      var held := HeldBefore(e, m, m.info[id].service, id, n, i);
      assert held <= Holders(e, m.newTable, m.info[id].service, id) - {n};
      SubsetSize(held, Holders(e, m.newTable, m.info[id].service, id) - {n});
    }
  }

  lemma {:induction false} SubsetSize(a: set<nat>, b: set<nat>)
    requires a <= b
    ensures |a| <= |b|
  {
    assert b == a + (b - a);
  }

  lemma RemainingStart(e: Env, m: Mem, refs: map<int, int>)
    requires refs == map id | id in NewIds(m, {}) :: m.info[id].refCount
    requires forall id :: id in NewIds(m, {}) ==> m.info[id].refCount >= 1
    ensures Remaining(e, m, refs, 0, 0)
  {
    forall id | id in NewIds(m, {}) ensures HeldBefore(e, m, m.info[id].service, id, 0, 0) == {} {
    }
  }

  lemma RemainingRow(e: Env, m: Mem, left: map<int, int>, n: nat)
    requires Remaining(e, m, left, n, BUCKET_SIZE)
    ensures Remaining(e, m, left, n + 1, 0)
  {
    forall id | id in NewIds(m, {})
      ensures HeldBefore(e, m, m.info[id].service, id, n + 1, 0) == HeldBefore(e, m, m.info[id].service, id, n, BUCKET_SIZE)
    {
    }
  }

  /** Third pass: each new slot holds a new id that belongs there, and uses up one of its references. */
  method CheckNew(e: Env, m: Mem, refs: map<int, int>) returns (err: int, left: map<int, int>)
    requires TablesTotal(m) && EMPTY !in m.info
    requires refs == map id | id in NewIds(m, {}) :: m.info[id].refCount
    requires forall id :: id in NewIds(m, {}) ==> m.info[id].refCount >= 1
    ensures NewOk(e, m) ==> err == 0
    ensures err != 0 ==> exists s :: NewBlamed(e, m, s, err)
    ensures err == 0 ==> Remaining(e, m, left, NEW_BUCKET_COUNT, 0)
    ensures err == 0 ==> forall s :: s in m.newTable ==> NewSlotFine(e, m, s)
  {
    hide NewOk, NewSlotFine, Remaining, NewSlot, NewSlotCode, Used, NewBlamed;
    err, left := 0, refs;
    var n := 0;
    RemainingStart(e, m, refs);
    while n < NEW_BUCKET_COUNT
      invariant 0 <= n <= NEW_BUCKET_COUNT && Remaining(e, m, left, n, 0)
      invariant forall s :: s in m.newTable && Before(s, n, 0) ==> NewSlotFine(e, m, s)
    {
      var i := 0;
      while i < BUCKET_SIZE
        invariant 0 <= i <= BUCKET_SIZE && Remaining(e, m, left, n, i)
        invariant forall s :: s in m.newTable && Before(s, n, i) ==> NewSlotFine(e, m, s)
      {
        err := NewSlotCode(e, m, left, Slot(n, i));
        if err != 0 {
          NewCodeBlames(e, m, n, i, left);
          if NewOk(e, m) {
            NewCodeFine(e, m, left, n, i);
          }
          return;
        }
        RemainingStep(e, m, left, n, i);
        left := Used(left, m.newTable[Slot(n, i)]);
        i := i + 1;
      }
      RemainingRow(e, m, left, n);
      n := n + 1;
    }
  }

  // ---------- The whole check ----------

  /** Last pass: the kept counters against the recomputed ones. */
  method CheckCounts(kept: map<Network, Count>, local: map<Network, Count>) returns (err: int)
    ensures err == 0 <==> |local| <= |kept| && forall n :: n in kept ==> kept[n] == CountOf(local, n)
    ensures err != 0 ==> (err == -20 && |kept| < |local|) || (err == -21 && exists n :: n in kept && kept[n] != CountOf(local, n))
  {
    err := 0;
    if |kept| < |local| {
      return -20;
    }
    var rest := kept.Keys;
    while rest != {}
      invariant rest <= kept.Keys
      invariant forall n :: n in kept && n !in rest ==> kept[n] == CountOf(local, n)
      decreases |rest|
    {
      var n := AnyOf(rest);
      if CountOf(local, n) != kept[n] {
        return -21;
      }
      rest := rest - {n};
    }
  }

  lemma SizesAdd(m: Mem)
    requires RandomOk(m)
    ensures |m.random| == |NewIds(m, {})| + |TriedIds(m)|
  {
    AddrMan.RandomCount(m);
    assert m.info.Keys == NewIds(m, {}) + TriedIds(m);
  }

  lemma RandomFilled(m: Mem)
    requires forall id :: id in m.info ==> 0 <= m.info[id].randomPos < |m.random| && m.random[m.info[id].randomPos] == id
    requires |m.random| == |m.info.Keys|
    ensures RandomOk(m)
  {
    forall id | id in m.info ensures id in m.random {
      assert m.random[m.info[id].randomPos] == id;
    }
    assert m.info.Keys <= Elements(m.random);
    ElementsAtMost(m.random);
    ElementsCount(m.random);
    SameSize(m.info.Keys, Elements(m.random));
    forall i | 0 <= i < |m.random| ensures m.random[i] in m.info && m.info[m.random[i]].randomPos == i {
      assert m.random[i] in Elements(m.random);
      assert m.random[i] in m.info.Keys;
      var p := m.info[m.random[i]].randomPos;
      assert m.random[p] == m.random[i] && Distinct(m.random);
    }
  }

  lemma SameSize(a: set<int>, b: set<int>)
    requires a <= b && |b| <= |a|
    ensures a == b
  {
    assert b == a + (b - a);
    assert |b| == |a| + |b - a|;
  }

  lemma EntryMeans(m: Mem, id: int)
    requires id in m.info && EntryCode(m, id) == 0
    ensures m.info[id].service in m.addr && m.addr[m.info[id].service] == id
    ensures 0 <= m.info[id].randomPos < |m.random| && m.random[m.info[id].randomPos] == id
    ensures if m.info[id].inTried then m.info[id].refCount == 0 && m.info[id].lastSuccess > 0
            else 1 <= m.info[id].refCount <= NEW_BUCKETS_PER_ADDRESS
    ensures m.info[id].lastTry >= 0 && m.info[id].lastSuccess >= 0
  {
  }

  /** What the first pass and the totals say when they find no error. */
  lemma EntriesMean(m: Mem)
    requires forall id :: id in m.info ==> EntryCode(m, id) == 0
    requires |m.random| == m.nTried + m.nNew && m.nNew == |NewIds(m, {})| && m.nTried == |TriedIds(m)|
    ensures RandomOk(m) && RangeOk(m, {})
    ensures forall id :: id in m.info ==> m.info[id].service in m.addr && m.addr[m.info[id].service] == id
    ensures forall id :: id in m.info ==> if m.info[id].inTried then m.info[id].refCount == 0 else m.info[id].refCount >= 1
  {
    hide EntryCode, RandomOk;
    assert |m.random| == |m.info.Keys| by {
      assert m.info.Keys == NewIds(m, {}) + TriedIds(m);
    }
    forall id | id in m.info
      ensures m.info[id].service in m.addr && m.addr[m.info[id].service] == id
      ensures 0 <= m.info[id].randomPos < |m.random| && m.random[m.info[id].randomPos] == id
      ensures if m.info[id].inTried then m.info[id].refCount == 0 && m.info[id].lastSuccess > 0
              else 1 <= m.info[id].refCount <= NEW_BUCKETS_PER_ADDRESS
      ensures m.info[id].lastTry >= 0 && m.info[id].lastSuccess >= 0
    {
      EntryMeans(m, id);
    }
    RandomFilled(m);
  }

  lemma TriedVerdict(e: Env, m: Mem, left: set<int>)
    requires TablesTotal(m) && EMPTY !in m.info
    requires forall s :: s in m.triedTable ==> TriedSlotFine(e, m, s)
    requires left == TriedIds(m) - FoundTried(m, TRIED_BUCKET_COUNT, 0)
    ensures left == {} <==> TriedOk(e, m)
  {
    hide TriedSlot;
    if left == {} {
      forall id | id in m.info && m.info[id].inTried
        ensures TriedSlot(e, m.info[id].service) in m.triedTable && m.triedTable[TriedSlot(e, m.info[id].service)] == id
      {
        assert id in TriedIds(m) && id !in left;
        var s :| s in m.triedTable && m.triedTable[s] == id;
        assert TriedSlotFine(e, m, s);
      }
      assert forall s :: s in m.triedTable ==> TriedSlotFine(e, m, s);
    }
    if TriedOk(e, m) {
      forall id | id in TriedIds(m) ensures id in FoundTried(m, TRIED_BUCKET_COUNT, 0) {
        assert m.triedTable[TriedSlot(e, m.info[id].service)] == id;
      }
    }
  }

  lemma AllHeld(e: Env, m: Mem, s: Service, id: int)
    requires TablesTotal(m)
    ensures HeldBefore(e, m, s, id, NEW_BUCKET_COUNT, 0) == Holders(e, m.newTable, s, id)
  {
  }

  lemma NewVerdict(e: Env, m: Mem, left: map<int, int>)
    requires TablesTotal(m) && EMPTY !in m.info
    requires forall s :: s in m.newTable ==> NewSlotFine(e, m, s)
    requires Remaining(e, m, left, NEW_BUCKET_COUNT, 0)
    requires forall id :: id in m.info && m.info[id].inTried ==> m.info[id].refCount == 0
    ensures left == map[] <==> NewOk(e, m)
  {
    hide NewSlot;
    forall id | id in m.info ensures HeldBefore(e, m, m.info[id].service, id, NEW_BUCKET_COUNT, 0) == Holders(e, m.newTable, m.info[id].service, id) {
      AllHeld(e, m, m.info[id].service, id);
    }
    if left == map[] {
      forall id | id in m.info ensures m.info[id].refCount == |Holders(e, m.newTable, m.info[id].service, id)| {
        if m.info[id].inTried {
          TriedNotHeld(e, m, id);
        } else {
          assert id in NewIds(m, {});
        }
      }
      SlotsHoldNew(e, m);
    }
    if NewOk(e, m) {
      assert left.Keys == {};
    }
  }

  lemma SlotsHoldNew(e: Env, m: Mem)
    requires forall s :: s in m.newTable ==> NewSlotFine(e, m, s)
    ensures forall s :: s in m.newTable && m.newTable[s] != EMPTY ==>
      m.newTable[s] in m.info && !m.info[m.newTable[s]].inTried && s == NewSlot(e, s.bucket, m.info[m.newTable[s]].service)
  {
  }

  lemma TriedNotHeld(e: Env, m: Mem, id: int)
    requires forall s :: s in m.newTable ==> NewSlotFine(e, m, s)
    requires id in m.info && m.info[id].inTried && id != EMPTY
    ensures Holders(e, m.newTable, m.info[id].service, id) == {}
  {
    forall s | s in m.newTable ensures m.newTable[s] != id {
      assert NewSlotFine(e, m, s);
    }
  }

  lemma CountsVerdict(e: Env, m: Mem, counts: map<Network, Count>)
    requires counts.Keys == Networks(e, m)
    requires CountsOk(e, m.(nNew := |NewIds(m, {})|, nTried := |TriedIds(m)|, counts := counts), {})
    ensures |counts| == |Networks(e, m)|
    ensures (forall n :: n in m.counts ==> m.counts[n] == CountOf(counts, n)) <==> CountersExact(e, m)
  {
    var m' := m.(nNew := |NewIds(m, {})|, nTried := |TriedIds(m)|, counts := counts);
    assert NewIds(m', {}) == NewIds(m, {}) && TriedIds(m') == TriedIds(m);
    assert |counts| == |counts.Keys|;
    forall n ensures CountOf(counts, n) == Count(|OfNetwork(e, m, NewIds(m, {}), n)|, |OfNetwork(e, m, TriedIds(m), n)|) {
      assert OfNetwork(e, m', NewIds(m', {}), n) == OfNetwork(e, m, NewIds(m, {}), n);
      assert OfNetwork(e, m', TriedIds(m'), n) == OfNetwork(e, m, TriedIds(m), n);
      assert CountOf(m'.counts, n) == Count(|OfNetwork(e, m', NewIds(m', {}), n)|, |OfNetwork(e, m', TriedIds(m'), n)|);
    }
  }

  /** A settled address manager passes its own check. */
  lemma InvConsistent(e: Env, m: Mem)
    requires Inv(e, m, Settled) && e.key != 0
    ensures Consistent(e, m)
  {
    hide NewOk, TriedOk, RandomOk, RangeOk, CountsOk, CountersExact, Networks;
    InvIndex(m);
    CountsMean(e, m);
  }

  lemma InvIndex(m: Mem)
    requires IndexOk(m)
    ensures forall id :: id in m.info ==> m.info[id].service in m.addr && m.addr[m.info[id].service] == id
  {
  }

  lemma CountsMean(e: Env, m: Mem)
    requires CountsOk(e, m, {})
    ensures m.nNew == |NewIds(m, {})| && m.nTried == |TriedIds(m)|
    ensures CountersExact(e, m) && |Networks(e, m)| <= |m.counts|
  {
    forall n | n in m.counts
      ensures m.counts[n] == Count(|OfNetwork(e, m, NewIds(m, {}), n)|, |OfNetwork(e, m, TriedIds(m), n)|)
    {
      assert CountOf(m.counts, n) == Count(|OfNetwork(e, m, NewIds(m, {}), n)|, |OfNetwork(e, m, TriedIds(m), n)|);
    }
    forall id | id in m.info ensures NetworkOf(e, m, id) in m.counts.Keys {
      NetworkCounted(e, m, id);
    }
    var networks := Networks(e, m);
    assert m.counts.Keys == networks + (m.counts.Keys - networks);
    assert |m.counts| == |m.counts.Keys|;
  }

  lemma NetworkCounted(e: Env, m: Mem, id: int)
    requires CountsOk(e, m, {}) && id in m.info
    ensures NetworkOf(e, m, id) in m.counts
  {
    var n := NetworkOf(e, m, id);
    assert CountOf(m.counts, n) == Count(|OfNetwork(e, m, NewIds(m, {}), n)|, |OfNetwork(e, m, TriedIds(m), n)|);
    if m.info[id].inTried {
      assert id in OfNetwork(e, m, TriedIds(m), n);
    } else {
      assert id in OfNetwork(e, m, NewIds(m, {}), n);
    }
  }

  lemma NotFound(e: Env, m: Mem, left: set<int>)
    requires left == TriedIds(m) - FoundTried(m, TRIED_BUCKET_COUNT, 0) && left != {} && TablesTotal(m) && EMPTY !in m.info
    ensures Blamed(e, m, -13)
  {
    hide EntryBlamed, TriedBlamed, NewBlamed;
    var id := SomeOf(left);
    forall s | s in m.triedTable ensures m.triedTable[s] != id {
      assert Before(s, TRIED_BUCKET_COUNT, 0);
    }
  }

  lemma NotMet(e: Env, m: Mem, left: map<int, int>)
    requires Remaining(e, m, left, NEW_BUCKET_COUNT, 0) && left != map[] && TablesTotal(m)
    ensures Blamed(e, m, -15)
  {
    hide EntryBlamed, TriedBlamed, NewBlamed;
    assert left.Keys != {};
    var id := SomeOf(left.Keys);
    AllHeld(e, m, m.info[id].service, id);
  }

  /** The check reports no error exactly for the consistent states, and otherwise something that is wrong. */
  method CheckAddrman(e: Env, m: Mem) returns (err: int)
    requires TablesTotal(m) && EMPTY !in m.info
    ensures err == 0 <==> Consistent(e, m)
    ensures err != 0 ==> Blamed(e, m, err)
  {
    hide NewOk, TriedOk, RandomOk, RangeOk, Remaining, NewSlotFine, TriedSlotFine, FoundTried, CountsOk, EntryCode, CountersExact;
    if Consistent(e, m) {
      SizesAdd(m);
    }
    if |m.random| != m.nTried + m.nNew {
      return -7;
    }
    var tried, refs, counts;
    err, tried, refs, counts := CheckEntries(e, m);
    if err != 0 {
      return;
    }
    assert |refs| == |refs.Keys| && refs.Keys == NewIds(m, {});
    if |tried| != m.nTried {
      return -9;
    }
    if |refs| != m.nNew {
      return -10;
    }
    EntriesMean(m);
    var leftTried, leftNew;
    err, leftTried := CheckTried(e, m, tried);
    if err != 0 {
      return;
    }
    err, leftNew := CheckNew(e, m, refs);
    if err != 0 {
      return;
    }
    TriedVerdict(e, m, leftTried);
    NewVerdict(e, m, leftNew);
    if leftTried != {} {
      NotFound(e, m, leftTried);
      return -13;
    }
    if leftNew != map[] {
      NotMet(e, m, leftNew);
      return -15;
    }
    if e.key == 0 {
      return -16;
    }
    CountsVerdict(e, m, counts);
    err := CheckCounts(m.counts, counts);
  }
}
