/** The address manager: tables of new and tried addresses, changed in place. */
module AddrMan {
  import opened Collections
  import opened Options
  import opened AddrTypes
  import opened AddrSteps

  /** An entry without the fields that say where it is stored. */
  function Statistics(info: AddrInfo): AddrInfo {
    info.(refCount := 0, inTried := false, randomPos := 0)
  }

  lemma SameStatistics(a: AddrInfo, b: AddrInfo)
    ensures Statistics(a) == Statistics(b) <==>
      && a.service == b.service && a.time == b.time && a.services == b.services && a.source == b.source
      && a.lastTry == b.lastTry && a.lastCountAttempt == b.lastCountAttempt
      && a.lastSuccess == b.lastSuccess && a.attempts == b.attempts
  {
  }

  /** Entries of `a` were in `b`, with the same address and statistics. */
  ghost predicate KeptFrom(a: map<int, AddrInfo>, b: map<int, AddrInfo>) {
    forall k :: k in a ==> k in b && Statistics(a[k]) == Statistics(b[k])
  }

  /** The index entries whose ids are still there. */
  function Surviving(index: map<Service, int>, info: map<int, AddrInfo>): map<Service, int> {
    map a | a in index && index[a] in info :: index[a]
  }

  /** No id is reused or renamed, and a tried slot that is filled stays filled. */
  ghost predicate Progress(m: Mem, m': Mem) {
    && m.idCount <= m'.idCount
    && (forall id :: id in m'.info ==> if id in m.info then m'.info[id].service == m.info[id].service else m.idCount <= id)
    && (forall s :: s in m.triedTable && m.triedTable[s] != EMPTY ==> s in m'.triedTable && m'.triedTable[s] != EMPTY)
  }

  lemma SameProgress(m: Mem)
    ensures Progress(m, m)
  {}

  lemma ProgressTransitive(a: Mem, b: Mem, c: Mem)
    requires Progress(a, b) && Progress(b, c)
    requires forall id :: id in a.info ==> id < a.idCount
    ensures Progress(a, c)
  {
  }

  /** An entry after an announcement of its address: the time is updated periodically, and services are added. */
  function Refreshed(info: AddrInfo, time: int, services: set<nat>, penalty: int, now: int): AddrInfo {
    var interval := if now - time < 24 * HOUR then 1 * HOUR else 24 * HOUR;
    info.(time := if info.time < time - interval - penalty then Penalized(time, penalty) else info.time,
          services := info.services + services)
  }

  function Penalized(time: int, penalty: int): int {
    if time - penalty > 0 then time - penalty else 0
  }

  /**
    What announcements can do to an entry: its time never falls and its services never shrink. The time moves only to an
    announced one that is more than an hour newer, less the penalty, and then it does unless the announcement is stale.
   */
  lemma RefreshedKeeps(info: AddrInfo, time: int, services: set<nat>, penalty: nat, now: int)
    ensures var r := Refreshed(info, time, services, penalty, now);
      && info.time <= r.time && info.services <= r.services && services <= r.services
      && Statistics(r) == Statistics(info.(time := r.time, services := r.services))
      && r.services <= info.services + services && r.refCount == info.refCount && r.inTried == info.inTried
      && (r.time != info.time ==> r.time == Penalized(time, penalty) && time - penalty > info.time + 3600)
      && (time - penalty > info.time + 86400 ==> r.time == Penalized(time, penalty))
      && (time - penalty > info.time + 3600 && time > now - 86400 ==> r.time == Penalized(time, penalty))
  {
  }

  /** A penalty takes seconds off a time, but never below the epoch. */
  lemma PenalizedExactly(time: int, penalty: nat)
    ensures 0 <= Penalized(time, penalty) && time - penalty <= Penalized(time, penalty)
    ensures Penalized(time, penalty) == 0 || Penalized(time, penalty) == time - penalty
  {
  }

  /** An entry has at most eight slots of the new table, a tried one has none, and old news earns no further slot. */
  lemma NewsExactly(info: AddrInfo, time: int, lucky: bool)
    ensures IsNews(info, time, lucky) <==> info.time < time && !info.inTried && info.refCount <= 7 && lucky
  {
  }

  /** Whether the announcement is news that may earn the entry another slot. */
  predicate IsNews(info: AddrInfo, time: int, lucky: bool) {
    info.time < time && !info.inTried && info.refCount < NEW_BUCKETS_PER_ADDRESS && lucky
  }

  /** The entry of an address that was not known. */
  function NewEntry(addr: Service, time: int, services: set<nat>, source: NetAddr, penalty: int): AddrInfo {
    AddrInfo(addr, Penalized(time, penalty), services, source, 0, 0, 0, 0, 0, false, 0)
  }

  /** Whether the entry `id` with so many references gets the slot. */
  ghost predicate GetsSlot(m: Mem, slot: Slot, id: int, refCount: int, now: int)
    requires slot in m.newTable
  {
    || m.newTable[slot] == EMPTY
    || (m.newTable[slot] != id && m.newTable[slot] in m.info &&
        (IsTerrible(m.info[m.newTable[slot]], now) || (m.info[m.newTable[slot]].refCount > 1 && refCount == 0)))
  }

  /** A slot has been emptied. Its entry has one reference less, and is gone with the last one. */
  ghost predicate Cleared(m: Mem, s: Slot, m': Mem)
    requires s in m.newTable
  {
    && m'.newTable == m.newTable[s := EMPTY] && m'.addr == Surviving(m.addr, m'.info)
    && (forall k :: k in m.info && k != m.newTable[s] ==> k in m'.info)
    && (forall k :: k in m'.info ==>
          && k in m.info
          && m'.info[k] == m.info[k].(
               randomPos := m'.info[k].randomPos,
               refCount := m.info[k].refCount - if k == m.newTable[s] then 1 else 0))
    && (m.newTable[s] in m.info && m.newTable[s] !in m'.info ==> m.info[m.newTable[s]].refCount == 1)
  }

  lemma ClearedNone(m: Mem, s: Slot)
    requires IndexOk(m) && s in m.newTable && m.newTable[s] == EMPTY
    ensures Cleared(m, s, m)
  {
    NoEmptyId(m);
    assert m.newTable == m.newTable[s := EMPTY];
    assert m.addr == Surviving(m.addr, m.info);
  }

  lemma ClearedOne(m: Mem, s: Slot, id: int, m': Mem)
    requires IndexOk(m) && s in m.newTable && m.newTable[s] == id && id in m.info
    requires m' == m.(newTable := m.newTable[s := EMPTY], info := m.info[id := m.info[id].(refCount := m.info[id].refCount - 1)])
    ensures Cleared(m, s, m')
  {
    assert m.addr == Surviving(m.addr, m'.info);
  }

  lemma ClearedLast(m: Mem, s: Slot, id: int, m1: Mem, m': Mem)
    requires IndexOk(m) && s in m.newTable && m.newTable[s] == id && id in m.info && m.info[id].refCount == 1
    requires m1 == m.(newTable := m.newTable[s := EMPTY], info := m.info[id := m.info[id].(refCount := 0)])
    requires SameButRandom(m'.info, m1.info - {id}) && m'.addr == m1.addr - {m.info[id].service} && m'.newTable == m1.newTable
    ensures Cleared(m, s, m')
  {
    forall k ensures k in m'.info <==> k in m.info && k != id {
      assert k in m'.info.Keys <==> k in (m1.info - {id}).Keys;
    }
    forall a ensures a in m'.addr <==> a in m.addr && m.addr[a] in m'.info {
    }
    assert m'.addr == Surviving(m.addr, m'.info);
  }

  lemma ClearedOther(m: Mem, s: Slot, m': Mem, id: int)
    requires s in m.newTable && Cleared(m, s, m') && id in m.info && id != m.newTable[s]
    ensures id in m'.info && m'.info[id] == m.info[id].(randomPos := m'.info[id].randomPos)
    ensures m'.newTable == m.newTable[s := EMPTY]
  {
  }

  /** After that, another entry has been put there. */
  lemma ClearedTaken(m: Mem, s: Slot, m1: Mem, id: int, m': Mem)
    requires s in m.newTable && Cleared(m, s, m1) && id in m.info && id in m1.info && m.newTable[s] != id
    requires m'.newTable == m1.newTable[s := id] && m'.addr == m1.addr
    requires id in m'.info && m'.info == m1.info[id := m'.info[id]] && Statistics(m'.info[id]) == Statistics(m1.info[id])
    ensures KeptFrom(m'.info, m.info) && m'.newTable == m.newTable[s := id] && m'.addr == Surviving(m.addr, m'.info)
    ensures forall k :: k in m.info && k != m.newTable[s] ==> k in m'.info
  {
    assert m'.info.Keys == m1.info.Keys;
    assert m'.addr == Surviving(m.addr, m'.info);
  }

  /** The entry `id` has got the slot if it was to get it; if not, and it has no other, it is gone. */
  ghost predicate Placed(m: Mem, id: int, slot: Slot, now: int, inserted: bool, m': Mem)
    requires id in m.info && slot in m.newTable
  {
    && KeptFrom(m'.info, m.info) && m'.addr == Surviving(m.addr, m'.info)
    && (inserted <==> GetsSlot(m, slot, id, m.info[id].refCount, now))
    && (inserted ==> id in m'.info && m'.newTable == m.newTable[slot := id])
    && (!inserted ==> m'.newTable == m.newTable)
    && (!inserted ==> SameButRandom(m'.info, if m.info[id].refCount == 0 then m.info - {id} else m.info))
    && (forall k :: k in m.info && k != id && k != m.newTable[slot] ==> k in m'.info)
  }

  lemma PlacedTaken(m: Mem, id: int, slot: Slot, now: int, m': Mem)
    requires id in m.info && slot in m.newTable && GetsSlot(m, slot, id, m.info[id].refCount, now)
    requires KeptFrom(m'.info, m.info) && id in m'.info && m'.newTable == m.newTable[slot := id]
    requires m'.addr == Surviving(m.addr, m'.info)
    requires forall k :: k in m.info && k != m.newTable[slot] ==> k in m'.info
    ensures Placed(m, id, slot, now, true, m')
  {
    hide Surviving;
  }

  lemma PlacedNowhere(m: Mem, id: int, slot: Slot, now: int, m': Mem)
    requires IndexOk(m) && id in m.info && slot in m.newTable && m.info[id].refCount == 0
    requires !GetsSlot(m, slot, id, 0, now) && m'.newTable == m.newTable
    requires SameButRandom(m'.info, m.info - {id}) && m'.addr == m.addr - {m.info[id].service}
    ensures Placed(m, id, slot, now, false, m')
  {
    forall k ensures k in m'.info <==> k in m.info && k != id {
      assert k in m'.info.Keys <==> k in (m.info - {id}).Keys;
    }
    assert m'.addr == Surviving(m.addr, m'.info);
  }

  lemma PlacedBefore(m: Mem, id: int, slot: Slot, now: int)
    requires IndexOk(m) && id in m.info && slot in m.newTable && m.info[id].refCount != 0
    requires !GetsSlot(m, slot, id, m.info[id].refCount, now)
    ensures Placed(m, id, slot, now, false, m)
  {
    assert m.addr == Surviving(m.addr, m.info);
  }

  /** What placing an entry comes to, when it was not there before: another address is lost at most with its slot. */
  lemma PlacedUnknown(m: Mem, m1: Mem, addr: Service, id: int, slot: Slot, now: int, inserted: bool, m': Mem)
    requires IndexOk(m) && id == m.idCount && addr !in m.addr && slot in m.newTable && id !in m.info
    requires id in m1.info && m1.info[id].service == addr && m1.info[id].refCount == 0
    requires m1.newTable == m.newTable && m1.addr == m.addr[addr := id] && m1.info == m.info[id := m1.info[id]]
    requires m.newTable[slot] == EMPTY || m.newTable[slot] in m.info
    requires Placed(m1, id, slot, now, inserted, m')
    ensures inserted <==> GetsSlot(m, slot, id, 0, now)
    ensures inserted ==> addr in m'.addr && m'.addr[addr] == id
    ensures forall a :: a in m.addr && m.addr[a] != m.newTable[slot] ==> a in m'.addr && m'.addr[a] == m.addr[a]
    ensures !inserted ==> m'.addr == m.addr && id !in m'.info
    ensures OthersKept(m, m', slot, id)
  {
    assert inserted <==> GetsSlot(m1, slot, id, 0, now);
    if inserted {
      UnknownInserted(m, m1, addr, id, slot, m');
    } else {
      UnknownDropped(m, m1, addr, id, slot, m');
    }
  }

  lemma UnknownInserted(m: Mem, m1: Mem, addr: Service, id: int, slot: Slot, m': Mem)
    requires IndexOk(m) && addr !in m.addr && slot in m.newTable && id !in m.info && id in m1.info && id in m'.info
    requires m1.newTable == m.newTable && m1.addr == m.addr[addr := id] && m1.info == m.info[id := m1.info[id]]
    requires KeptFrom(m'.info, m1.info) && m'.addr == Surviving(m1.addr, m'.info)
    requires forall k :: k in m1.info && k != id && k != m1.newTable[slot] ==> k in m'.info
    ensures addr in m'.addr && m'.addr[addr] == id && OthersKept(m, m', slot, id)
    ensures forall a :: a in m.addr && m.addr[a] != m.newTable[slot] ==> a in m'.addr && m'.addr[a] == m.addr[a]
  {
  }

  lemma UnknownDropped(m: Mem, m1: Mem, addr: Service, id: int, slot: Slot, m': Mem)
    requires IndexOk(m) && addr !in m.addr && slot in m.newTable && id !in m.info && id in m1.info
    requires m1.addr == m.addr[addr := id] && m1.info == m.info[id := m1.info[id]]
    requires SameButRandom(m'.info, m1.info - {id}) && m'.addr == Surviving(m1.addr, m'.info)
    ensures m'.addr == m.addr && id !in m'.info && OthersKept(m, m', slot, id)
  {
    assert m1.info - {id} == m.info;
    forall k ensures k in m'.info <==> k in m.info {
      assert k in m'.info.Keys <==> k in m.info.Keys;
    }
  }

  /** What the announcement of a known address comes to. */
  ghost predicate KnownOutcome(m: Mem, addr: Service, id: int, info: AddrInfo, slot: Slot, news: bool, now: int, inserted: bool, m': Mem)
    requires slot in m.newTable
  {
    && (inserted <==> news && GetsSlot(m, slot, id, info.refCount, now))
    && id in m'.info && Statistics(m'.info[id]) == Statistics(info)
    && (inserted ==> addr in m'.addr && m'.addr[addr] == id && m'.newTable == m.newTable[slot := id])
    && (forall a :: a in m.addr && m.addr[a] != m.newTable[slot] ==> a in m'.addr && m'.addr[a] == m.addr[a])
    && (!inserted ==> m'.newTable == m.newTable && m'.addr == m.addr)
    && OthersKept(m, m', slot, id)
  }

  /** The same for an entry that was there, with other statistics. */
  lemma PlacedKnown(m: Mem, info: AddrInfo, addr: Service, id: int, slot: Slot, now: int, inserted: bool, m': Mem)
    requires IndexOk(m) && addr in m.addr && m.addr[addr] == id && slot in m.newTable && id in m.info
    requires info.refCount == m.info[id].refCount > 0 && info.service == m.info[id].service
    requires m.newTable[slot] == EMPTY || m.newTable[slot] in m.info
    requires m'.triedTable == m.triedTable && m'.idCount == m.idCount
    requires Placed(m.(info := m.info[id := info]), id, slot, now, inserted, m')
    ensures KnownOutcome(m, addr, id, info, slot, true, now, inserted, m') && Progress(m, m')
  {
  }

  lemma RefreshedOnly(m: Mem, info: AddrInfo, addr: Service, id: int, slot: Slot, now: int)
    requires addr in m.addr && m.addr[addr] == id && slot in m.newTable && id in m.info && info.service == m.info[id].service
    ensures KnownOutcome(m, addr, id, info, slot, false, now, false, m.(info := m.info[id := info]))
    ensures Progress(m, m.(info := m.info[id := info]))
  {
  }

  /** Entries other than `id` keep their statistics, and only the holder of the slot can be gone. */
  ghost predicate OthersKept(m: Mem, m': Mem, slot: Slot, id: int)
    requires slot in m.newTable
  {
    && (forall k :: k in m'.info && k != id ==> k in m.info && Statistics(m'.info[k]) == Statistics(m.info[k]))
    && (forall k :: k in m.info && k !in m'.info ==> k == m.newTable[slot])
  }

  /**
    The entry has moved from the new table to its tried slot. An occupant of that slot goes back to its home slot in the
    new table; at most the address that held that slot loses its entry.
   */
  ghost predicate MovedToTried(e: Env, m: Mem, id: int, m': Mem)
    requires id in m.info
  {
    var slot := TriedSlot(e, m.info[id].service);
    && slot in m.triedTable && m'.triedTable == m.triedTable[slot := id]
    && if m.triedTable[slot] == EMPTY then m'.newTable == Without(m.newTable, id) && m'.addr == m.addr
       else
         && m.triedTable[slot] in m.info
         && var back := HomeSlot(e, m.info[m.triedTable[slot]]);
         && back in m.newTable && m'.newTable == Without(m.newTable, id)[back := m.triedTable[slot]]
         && forall a :: a in m.addr && m.addr[a] != Without(m.newTable, id)[back] ==> a in m'.addr
  }

  class AddrMan {
    const env: Env

    var mapInfo: map<int, AddrInfo>
    var mapAddr: map<Service, int>
    var vRandom: seq<int>
    var vvNew: Table
    var vvTried: Table
    var nNew: int
    var nTried: int
    var networkCounts: map<Network, Count>
    var nIdCount: int
    var triedCollisions: set<nat>
    var lastGood: int

    function M(): Mem
      reads this
    {
      Mem(mapInfo, mapAddr, vRandom, vvNew, vvTried, nNew, nTried, networkCounts, nIdCount, triedCollisions)
    }

    ghost predicate Valid()
      reads this
    {
      env.key != 0 && Inv(env, M(), Settled)
    }

    constructor (env: Env)
      requires env.key != 0
      ensures Valid() && this.env == env && mapInfo == map[] && lastGood == 1
      ensures nNew == nTried == 0 && nIdCount == 0 && triedCollisions == {}
    {
      this.env := env;
      mapInfo, mapAddr, vRandom := map[], map[], [];
      vvNew := map b: nat, p: nat | b < NEW_BUCKET_COUNT && p < BUCKET_SIZE :: Slot(b, p) := EMPTY;
      vvTried := map b: nat, p: nat | b < TRIED_BUCKET_COUNT && p < BUCKET_SIZE :: Slot(b, p) := EMPTY;
      nNew, nTried, networkCounts, nIdCount, triedCollisions := 0, 0, map[], 0, {};
      lastGood := 1;
      new;
      EmptyInv(env, M());
    }

    /** An address manager with the tables that were read from a file. */
    constructor Loaded(env: Env, m: Mem)
      requires env.key != 0 && Inv(env, m, Settled)
      ensures Valid() && this.env == env && M() == m && lastGood == 1
    {
      this.env := env;
      mapInfo, mapAddr, vRandom, vvNew, vvTried := m.info, m.addr, m.random, m.newTable, m.triedTable;
      nNew, nTried, networkCounts, nIdCount, triedCollisions := m.nNew, m.nTried, m.counts, m.idCount, m.collisions;
      lastGood := 1;
    }

    /** Swaps two positions of vRandom. */
    method SwapRandom(i: int, j: int, ghost x: Limbo)
      requires Inv(env, M(), x) && 0 <= i < |vRandom| && 0 <= j < |vRandom|
      modifies this`mapInfo, this`vRandom
      ensures Inv(env, M(), x) && SameButRandom(mapInfo, old(mapInfo))
      ensures vRandom == old(vRandom)[i := old(vRandom)[j]][j := old(vRandom)[i]]
    {
      hide IndexOk, NewOk, TriedOk, CountsOk, RangeOk, CollisionsOk;
      if i == j {
        return;
      }
      ghost var m := M();
      var id1, id2 := vRandom[i], vRandom[j];
      mapInfo := mapInfo[id1 := mapInfo[id1].(randomPos := j)];
      mapInfo := mapInfo[id2 := mapInfo[id2].(randomPos := i)];
      vRandom := vRandom[i := id2][j := id1];
      assert M() == Swapped(m, i, j);
      SwapKeeps(env, m, x, i, j);
    }

    /** Looks an address up in the index. */
    method Find(addr: Service) returns (found: bool, id: int)
      requires IndexOk(M())
      ensures found <==> addr in mapAddr
      ensures found ==> id == mapAddr[addr] && id in mapInfo && mapInfo[id].service == addr
    {
      found, id := false, EMPTY;
      if addr in mapAddr {
        id := mapAddr[addr];
        found := id in mapInfo;
      }
    }

    /** Adds an entry to the index and to vRandom; it counts as new, but no slot holds it yet. */
    method Create(addr: Service, time: int, services: set<nat>, source: NetAddr, ghost x: Limbo) returns (id: int)
      requires Inv(env, M(), x) && addr !in mapAddr && nIdCount !in x.uncounted
      modifies this`mapInfo, this`mapAddr, this`vRandom, this`nNew, this`networkCounts, this`nIdCount
      ensures id == old(nIdCount) && Inv(env, M(), x.(pending := x.pending + {id}))
      ensures M() == Created(env, old(M()), AddrInfo(addr, time, services, source, 0, 0, 0, 0, 0, false, -1))
    {
      hide IndexOk, RandomOk, NewOk, TriedOk, CountsOk, RangeOk, CollisionsOk;
      ghost var info := AddrInfo(addr, time, services, source, 0, 0, 0, 0, 0, false, -1);
      CreateKeeps(env, M(), x, info);
      id := nIdCount;
      nIdCount := nIdCount + 1;
      mapInfo := mapInfo[id := AddrInfo(addr, time, services, source, 0, 0, 0, 0, 0, false, |vRandom|)];
      mapAddr := mapAddr[addr := id];
      vRandom := vRandom + [id];
      nNew := nNew + 1;
      networkCounts := Bump(networkCounts, env.network(addr.addr), 1, 0);
    }

    /** Removes an entry that is in no table: it is first swapped to the end of vRandom. */
    method Delete(id: int, ghost x: Limbo)
      requires Inv(env, M(), x) && id in mapInfo && id !in x.uncounted
      requires !mapInfo[id].inTried && mapInfo[id].refCount == 0
      modifies this`mapInfo, this`mapAddr, this`vRandom, this`nNew, this`networkCounts
      ensures Inv(env, M(), x.(pending := x.pending - {id}))
      ensures SameButRandom(mapInfo, old(mapInfo) - {id})
      ensures mapAddr == old(mapAddr) - {old(mapInfo)[id].service}
    {
      hide IndexOk, RandomOk, NewOk, TriedOk, CountsOk, RangeOk, CollisionsOk;
      var service := mapInfo[id].service;
      PositionOf(M(), id);
      SwapRandom(mapInfo[id].randomPos, |vRandom| - 1, x);
      assert mapInfo[id] == old(mapInfo)[id].(randomPos := mapInfo[id].randomPos);
      assert vRandom[|vRandom| - 1] == id;
      AtPosition(M(), |vRandom| - 1);
      DeleteKeeps(env, M(), x, id);
      networkCounts := Bump(networkCounts, env.network(service.addr), -1, 0);
      vRandom := vRandom[..|vRandom| - 1];
      mapAddr := mapAddr - {service};
      mapInfo := mapInfo - {id};
      nNew := nNew - 1;
    }

    /** Empties a slot of the new table that is not empty. The entry there may be left without any reference. */
    method Unhold(s: Slot, ghost x: Limbo) returns (id: int)
      requires Inv(env, M(), x) && s in vvNew && vvNew[s] != EMPTY
      requires vvNew[s] !in x.pending && vvNew[s] !in x.uncounted
      modifies this`mapInfo, this`vvNew
      ensures id == old(vvNew)[s] && id in old(mapInfo) && !old(mapInfo)[id].inTried
      ensures Inv(env, M(), x.(pending := x.pending + {id})) && vvNew == old(vvNew)[s := EMPTY]
      ensures mapInfo == old(mapInfo)[id := old(mapInfo)[id].(refCount := old(mapInfo)[id].refCount - 1)]
      ensures mapInfo[id].refCount >= 0
    {
      hide IndexOk, RandomOk, NewOk, TriedOk, CountsOk, RangeOk, CollisionsOk;
      ghost var m := M();
      id := vvNew[s];
      HoldersAre(env, m, id, s);
      mapInfo := mapInfo[id := mapInfo[id].(refCount := mapInfo[id].refCount - 1)];
      vvNew := vvNew[s := EMPTY];
      ClearSlotKeeps(env, m, x, s, id, M());
    }

    /** Empties a slot of the new table, deleting the entry that loses its last reference there. */
    method ClearNew(s: Slot, ghost x: Limbo)
      requires Inv(env, M(), x) && s in vvNew
      requires vvNew[s] !in x.pending && vvNew[s] !in x.uncounted
      modifies this`mapInfo, this`mapAddr, this`vRandom, this`vvNew, this`nNew, this`networkCounts
      ensures Inv(env, M(), x) && Cleared(old(M()), s, M())
    {
      hide IndexOk, RandomOk, NewOk, TriedOk, CountsOk, RangeOk, CollisionsOk, Cleared, SameButRandom;
      ghost var m := M();
      if vvNew[s] != EMPTY {
        var id := Unhold(s, x);
        ghost var m1 := M();
        if mapInfo[id].refCount == 0 {
          Delete(id, x.(pending := x.pending + {id}));
          assert x.pending + {id} - {id} == x.pending;
          ClearedLast(m, s, id, m1, M());
        } else {
          assert RangeOk(M(), x.pending) by { RangeDrop(M(), x.pending, id); }
          ClearedOne(m, s, id, M());
        }
      } else {
        ClearedNone(m, s);
      }
    }

    /** Takes an untried entry out of every bucket of the new table, starting at its own bucket. */
    method RemoveFromNew(id: int, ghost x: Limbo)
      requires Inv(env, M(), x) && id in mapInfo && !mapInfo[id].inTried
      modifies this`mapInfo, this`vvNew
      ensures Inv(env, M(), x.(pending := x.pending + {id}))
      ensures mapInfo == old(mapInfo)[id := old(mapInfo)[id].(refCount := 0)]
      ensures vvNew == Without(old(vvNew), id)
    {
      hide IndexOk, RandomOk, NewOk, TriedOk, CountsOk, RangeOk, CollisionsOk;
      ghost var x' := x.(pending := x.pending + {id});
      var service := mapInfo[id].service;
      var start := NewBucket(env, service, mapInfo[id].source);
      PendMore(env, M(), x, id);
      NoEmptyId(M());
      var n := 0;
      while n < NEW_BUCKET_COUNT
        invariant 0 <= n <= NEW_BUCKET_COUNT
        invariant Inv(env, M(), x') && id in mapInfo
        invariant mapInfo == old(mapInfo)[id := old(mapInfo)[id].(refCount := mapInfo[id].refCount)]
        invariant Without(vvNew, id) == Without(old(vvNew), id)
        invariant forall k :: 0 <= k < n ==> Visited(env, vvNew, service, id, start, k)
      {
        var bucket := (start + n) % NEW_BUCKET_COUNT;
        var slot := NewSlot(env, bucket, service);
        SlotInTable(env, M(), slot);
        if vvNew[slot] == id {
          ghost var m := M();
          vvNew := vvNew[slot := EMPTY];
          mapInfo := mapInfo[id := mapInfo[id].(refCount := mapInfo[id].refCount - 1)];
          ClearSlotKeeps(env, m, x', slot, id, M());
          assert x'.(pending := x'.pending + {id}) == x';
          WithoutMore(m.newTable, vvNew, slot, id);
          forall k | 0 <= k < n ensures Visited(env, vvNew, service, id, start, k) {
            assert Visited(env, m.newTable, service, id, start, k);
          }
          if mapInfo[id].refCount == 0 {
            break;
          }
        }
        n := n + 1;
      }
      if mapInfo[id].refCount != 0 {
        AllVisited(env, M(), id, start);
      }
      NoSlotLeft(env, M(), id);
    }

    /** Enters an entry that is nowhere into an empty slot of the new table, and counts it as new again. */
    method EnterNew(id: int, slot: Slot, ghost x: Limbo)
      requires Inv(env, M(), x) && id in mapInfo && mapInfo[id].refCount == 0 && !mapInfo[id].inTried
      requires id in x.uncounted && slot in vvNew && vvNew[slot] == EMPTY
      requires slot == NewSlot(env, slot.bucket, mapInfo[id].service)
      modifies this`mapInfo, this`vvNew, this`nNew, this`networkCounts
      ensures Inv(env, M(), x.(pending := x.pending - {id}, uncounted := x.uncounted - {id}))
      ensures mapInfo == old(mapInfo)[id := old(mapInfo)[id].(refCount := 1)]
      ensures vvNew == old(vvNew)[slot := id]
    {
      hide IndexOk, RandomOk, NewOk, TriedOk, CountsOk, RangeOk, CollisionsOk;
      ghost var m1 := M();
      mapInfo := mapInfo[id := mapInfo[id].(refCount := 1)];
      vvNew := vvNew[slot := id];
      FillSlotKeeps(env, m1, x, slot, id, M());
      ghost var m2 := M();
      nNew := nNew + 1;
      networkCounts := Bump(networkCounts, env.network(mapInfo[id].service.addr), 1, 0);
      RecountKeeps(env, m2, x.(pending := x.pending - {id}), id, M());
    }

    /** Puts an entry that is nowhere into its home slot of the new table, emptying that slot first. */
    method PutBack(evicted: int, ghost id: int, ghost slot: Slot)
      requires Inv(env, M(), Limbo({id, evicted}, {id, evicted}, {slot})) && id != evicted
      requires id in mapInfo && mapInfo[id].refCount == 0 && !mapInfo[id].inTried
      requires evicted in mapInfo && mapInfo[evicted].refCount == 0 && !mapInfo[evicted].inTried
      modifies this`mapInfo, this`mapAddr, this`vRandom, this`vvNew, this`nNew, this`networkCounts
      ensures Inv(env, M(), Limbo({id}, {id}, {slot})) && KeptFrom(mapInfo, old(mapInfo))
      ensures id in mapInfo && mapInfo[id].refCount == 0 && !mapInfo[id].inTried
      ensures var back := HomeSlot(env, old(mapInfo)[evicted]);
        && back in old(vvNew) && vvNew == old(vvNew)[back := evicted]
        && (forall a :: a in old(mapAddr) && old(mapAddr)[a] != old(vvNew)[back] ==> a in mapAddr)
    {
      hide IndexOk, RandomOk, NewOk, TriedOk, CountsOk, RangeOk, CollisionsOk, Cleared, KeptFrom;
      ghost var x := Limbo({id, evicted}, {id, evicted}, {slot});
      ghost var m := M();
      IdsNatural(m);
      IndexDomain(m);
      var info := mapInfo[evicted];
      var back := NewSlot(env, NewBucket(env, info.service, info.source), info.service);
      SlotInTable(env, M(), back);
      if vvNew[back] != EMPTY {
        HoldersAre(env, M(), vvNew[back], back);
      }
      ClearNew(back, x);
      ghost var m1 := M();
      ClearedOther(m, back, m1, id);
      ClearedOther(m, back, m1, evicted);
      EnterNew(evicted, back, x);
      ClearedTaken(m, back, m1, evicted, M());
      assert Limbo({id}, {id}, {slot}) == Limbo(x.pending - {evicted}, x.uncounted - {evicted}, {slot});
    }

    /** Empties a tried slot: its entry goes back to the new table. */
    method MoveBack(slot: Slot, ghost id: int)
      requires Inv(env, M(), Limbo({id}, {id}, {})) && slot in vvTried && vvTried[slot] != EMPTY
      requires id in mapInfo && mapInfo[id].refCount == 0 && !mapInfo[id].inTried
      modifies this`mapInfo, this`mapAddr, this`vRandom, this`vvNew, this`vvTried, this`nNew, this`nTried, this`networkCounts
      ensures Inv(env, M(), Limbo({id}, {id}, {slot})) && KeptFrom(mapInfo, old(mapInfo))
      ensures id in mapInfo && mapInfo[id].refCount == 0 && !mapInfo[id].inTried
      ensures vvTried == old(vvTried)[slot := EMPTY] && old(vvTried)[slot] in old(mapInfo)
      ensures var back := HomeSlot(env, old(mapInfo)[old(vvTried)[slot]]);
        && back in old(vvNew) && vvNew == old(vvNew)[back := old(vvTried)[slot]]
        && (forall a :: a in old(mapAddr) && old(mapAddr)[a] != old(vvNew)[back] ==> a in mapAddr)
    {
      hide IndexOk, RandomOk, NewOk, TriedOk, CountsOk, RangeOk, CollisionsOk;
      ghost var x := Limbo({id}, {id}, {});
      ghost var m0 := M();
      var evicted := vvTried[slot];
      TriedOccupant(env, m0, slot);
      var info := mapInfo[evicted];
      mapInfo := mapInfo[evicted := info.(inTried := false)];
      vvTried := vvTried[slot := EMPTY];
      nTried := nTried - 1;
      networkCounts := Bump(networkCounts, env.network(info.service.addr), 0, -1);
      EvictKeeps(env, m0, x, evicted, M());
      assert Limbo({id, evicted}, {id, evicted}, {slot})
          == Limbo(x.pending + {evicted}, x.uncounted + {evicted}, x.holes + {slot});
      PutBack(evicted, id, slot);
    }

    /** Enters an entry that is nowhere into its empty tried slot. */
    method EnterTried(id: int, ghost x: Limbo)
      requires Inv(env, M(), x) && id in mapInfo && mapInfo[id].refCount == 0 && !mapInfo[id].inTried
      requires id in x.uncounted && mapInfo[id].lastSuccess > 0
      requires TriedSlot(env, mapInfo[id].service) in vvTried && vvTried[TriedSlot(env, mapInfo[id].service)] == EMPTY
      modifies this`mapInfo, this`vvTried, this`nTried, this`networkCounts
      ensures Inv(env, M(), Limbo(x.pending - {id}, x.uncounted - {id}, x.holes - {TriedSlot(env, old(mapInfo)[id].service)}))
      ensures mapInfo == old(mapInfo)[id := old(mapInfo)[id].(inTried := true)]
      ensures vvTried == old(vvTried)[TriedSlot(env, old(mapInfo)[id].service) := id]
    {
      hide IndexOk, RandomOk, NewOk, TriedOk, CountsOk, RangeOk, CollisionsOk;
      ghost var m := M();
      var service := mapInfo[id].service;
      vvTried := vvTried[TriedSlot(env, service) := id];
      nTried := nTried + 1;
      mapInfo := mapInfo[id := mapInfo[id].(inTried := true)];
      networkCounts := Bump(networkCounts, env.network(service.addr), 0, 1);
      SettleKeeps(env, m, x, id, M());
    }

    /** Takes an untried entry out of the new table and out of its counts. */
    method Uproot(id: int)
      requires Inv(env, M(), Settled) && id in mapInfo && !mapInfo[id].inTried
      modifies this`mapInfo, this`vvNew, this`nNew, this`networkCounts
      ensures Inv(env, M(), Limbo({id}, {id}, {}))
      ensures mapInfo == old(mapInfo)[id := old(mapInfo)[id].(refCount := 0)] && vvNew == Without(old(vvNew), id)
    {
      hide IndexOk, RandomOk, NewOk, TriedOk, CountsOk, RangeOk, CollisionsOk;
      RemoveFromNew(id, Settled);
      assert Limbo({id}, {}, {}) == Settled.(pending := Settled.pending + {id});
      ghost var m := M();
      nNew := nNew - 1;
      networkCounts := Bump(networkCounts, env.network(mapInfo[id].service.addr), -1, 0);
      UncountKeeps(env, m, Limbo({id}, {}, {}), id, M());
      assert Limbo({id}, {id}, {}) == Limbo({id}, {} + {id}, {});
    }

    /**
      Moves an entry from the new table to the tried table. The entry already in its tried slot goes
      back to its home slot in the new table.
     */
    method MakeTried(id: int)
      requires Inv(env, M(), Settled) && id in mapInfo && !mapInfo[id].inTried && mapInfo[id].lastSuccess > 0
      modifies this`mapInfo, this`mapAddr, this`vRandom, this`vvNew, this`vvTried, this`nNew, this`nTried, this`networkCounts
      ensures Inv(env, M(), Settled)
      ensures id in mapInfo && mapInfo[id].inTried && KeptFrom(mapInfo, old(mapInfo))
      ensures MovedToTried(env, old(M()), id, M())
    {
      hide IndexOk, RandomOk, NewOk, TriedOk, CountsOk, RangeOk, CollisionsOk;
      var service := mapInfo[id].service;
      Uproot(id);
      var slot := TriedSlot(env, service);
      TriedSlotInTable(env, M(), slot);
      ghost var holes: set<Slot> := {};
      if vvTried[slot] != EMPTY {
        MoveBack(slot, id);
        holes := {slot};
      }

      EnterTried(id, Limbo({id}, {id}, holes));
      assert Settled == Limbo({id} - {id}, {id} - {id}, holes - {slot});
    }

    // ---------- Operations ----------

    /** Updates the statistics of one entry. */
    method Touch(id: int, info: AddrInfo, ghost x: Limbo)
      requires Inv(env, M(), x) && id in mapInfo
      requires info.service == mapInfo[id].service && info.refCount == mapInfo[id].refCount
      requires info.inTried == mapInfo[id].inTried && info.randomPos == mapInfo[id].randomPos
      requires info.lastTry >= 0 && info.lastSuccess >= 0 && (info.inTried ==> info.lastSuccess > 0)
      modifies this`mapInfo
      ensures Inv(env, M(), x) && mapInfo == old(mapInfo)[id := info]
    {
      hide IndexOk, RandomOk, NewOk, TriedOk, CountsOk, RangeOk, CollisionsOk;
      TouchKeeps(env, M(), x, id, info);
      mapInfo := mapInfo[id := info];
    }

    /** The part of AddSingle for an address that is known: its statistics are refreshed. */
    method Refresh(id: int, time: int, services: set<nat>, penalty: int, now: int, lucky: bool) returns (proceed: bool)
      requires Valid() && id in mapInfo
      modifies this`mapInfo
      ensures Valid() && id in mapInfo
      ensures mapInfo == old(mapInfo)[id := Refreshed(old(mapInfo)[id], time, services, penalty, now)]
      ensures proceed <==> IsNews(mapInfo[id], time, lucky)
    {
      hide IndexOk, RandomOk, NewOk, TriedOk, CountsOk, CollisionsOk;
      var info := mapInfo[id];
      var interval := if now - time < 24 * HOUR then 1 * HOUR else 24 * HOUR;
      if info.time < time - interval - penalty {
        info := info.(time := if time - penalty > 0 then time - penalty else 0);
      }
      info := info.(services := info.services + services);
      Touch(id, info, Settled);
      proceed := !(time <= info.time) && !info.inTried && info.refCount != NEW_BUCKETS_PER_ADDRESS && lucky;
    }

    /** Gives a slot of the new table to an entry, after emptying it. */
    method TakeSlot(id: int, slot: Slot, ghost x: Limbo)
      requires x.uncounted == {} && x.pending <= {id}
      requires Inv(env, M(), x) && id in mapInfo && !mapInfo[id].inTried
      requires mapInfo[id].refCount < NEW_BUCKETS_PER_ADDRESS
      requires slot == NewSlot(env, slot.bucket, mapInfo[id].service) && slot in vvNew && vvNew[slot] != id
      modifies this`mapInfo, this`mapAddr, this`vRandom, this`vvNew, this`nNew, this`networkCounts
      ensures Inv(env, M(), x.(pending := {})) && KeptFrom(mapInfo, old(mapInfo))
      ensures id in mapInfo && vvNew == old(vvNew)[slot := id]
      ensures mapAddr == Surviving(old(mapAddr), mapInfo)
      ensures forall k :: k in old(mapInfo) && k != old(vvNew)[slot] ==> k in mapInfo
    {
      hide IndexOk, RandomOk, NewOk, TriedOk, CountsOk, RangeOk, CollisionsOk, KeptFrom, Surviving, Cleared;
      ghost var m0 := M();
      ClearNew(slot, x);
      ghost var m := M();
      ClearedOther(m0, slot, m, id);
      mapInfo := mapInfo[id := mapInfo[id].(refCount := mapInfo[id].refCount + 1)];
      vvNew := vvNew[slot := id];
      FillSlotKeeps(env, m, x, slot, id, M());
      ClearedTaken(m0, slot, m, id, M());
      assert x.(pending := x.pending - {id}) == x.(pending := {});
    }

    /** Gives an entry a slot of the new table, unless a better entry holds it; a homeless entry is dropped. */
    method PlaceNew(id: int, slot: Slot, now: int, ghost x: Limbo) returns (inserted: bool)
      requires x == (if id in mapInfo && mapInfo[id].refCount == 0 then Limbo({id}, {}, {}) else Settled)
      requires Inv(env, M(), x) && id in mapInfo && !mapInfo[id].inTried
      requires mapInfo[id].refCount < NEW_BUCKETS_PER_ADDRESS
      requires slot == NewSlot(env, slot.bucket, mapInfo[id].service) && slot in vvNew
      modifies this`mapInfo, this`mapAddr, this`vRandom, this`vvNew, this`nNew, this`networkCounts
      ensures Inv(env, M(), Settled) && Placed(old(M()), id, slot, now, inserted, M())
    {
      hide IndexOk, RandomOk, NewOk, TriedOk, CountsOk, RangeOk, CollisionsOk, KeptFrom, Surviving, SameButRandom, Placed;
      ghost var m := M();
      IdsNatural(m);
      inserted := vvNew[slot] == EMPTY;
      if !inserted {
        HoldersAre(env, m, vvNew[slot], slot);
      }
      if vvNew[slot] != id {
        if !inserted {
          var existing := mapInfo[vvNew[slot]];
          if IsTerrible(existing, now) || (existing.refCount > 1 && mapInfo[id].refCount == 0) {
            inserted := true;
          }
        }
        if inserted {
          TakeSlot(id, slot, x);
        } else if mapInfo[id].refCount == 0 {
          Delete(id, x);
          assert x.(pending := x.pending - {id}) == Settled;
        }
      }
      if inserted {
        PlacedTaken(m, id, slot, now, M());
      } else if m.info[id].refCount == 0 {
        PlacedNowhere(m, id, slot, now, M());
      } else {
        PlacedBefore(m, id, slot, now);
      }
    }

    /** Creates an entry for an address that is not known, with the penalty taken off its time. */
    method Introduce(addr: Service, time: int, services: set<nat>, source: NetAddr, penalty: int) returns (id: int)
      requires Valid() && addr !in mapAddr
      modifies this`mapInfo, this`mapAddr, this`vRandom, this`nNew, this`networkCounts, this`nIdCount
      ensures id == old(nIdCount) && nIdCount == id + 1 && Inv(env, M(), Limbo({id}, {}, {}))
      ensures mapAddr == old(mapAddr)[addr := id] && id !in old(mapInfo)
      ensures mapInfo == old(mapInfo)[id := NewEntry(addr, time, services, source, penalty).(randomPos := |old(vRandom)|)]
      ensures vvNew == old(vvNew)
    {
      hide IndexOk, RandomOk, NewOk, TriedOk, CountsOk, CollisionsOk;
      IdsNatural(M());
      id := Create(addr, time, services, source, Settled);
      ghost var x := Limbo({id}, {}, {});
      assert x == Settled.(pending := Settled.pending + {id});
      var created := mapInfo[id];
      Touch(id, created.(time := if created.time - penalty > 0 then created.time - penalty else 0), x);
    }

    /** The part of AddSingle for an unknown address: an entry is created, and dropped again if it finds no slot. */
    method AddUnknown(addr: Service, time: int, services: set<nat>, source: NetAddr, penalty: int, now: int, slot: Slot)
      returns (inserted: bool)
      requires Valid() && addr !in mapAddr && slot in vvNew && slot == NewSlot(env, slot.bucket, addr)
      modifies this`mapInfo, this`mapAddr, this`vRandom, this`vvNew, this`nNew, this`networkCounts, this`nIdCount
      ensures Valid() && Progress(old(M()), M())
      ensures inserted <==> GetsSlot(old(M()), slot, old(nIdCount), 0, now)
      ensures inserted ==> addr in mapAddr && mapAddr[addr] == old(nIdCount) && vvNew == old(vvNew)[slot := old(nIdCount)]
      ensures inserted ==>
        old(nIdCount) in mapInfo && Statistics(mapInfo[old(nIdCount)]) == Statistics(NewEntry(addr, time, services, source, penalty))
      ensures forall a :: a in old(mapAddr) && old(mapAddr)[a] != old(vvNew)[slot] ==> a in mapAddr && mapAddr[a] == old(mapAddr)[a]
      ensures !inserted ==> vvNew == old(vvNew) && mapAddr == old(mapAddr)
      ensures OthersKept(old(M()), M(), slot, old(nIdCount)) && (!inserted ==> old(nIdCount) !in mapInfo)
    {
      hide IndexOk, RandomOk, NewOk, TriedOk, CountsOk, RangeOk, CollisionsOk, GetsSlot, Surviving, IsTerrible;
      ghost var m := M();
      SlotHolder(env, m, slot);
      IdsNatural(m);
      var id := Introduce(addr, time, services, source, penalty);
      ghost var m1 := M();
      inserted := PlaceNew(id, slot, now, Limbo({id}, {}, {}));
      PlacedUnknown(m, m1, addr, id, slot, now, inserted, M());
    }

    /** The part of AddSingle for a known address. */
    method AddKnown(addr: Service, id: int, time: int, services: set<nat>, penalty: int, now: int, lucky: bool, slot: Slot)
      returns (inserted: bool)
      requires Valid() && addr in mapAddr && id == mapAddr[addr] && slot in vvNew && slot == NewSlot(env, slot.bucket, addr)
      modifies this`mapInfo, this`mapAddr, this`vRandom, this`vvNew, this`nNew, this`networkCounts
      ensures Valid() && Progress(old(M()), M()) && id in old(mapInfo)
      ensures var info := Refreshed(old(mapInfo)[id], time, services, penalty, now);
        KnownOutcome(old(M()), addr, id, info, slot, IsNews(info, time, lucky), now, inserted, M())
    {
      hide IndexOk, RandomOk, NewOk, TriedOk, CountsOk, CollisionsOk, KnownOutcome, Placed, Progress;
      ghost var m := M();
      SlotHolder(env, m, slot);
      IndexDomain(m);
      inserted := false;
      var proceed := Refresh(id, time, services, penalty, now, lucky);
      ghost var info := mapInfo[id];
      if proceed {
        inserted := PlaceNew(id, slot, now, Settled);
        PlacedKnown(m, info, addr, id, slot, now, inserted, M());
      } else {
        RefreshedOnly(m, info, addr, id, slot, now);
      }
    }

    /**
      Adds an address to the new table, in the bucket of the source that announced it. An address that is
      already known gets at most one more slot, with the luck of a random draw.
     */
    method AddSingle(addr: Service, time: int, services: set<nat>, source: NetAddr, timePenalty: int, now: int, lucky: bool)
      returns (inserted: bool)
      requires Valid()
      modifies this
      ensures Valid() && Progress(old(M()), M())
      ensures vvTried == old(vvTried) && triedCollisions == old(triedCollisions) && lastGood == old(lastGood)
      ensures !env.isRoutable(addr.addr) ==> !inserted && M() == old(M())
      ensures var slot := NewSlot(env, NewBucket(env, addr, source), addr);
        var id := if addr in old(mapAddr) then old(mapAddr)[addr] else old(nIdCount);
        && slot in old(vvNew) && OthersKept(old(M()), M(), slot, id)
        && (inserted ==> addr in mapAddr && mapAddr[addr] == id && vvNew == old(vvNew)[slot := id])
        && (forall a :: a in old(mapAddr) && old(mapAddr)[a] != old(vvNew)[slot] ==> a in mapAddr && mapAddr[a] == old(mapAddr)[a])
      ensures !inserted ==> vvNew == old(vvNew) && mapAddr == old(mapAddr)
      ensures env.isRoutable(addr.addr) && addr !in old(mapAddr) ==>
        && var slot := NewSlot(env, NewBucket(env, addr, source), addr);
        && (inserted <==> GetsSlot(old(M()), slot, old(nIdCount), 0, now))
        && var entry := NewEntry(addr, time, services, source, if addr.addr == source then 0 else timePenalty);
        && (inserted ==> Statistics(mapInfo[mapAddr[addr]]) == Statistics(entry))
      ensures env.isRoutable(addr.addr) && addr in old(mapAddr) ==>
        && var slot := NewSlot(env, NewBucket(env, addr, source), addr);
        && old(mapAddr)[addr] in old(mapInfo) && old(mapAddr)[addr] in mapInfo
        && var info := Refreshed(old(mapInfo)[old(mapAddr)[addr]], time, services, if addr.addr == source then 0 else timePenalty, now);
        && (inserted <==> IsNews(info, time, lucky) && GetsSlot(old(M()), slot, old(mapAddr)[addr], info.refCount, now))
        && Statistics(mapInfo[old(mapAddr)[addr]]) == Statistics(info)
    {
      hide IndexOk, RandomOk, NewOk, TriedOk, CountsOk, RangeOk, CollisionsOk;
      var slot := NewSlot(env, NewBucket(env, addr, source), addr);
      SlotInTable(env, M(), slot);
      inserted := false;
      if !env.isRoutable(addr.addr) {
        return;
      }
      var penalty := if addr.addr == source then 0 else timePenalty;
      var found, id := Find(addr);
      if found {
        inserted := AddKnown(addr, id, time, services, penalty, now, lucky, slot);
      } else {
        inserted := AddUnknown(addr, time, services, source, penalty, now, slot);
      }
    }

    /**
      Marks an address as good and moves it to the tried table. If its tried slot is taken and the
      occupant has to be tested first, the id is remembered as a collision instead.
     */
    method Good(addr: Service, testBeforeEvict: bool, time: int) returns (moved: bool)
      requires Valid() && time > 0
      modifies this
      ensures Valid() && Progress(old(M()), M()) && lastGood == time
      ensures addr !in old(mapAddr) ==> !moved && M() == old(M())
      ensures addr in old(mapAddr) ==>
        && old(mapAddr)[addr] in old(mapInfo) && old(mapAddr)[addr] in mapInfo
        && Statistics(mapInfo[old(mapAddr)[addr]])
           == Statistics(old(mapInfo)[old(mapAddr)[addr]].(lastSuccess := time, lastTry := time, attempts := 0))
        && mapInfo[old(mapAddr)[addr]].inTried == (moved || old(mapInfo)[old(mapAddr)[addr]].inTried)
      ensures moved <==>
        && addr in old(mapAddr) && !old(mapInfo)[old(mapAddr)[addr]].inTried
        && (!testBeforeEvict || old(vvTried)[TriedSlot(env, addr)] == EMPTY)
      ensures TriedSlot(env, addr) in old(vvTried)
      ensures moved ==> MovedToTried(env, old(M()), old(mapAddr)[addr], M()) && triedCollisions == old(triedCollisions)
      ensures forall k :: k in mapInfo ==>
        k in old(mapInfo) && (old(mapInfo)[k].service != addr ==> Statistics(mapInfo[k]) == Statistics(old(mapInfo)[k]))
      ensures !moved ==> vvTried == old(vvTried) && vvNew == old(vvNew) && mapAddr == old(mapAddr)
      ensures !moved && (addr !in old(mapAddr) || old(mapInfo)[old(mapAddr)[addr]].inTried) ==> triedCollisions == old(triedCollisions)
      ensures !moved && addr in old(mapAddr) && !old(mapInfo)[old(mapAddr)[addr]].inTried ==>
        && old(mapAddr)[addr] >= 0
        && old(triedCollisions) <= triedCollisions <= old(triedCollisions) + {old(mapAddr)[addr]}
        && (old(mapAddr)[addr] in triedCollisions <==> |old(triedCollisions)| < 10 || old(mapAddr)[addr] in old(triedCollisions))
    {
      hide IndexOk, RandomOk, NewOk, TriedOk, CountsOk, RangeOk, CollisionsOk, TriedSlot, MovedToTried, Progress;
      SameProgress(M());
      TriedSlotInTable(env, M(), TriedSlot(env, addr));
      IdsNatural(M());
      moved := false;
      lastGood := time;
      var found, id := Find(addr);
      if !found {
        return;
      }
      Touch(id, mapInfo[id].(lastSuccess := time, lastTry := time, attempts := 0), Settled);
      ghost var m := M();
      TouchedProgress(old(M()), id, mapInfo[id], M());
      if mapInfo[id].inTried {
        return;
      }
      assert mapInfo[id].refCount > 0 by { UntriedIsHeld(M(), id); }
      if testBeforeEvict && vvTried[TriedSlot(env, addr)] != EMPTY {
        if |triedCollisions| < SET_TRIED_COLLISION_SIZE {
          CollideKeeps(env, M(), id);
          triedCollisions := triedCollisions + {id};
        }
        TouchedProgress(old(M()), id, mapInfo[id], M());
      } else {
        MakeTried(id);
        TouchedMove(env, old(M()), id, m.info[id], M());
        MovedProgress(env, old(M()), id, m.info[id], M());
        moved := true;
      }
    }

    method Attempt(addr: Service, countFailure: bool, time: int)
      requires Valid() && time >= 0
      modifies this`mapInfo
      ensures Valid()
      ensures addr !in mapAddr ==> mapInfo == old(mapInfo)
      ensures addr in mapAddr ==>
        && mapAddr[addr] in old(mapInfo)
        && var info := old(mapInfo)[mapAddr[addr]];
        mapInfo == old(mapInfo)[mapAddr[addr] :=
          if countFailure && info.lastCountAttempt < lastGood
          then info.(lastTry := time, lastCountAttempt := time, attempts := info.attempts + 1)
          else info.(lastTry := time)]
    {
      hide IndexOk, RandomOk, NewOk, TriedOk, CountsOk, CollisionsOk;
      var found, id := Find(addr);
      if found {
        var info := mapInfo[id].(lastTry := time);
        if countFailure && info.lastCountAttempt < lastGood {
          info := info.(lastCountAttempt := time, attempts := info.attempts + 1);
        }
        Touch(id, info, Settled);
      }
    }

    method Connected(addr: Service, time: int)
      requires Valid()
      modifies this`mapInfo
      ensures Valid()
      ensures addr !in mapAddr ==> mapInfo == old(mapInfo)
      ensures addr in mapAddr ==>
        && mapAddr[addr] in old(mapInfo)
        && var info := old(mapInfo)[mapAddr[addr]];
        mapInfo == old(mapInfo)[mapAddr[addr] := info.(time := if time - info.time > 20 * MINUTE then time else info.time)]
    {
      hide IndexOk, RandomOk, NewOk, TriedOk, CountsOk, CollisionsOk;
      var found, id := Find(addr);
      if found {
        var info := mapInfo[id];
        if time - info.time > 20 * MINUTE {
          info := info.(time := time);
        }
        Touch(id, info, Settled);
      }
    }

    method SetServices(addr: Service, services: set<nat>)
      requires Valid()
      modifies this`mapInfo
      ensures Valid()
      ensures addr !in mapAddr ==> mapInfo == old(mapInfo)
      ensures addr in mapAddr ==>
        && mapAddr[addr] in old(mapInfo)
        && mapInfo == old(mapInfo)[mapAddr[addr] := old(mapInfo)[mapAddr[addr]].(services := services)]
    {
      hide IndexOk, RandomOk, NewOk, TriedOk, CountsOk, CollisionsOk;
      var found, id := Find(addr);
      if found {
        Touch(id, mapInfo[id].(services := services), Settled);
      }
    }

    /** The total, or the count of one table, over all networks or one; read off the counters. */
    method Size(network: Option<Network>, inNew: Option<bool>) returns (size: int)
      requires Valid()
      ensures size == |Selected(env, M(), network, inNew)|
    {
      hide IndexOk, NewOk, TriedOk, RangeOk, CollisionsOk;
      SizesAre(env, M(), network, inNew);
      if network.None? {
        if inNew.Some? {
          size := if inNew.value then nNew else nTried;
        } else {
          size := |vRandom|;
        }
      } else if network.value in networkCounts {
        var count := networkCounts[network.value];
        if inNew.Some? {
          size := if inNew.value then count.nNew else count.nTried;
        } else {
          size := count.nNew + count.nTried;
        }
      } else {
        size := 0;
      }
    }

    /**
      Draws addresses in random order, shuffling vRandom in place as it goes, and gives out the wanted ones among those
      drawn, without the ones of another network or of low quality. It stops early only when a limit is reached.
     */
    method GetAddr(maxAddresses: nat, maxPct: nat, network: Option<Network>, filtered: bool, now: int, rand: nat -> nat)
      returns (addrs: seq<Address>, ghost ids: seq<int>, ghost drawn: nat)
      requires Valid()
      modifies this`mapInfo, this`vRandom
      ensures Valid() && SameButRandom(mapInfo, old(mapInfo))
      ensures drawn <= |old(vRandom)| && vRandom == Shuffled(old(vRandom), rand, drawn)
      ensures |addrs| == |ids| <= drawn && (maxAddresses != 0 ==> |addrs| <= maxAddresses)
      ensures maxPct != 0 ==> 100 * |addrs| <= maxPct * |old(vRandom)|
      ensures forall i, j :: 0 <= i < j < |ids| ==> ids[i] != ids[j]
      ensures forall i :: 0 <= i < |ids| ==>
        && ids[i] in mapInfo && ids[i] in vRandom[..drawn]
        && addrs[i] == Address(mapInfo[ids[i]].service, mapInfo[ids[i]].time, mapInfo[ids[i]].services)
        && (network.Some? ==> env.netClass(mapInfo[ids[i]].service.addr) == network.value)
        && (filtered ==> !IsTerrible(mapInfo[ids[i]], now))
      ensures forall id :: id in vRandom[..drawn] ==>
        && id in mapInfo
        && ((network.Some? ==> env.netClass(mapInfo[id].service.addr) == network.value) && (filtered ==> !IsTerrible(mapInfo[id], now))
            ==> id in ids)
      ensures drawn < |old(vRandom)| ==>
        || (maxAddresses != 0 && |addrs| >= maxAddresses)
        || (maxPct != 0 && 100 * (|addrs| + 1) > (if maxPct < 100 then maxPct else 100) * |old(vRandom)|)
    {
      hide Inv, NodeLimit, IsTerrible, WithinLimits, Shuffled, Drawn, SameButRandom;
      var nodes := NodeLimit(|vRandom|, maxAddresses, maxPct);
      addrs, ids, drawn := Draw(nodes, network, filtered, now, rand);
      RandomIsOk(env, M());
      DrawnAll(env, M(), drawn, addrs, ids, network, filtered, now);
      LimitReached(|addrs|, |vRandom|, maxAddresses, maxPct);
    }

    /** Shuffles and draws until `nodes` wanted addresses are found. */
    method Draw(nodes: nat, network: Option<Network>, filtered: bool, now: int, rand: nat -> nat)
      returns (addrs: seq<Address>, ghost ids: seq<int>, ghost drawn: nat)
      requires Valid()
      modifies this`mapInfo, this`vRandom
      ensures Valid() && SameButRandom(mapInfo, old(mapInfo)) && |vRandom| == |old(vRandom)|
      ensures drawn <= |old(vRandom)| && vRandom == Shuffled(old(vRandom), rand, drawn)
      ensures |addrs| <= nodes && |addrs| <= drawn && Drawn(env, mapInfo, drawn, addrs, ids, network, filtered, now)
      ensures drawn < |old(vRandom)| ==> |addrs| == nodes
    {
      hide Inv, Drawn, SameButRandom, Shuffled, Picked;
      ghost var v := vRandom;
      ShuffledNone(v, rand);
      RandomIsOk(env, M());
      DrawnNone(env, M(), network, filtered, now);
      addrs, ids := [], [];
      SameAtFirst(mapInfo);
      var n: nat := 0;
      while n < |vRandom|
        invariant n <= |vRandom| == |v| && vRandom == Shuffled(v, rand, n)
        invariant Valid() && SameButRandom(mapInfo, old(mapInfo))
        invariant |addrs| <= nodes && |addrs| <= n && Drawn(env, mapInfo, n, addrs, ids, network, filtered, now)
      {
        if |addrs| >= nodes {
          break;
        }
        ghost var before := mapInfo;
        ShuffledStep(v, rand, n);
        addrs, ids := DrawOne(n, Picked(n, |vRandom|, rand(n)), addrs, ids, network, filtered, now);
        SameAgain(mapInfo, before, old(mapInfo));
        n := n + 1;
      }
      drawn := n;
    }

    /** Swaps the entry at `j` to position `n`, and takes its address if it is wanted. */
    method DrawOne(n: nat, j: nat, addrs: seq<Address>, ghost ids: seq<int>, network: Option<Network>, filtered: bool, now: int)
      returns (addrs': seq<Address>, ghost ids': seq<int>)
      requires Valid() && n <= j < |vRandom| && Drawn(env, mapInfo, n, addrs, ids, network, filtered, now)
      modifies this`mapInfo, this`vRandom
      ensures Valid() && SameButRandom(mapInfo, old(mapInfo))
      ensures vRandom == old(vRandom)[n := old(vRandom)[j]][j := old(vRandom)[n]]
      ensures |addrs'| <= |addrs| + 1 && Drawn(env, mapInfo, n + 1, addrs', ids', network, filtered, now)
    {
      hide IndexOk, RandomOk, NewOk, TriedOk, CountsOk, RangeOk, CollisionsOk, Wanted, Drawn, SameButRandom;
      ghost var m := M();
      SwapRandom(n, j, Settled);
      AtPosition(M(), n);
      DrawnSwap(env, m, M(), n, addrs, ids, network, filtered, now);
      var id := vRandom[n];
      var info := mapInfo[id];
      DrawnStep(env, M(), n, addrs, ids, network, filtered, now);
      addrs', ids' := addrs, ids;
      if Wanted(env, info, network, filtered, now) {
        addrs', ids' := addrs + [Address(info.service, info.time, info.services)], ids + [id];
      }
    }

    /** Decides one collision. The slot it waits for is never found empty. */
    method ResolveOne(id: nat, now: int) returns (erase: bool)
      requires Valid() && now > 0 && id in triedCollisions
      modifies this
      ensures Valid() && Progress(old(M()), M()) && triedCollisions == old(triedCollisions)
      ensures erase <==> Verdict(env, old(M()), id, now) != Wait
      ensures Verdict(env, old(M()), id, now) != Replace ==> M() == old(M())
      ensures Verdict(env, old(M()), id, now) == Replace ==> id in old(mapInfo) && TakenIn(env, old(M()), id, now, M())
    {
      hide IndexOk, RandomOk, NewOk, TriedOk, CountsOk, RangeOk, CollisionsOk, TriedSlot, IsTerrible;
      erase := false;
      if id !in mapInfo {
        return true;
      }
      var info := mapInfo[id];
      var slot := TriedSlot(env, info.service);
      if !env.isValid(info.service.addr) {
        return true;
      }
      Awaited(env, M(), id);
      var occupant := mapInfo[vvTried[slot]];
      if now - occupant.lastSuccess < REPLACEMENT {
        return true;
      } else if now - occupant.lastTry < REPLACEMENT {
        if now - occupant.lastTry > 1 * MINUTE {
          Replaced(id, now);
          erase := true;
        }
      } else if now - info.lastSuccess > TEST_WINDOW {
        Replaced(id, now);
        erase := true;
      }
    }

    /** Puts the new entry into the tried table, whatever is there. */
    method Replaced(id: int, now: int)
      requires Valid() && now > 0 && id in mapInfo
      modifies this
      ensures Valid() && Progress(old(M()), M()) && triedCollisions == old(triedCollisions)
      ensures TakenIn(env, old(M()), id, now, M())
    {
      hide RandomOk, NewOk, CountsOk, RangeOk, CollisionsOk, TriedSlot, MovedToTried;
      var service := mapInfo[id].service;
      var moved := Good(service, false, now);
    }

    /**
      Goes through the collisions in some order, dropping those that are decided. Each decision is made on the state that
      the ones before it have left.
     */
    method ResolveCollisions(now: int) returns (ghost order: seq<nat>, ghost trace: seq<Mem>)
      requires Valid() && now > 0
      modifies this
      ensures Valid() && Progress(old(M()), M()) && triedCollisions <= old(triedCollisions)
      ensures forall i, j :: 0 <= i < j < |order| ==> order[i] != order[j]
      ensures forall id :: id in order <==> id in old(triedCollisions)
      ensures |trace| == |order| + 1 && trace[0] == old(M()) && trace[|order|] == M()
      ensures forall i :: 0 <= i < |order| ==> Decided(env, trace[i], order[i], now, trace[i + 1])
    {
      hide Inv, TriedSlot, Decided, Progress, Verdict;
      order, trace := [], [M()];
      ghost var start := M();
      SettledIds(env, start);
      assert Progress(start, M()) by { SameProgress(M()); }
      var rest := triedCollisions;
      while rest != {}
        invariant Valid() && Progress(start, M()) && rest <= triedCollisions <= start.collisions
        invariant forall i, j :: 0 <= i < j < |order| ==> order[i] != order[j]
        invariant forall id :: id in order <==> id in start.collisions - rest
        invariant |trace| == |order| + 1 && trace[0] == start && trace[|order|] == M()
        invariant forall i :: 0 <= i < |order| ==> Decided(env, trace[i], order[i], now, trace[i + 1])
        decreases |rest|
      {
        var id := AnyOf(rest);
        assert id !in order;
        rest := rest - {id};
        Decide(id, now, start);
        order, trace := order + [id], trace + [M()];
      }
    }

    /** Decides one collision and forgets it unless it has to wait. */
    method Decide(id: nat, now: int, ghost start: Mem)
      requires Valid() && now > 0 && id in triedCollisions && Progress(start, M())
      requires forall k :: k in start.info ==> k < start.idCount
      modifies this
      ensures Valid() && Progress(start, M()) && Decided(env, old(M()), id, now, M())
      ensures triedCollisions == old(triedCollisions) || triedCollisions == old(triedCollisions) - {id}
    {
      hide IndexOk, RandomOk, NewOk, TriedOk, CountsOk, RangeOk, CollisionsOk, TriedSlot, TakenIn, Verdict, Progress;
      ghost var m := M();
      var erase := ResolveOne(id, now);
      ghost var resolved := M();
      ProgressTransitive(start, m, M());
      if erase {
        ForgetKeeps(env, M(), id);
        triedCollisions := triedCollisions - {id};
      }
      ForgottenSame(env, m, id, now, resolved, start, M());
    }

    /** Picks the tried entry that a collision waits for, to be tested; it is always there. */
    method SelectTriedCollision(pick: nat) returns (selected: Option<(Address, int)>)
      requires Valid() && (triedCollisions != {} ==> pick in triedCollisions)
      modifies this`triedCollisions
      ensures Valid()
      ensures triedCollisions == if pick in mapInfo then old(triedCollisions) else old(triedCollisions) - {pick}
      ensures selected.Some? <==> old(triedCollisions) != {} && pick in mapInfo
      ensures selected.Some? ==>
        && TriedSlot(env, mapInfo[pick].service) in vvTried
        && var id := vvTried[TriedSlot(env, mapInfo[pick].service)];
        && id in mapInfo && mapInfo[id].inTried && selected.value.1 == mapInfo[id].lastTry
        && selected.value.0 == Address(mapInfo[id].service, mapInfo[id].time, mapInfo[id].services)
    {
      hide IndexOk, RandomOk, NewOk, TriedOk, CountsOk, RangeOk, CollisionsOk, TriedSlot;
      if triedCollisions == {} {
        return None;
      }
      if pick !in mapInfo {
        ForgetKeeps(env, M(), pick);
        triedCollisions := triedCollisions - {pick};
        return None;
      }
      Awaited(env, M(), pick);
      var occupant := mapInfo[vvTried[TriedSlot(env, mapInfo[pick].service)]];
      selected := Some((Address(occupant.service, occupant.time, occupant.services), occupant.lastTry));
    }
  }

  lemma TouchedProgress(m: Mem, id: int, info: AddrInfo, m': Mem)
    requires id in m.info && info.service == m.info[id].service && m' == m.(info := m.info[id := info], collisions := m'.collisions)
    ensures Progress(m, m')
  {
  }

  lemma MovedProgress(e: Env, m: Mem, id: int, info: AddrInfo, m': Mem)
    requires id in m.info && id != EMPTY && info.service == m.info[id].service && m'.idCount == m.idCount
    requires KeptFrom(m'.info, m.info[id := info]) && MovedToTried(e, m, id, m')
    ensures Progress(m, m')
  {
    hide TriedSlot, Without, HomeSlot;
  }

  /** New statistics of the entry do not change where it moves. */
  lemma TouchedMove(e: Env, m: Mem, id: int, info: AddrInfo, m': Mem)
    requires Inv(e, m, Settled) && id in m.info && !m.info[id].inTried && info.service == m.info[id].service
    requires MovedToTried(e, m.(info := m.info[id := info]), id, m')
    ensures MovedToTried(e, m, id, m')
  {
    hide IndexOk, RandomOk, NewOk, CountsOk, RangeOk, CollisionsOk, TriedSlot, Without;
    var slot := TriedSlot(e, m.info[id].service);
    if m.triedTable[slot] != EMPTY {
      TriedOccupant(e, m, slot);
    }
  }

  lemma SettledIds(e: Env, m: Mem)
    requires Inv(e, m, Settled)
    ensures forall id :: id in m.info ==> id < m.idCount
  {
    IdsNatural(m);
  }

  datatype Decision = Drop | Replace | Wait

  /** What is to become of a collision, judged by the occupant of the tried slot it waits for. */
  ghost function Verdict(e: Env, m: Mem, id: nat, now: int): Decision
    requires Inv(e, m, Settled) && id in m.collisions
  {
    if id !in m.info || !e.isValid(m.info[id].service.addr) then Drop
    else
      Awaited(e, m, id);
      var occupant := m.info[m.triedTable[TriedSlot(e, m.info[id].service)]];
      if now - occupant.lastSuccess < REPLACEMENT then Drop
      else if now - occupant.lastTry < REPLACEMENT then
        if now - occupant.lastTry > 1 * MINUTE then Replace else Wait
      else if now - m.info[id].lastSuccess > TEST_WINDOW then Replace
      else Wait
  }

  /**
    An occupant that was reached within the last four hours stays. One that is replaced was tried in these four hours,
    over a minute ago, or nobody tried it in that time although the id has waited for more than 40 minutes.
   */
  lemma VerdictIsFair(e: Env, m: Mem, id: nat, now: int)
    requires Inv(e, m, Settled) && id in m.collisions && id in m.info && e.isValid(m.info[id].service.addr)
    ensures TriedSlot(e, m.info[id].service) in m.triedTable && m.triedTable[TriedSlot(e, m.info[id].service)] in m.info
    ensures var occupant, verdict := m.info[m.triedTable[TriedSlot(e, m.info[id].service)]], Verdict(e, m, id, now);
      && (verdict == Drop <==> now - occupant.lastSuccess < 14400)
      && (verdict == Replace <==>
            && now - occupant.lastSuccess >= 14400
            && (60 < now - occupant.lastTry < 14400 || (now - occupant.lastTry >= 14400 && now - m.info[id].lastSuccess > 2400)))
      && (verdict == Wait <==>
            && now - occupant.lastSuccess >= 14400
            && (now - occupant.lastTry <= 60 || (now - occupant.lastTry >= 14400 && now - m.info[id].lastSuccess <= 2400)))
  {
    Awaited(e, m, id);
  }

  /** One collision has been decided as it should: it is dropped, it has replaced the occupant, or it waits on. */
  ghost predicate Decided(e: Env, m: Mem, id: nat, now: int, m': Mem) {
    && Inv(e, m, Settled) && id in m.collisions
    && var d := Verdict(e, m, id, now);
    && m'.collisions == (if d == Wait then m.collisions else m.collisions - {id})
    && (d != Replace ==> m' == m.(collisions := m'.collisions))
    && (d == Replace ==> id in m.info && TakenIn(e, m, id, now, m'))
  }

  /**
    The entry counts as reached now. Unless it was in the tried table already, it has moved there; all other entries
    keep their statistics.
   */
  ghost predicate TakenIn(e: Env, m: Mem, id: int, now: int, m': Mem)
    requires id in m.info
  {
    && id in m'.info && m'.info[id].inTried
    && Statistics(m'.info[id]) == Statistics(m.info[id].(lastSuccess := now, lastTry := now, attempts := 0))
    && (if m.info[id].inTried then m'.triedTable == m.triedTable && m'.newTable == m.newTable && m'.addr == m.addr
        else MovedToTried(e, m, id, m'))
    && (forall k :: k in m'.info && k != id ==> k in m.info && Statistics(m'.info[k]) == Statistics(m.info[k]))
  }

  lemma ForgottenSame(e: Env, m: Mem, id: int, now: int, m1: Mem, start: Mem, m': Mem)
    requires m' == m1.(collisions := m'.collisions) && Progress(start, m1)
    ensures Progress(start, m') && (id in m.info && TakenIn(e, m, id, now, m1) ==> TakenIn(e, m, id, now, m'))
  {
    hide TriedSlot, Without;
  }

  /** So the entry is then in its tried slot. */
  lemma TakenInSlot(e: Env, m: Mem, id: int, now: int, m': Mem)
    requires Inv(e, m, Settled) && id in m.info && TakenIn(e, m, id, now, m')
    ensures TriedSlot(e, m.info[id].service) in m.triedTable
    ensures m'.triedTable == m.triedTable[TriedSlot(e, m.info[id].service) := id]
  {
    hide IndexOk, RandomOk, NewOk, CountsOk, RangeOk, CollisionsOk, TriedSlot, Without;
  }

  /** A collision whose entry is still known waits for a slot that holds a tried entry, not for an empty one. */
  lemma Awaited(e: Env, m: Mem, id: nat)
    requires Inv(e, m, Settled) && id in m.collisions && id in m.info
    ensures TriedSlot(e, m.info[id].service) in m.triedTable
    ensures var occupant := m.triedTable[TriedSlot(e, m.info[id].service)];
      occupant != EMPTY && occupant in m.info && m.info[occupant].inTried
  {
    TriedOccupant(e, m, TriedSlot(e, m.info[id].service));
  }

  lemma ForgetKeeps(e: Env, m: Mem, id: nat)
    requires Inv(e, m, Settled)
    ensures Inv(e, m.(collisions := m.collisions - {id}), Settled)
  {
    hide NewOk, TriedOk, CountsOk, RandomOk;
    CollideOthers(e, m, m.(collisions := m.collisions - {id}));
  }

  datatype Address = Address(service: Service, time: int, services: set<nat>)

  ghost function AddressOf(info: AddrInfo): Address {
    Address(info.service, info.time, info.services)
  }

  /** Whether so many addresses are within what a request allows; zero means no limit. */
  predicate WithinLimits(n: nat, size: nat, maxAddresses: nat, maxPct: nat) {
    && n <= size && (maxAddresses != 0 ==> n <= maxAddresses)
    && (maxPct != 0 ==> 100 * n <= (if maxPct < 100 then maxPct else 100) * size)
  }

  /** How many addresses a request may be given: as many as its limits allow. */
  function NodeLimit(size: nat, maxAddresses: nat, maxPct: nat): (limit: nat)
    ensures WithinLimits(limit, size, maxAddresses, maxPct) && !WithinLimits(limit + 1, size, maxAddresses, maxPct)
  {
    var pct := if maxPct < 100 then maxPct else 100;
    var share := if maxPct != 0 then pct * size / 100 else size;
    assert maxPct != 0 ==> share <= size && 100 * share <= pct * size < 100 * (share + 1) by {
      if maxPct != 0 {
        PercentShare(pct, size);
      }
    }
    if maxAddresses != 0 && maxAddresses < share then maxAddresses else share
  }

  lemma PercentShare(pct: nat, size: nat)
    requires pct <= 100
    ensures pct * size / 100 <= size && 100 * (pct * size / 100) <= pct * size < 100 * (pct * size / 100 + 1)
  {
    assert pct * size <= 100 * size;
  }

  /** The limits allow all smaller numbers, so the limit is the largest number allowed. */
  lemma LimitIsLargest(n: nat, size: nat, maxAddresses: nat, maxPct: nat)
    ensures n <= NodeLimit(size, maxAddresses, maxPct) <==>
      && n <= size && (maxAddresses != 0 ==> n <= maxAddresses) && (0 < maxPct < 100 ==> 100 * n <= maxPct * size)
  {
  }

  lemma LimitReached(n: nat, size: nat, maxAddresses: nat, maxPct: nat)
    requires n <= NodeLimit(size, maxAddresses, maxPct)
    ensures (maxAddresses != 0 ==> n <= maxAddresses) && (maxPct != 0 ==> 100 * n <= maxPct * size)
    ensures n == NodeLimit(size, maxAddresses, maxPct) ==>
      || n >= size || (maxAddresses != 0 && n >= maxAddresses)
      || (maxPct != 0 && 100 * (n + 1) > (if maxPct < 100 then maxPct else 100) * size)
  {
  }

  /** The place that a random number picks from `i` on. */
  function Picked(i: nat, size: nat, r: nat): (j: nat)
    requires i < size
    ensures i <= j < size && (r < size - i ==> j == i + r)
  {
    i + r % (size - i)
  }

  ghost function Exchanged(v: seq<int>, i: nat, j: nat): (w: seq<int>)
    requires i < |v| && j < |v|
    ensures |w| == |v| && w[i] == v[j] && multiset(w) == multiset(v)
  {
    v[i := v[j]][j := v[i]]
  }

  /** The first `n` places after each of them has been swapped with a random one from there on. */
  ghost function Shuffled(v: seq<int>, rand: nat -> nat, n: nat): (w: seq<int>)
    requires n <= |v|
    ensures |w| == |v| && multiset(w) == multiset(v)
  {
    if n == 0 then v
    else Exchanged(Shuffled(v, rand, n - 1), n - 1, Picked(n - 1, |v|, rand(n - 1)))
  }

  lemma ShuffledNone(v: seq<int>, rand: nat -> nat)
    ensures Shuffled(v, rand, 0) == v
  {
  }

  lemma ShuffledStep(v: seq<int>, rand: nat -> nat, n: nat)
    requires n < |v|
    ensures var w, j := Shuffled(v, rand, n), Picked(n, |v|, rand(n));
      Shuffled(v, rand, n + 1) == w[n := w[j]][j := w[n]]
  {
    hide Picked;
  }

  /** Anybody who has not been drawn yet can be the next one. */
  lemma AnyoneNext(v: seq<int>, rand: nat -> nat, n: nat, j: nat) returns (rand': nat -> nat)
    requires n <= j < |v|
    ensures Shuffled(v, rand', n + 1)[n] == Shuffled(v, rand, n)[j]
  {
    hide Picked, Exchanged;
    rand' := i => if i == n then j - n else rand(i);
    ShuffledSame(v, rand, rand', n);
  }

  lemma {:induction false} ShuffledSame(v: seq<int>, rand: nat -> nat, rand': nat -> nat, n: nat)
    requires n <= |v| && forall i: nat :: i < n ==> rand(i) == rand'(i)
    ensures Shuffled(v, rand, n) == Shuffled(v, rand', n)
  {
    hide Picked, Exchanged;
    if n > 0 {
      ShuffledSame(v, rand, rand', n - 1);
    }
  }

  lemma SameAtFirst(a: map<int, AddrInfo>)
    ensures SameButRandom(a, a)
  {
  }

  lemma SameAgain(a: map<int, AddrInfo>, b: map<int, AddrInfo>, c: map<int, AddrInfo>)
    requires SameButRandom(a, b) && SameButRandom(b, c)
    ensures SameButRandom(a, c)
  {
    forall k | k in a && k in c ensures k in b {
      assert k in b.Keys;
    }
  }

  lemma RandomIsOk(e: Env, m: Mem)
    requires Inv(e, m, Settled)
    ensures RandomOk(m)
  {
  }

  lemma PositionOf(m: Mem, id: int)
    requires RandomOk(m) && id in m.info
    ensures 0 <= m.info[id].randomPos < |m.random| && m.random[m.info[id].randomPos] == id
  {
  }

  lemma AtPosition(m: Mem, i: int)
    requires RandomOk(m) && 0 <= i < |m.random|
    ensures m.random[i] in m.info && m.info[m.random[i]].randomPos == i
  {
  }

  /** Shuffling positions from `n` on changes neither whether an entry is wanted nor whether it stands before `n`. */
  lemma SwapKeepsWanted(e: Env, m: Mem, m': Mem, n: int, id: int, network: Option<Network>, filtered: bool, now: int)
    requires RandomOk(m) && RandomOk(m') && SameButRandom(m'.info, m.info) && id in m.info
    requires 0 <= n <= |m.random| == |m'.random| && m.random[..n] == m'.random[..n]
    ensures id in m'.info
    ensures Wanted(e, m'.info[id], network, filtered, now) == Wanted(e, m.info[id], network, filtered, now)
    ensures AddressOf(m'.info[id]) == AddressOf(m.info[id]) && (m.info[id].randomPos < n <==> m'.info[id].randomPos < n)
  {
    assert id in m'.info.Keys;
    var p, p' := m.info[id].randomPos, m'.info[id].randomPos;
    assert m.random[p] == id && m'.random[p'] == id;
    if p < n {
      assert m'.random[..n][p] == id;
    }
    if p' < n {
      assert m.random[..n][p'] == id;
    }
  }

  /** `addrs` are the wanted addresses among the first `n` of vRandom, once each. */
  ghost predicate Drawn(e: Env, info: map<int, AddrInfo>, n: int, addrs: seq<Address>, ids: seq<int>,
                        network: Option<Network>, filtered: bool, now: int)
  {
    && |addrs| == |ids|
    && (forall i, j :: 0 <= i < j < |ids| ==> ids[i] != ids[j])
    && (forall i :: 0 <= i < |ids| ==>
          && ids[i] in info && info[ids[i]].randomPos < n
          && addrs[i] == AddressOf(info[ids[i]]) && Wanted(e, info[ids[i]], network, filtered, now))
    && (forall id :: id in info && info[id].randomPos < n && Wanted(e, info[id], network, filtered, now) ==> id in ids)
  }

  lemma DrawnNone(e: Env, m: Mem, network: Option<Network>, filtered: bool, now: int)
    requires RandomOk(m)
    ensures Drawn(e, m.info, 0, [], [], network, filtered, now)
  {
  }

  lemma DrawnSwap(e: Env, m: Mem, m': Mem, n: int, addrs: seq<Address>, ids: seq<int>,
                  network: Option<Network>, filtered: bool, now: int)
    requires RandomOk(m) && RandomOk(m') && SameButRandom(m'.info, m.info)
    requires 0 <= n <= |m.random| == |m'.random| && m.random[..n] == m'.random[..n]
    requires Drawn(e, m.info, n, addrs, ids, network, filtered, now)
    ensures Drawn(e, m'.info, n, addrs, ids, network, filtered, now)
  {
    hide Wanted, AddressOf, RandomOk;
    forall i | 0 <= i < |ids|
      ensures ids[i] in m'.info && m'.info[ids[i]].randomPos < n
      ensures addrs[i] == AddressOf(m'.info[ids[i]]) && Wanted(e, m'.info[ids[i]], network, filtered, now)
    {
      assert ids[i] in m.info && addrs[i] == AddressOf(m.info[ids[i]]);
      SwapKeepsWanted(e, m, m', n, ids[i], network, filtered, now);
    }
    forall id | id in m'.info && m'.info[id].randomPos < n && Wanted(e, m'.info[id], network, filtered, now) ensures id in ids {
      assert id in m.info.Keys;
      SwapKeepsWanted(e, m, m', n, id, network, filtered, now);
    }
  }

  lemma DrawnStep(e: Env, m: Mem, n: int, addrs: seq<Address>, ids: seq<int>,
                  network: Option<Network>, filtered: bool, now: int)
    requires RandomOk(m) && 0 <= n < |m.random| && m.random[n] in m.info
    requires Drawn(e, m.info, n, addrs, ids, network, filtered, now)
    ensures if Wanted(e, m.info[m.random[n]], network, filtered, now)
            then Drawn(e, m.info, n + 1, addrs + [AddressOf(m.info[m.random[n]])], ids + [m.random[n]], network, filtered, now)
            else Drawn(e, m.info, n + 1, addrs, ids, network, filtered, now)
  {
    hide Wanted, AddressOf;
    forall id | id in m.info && m.info[id].randomPos < n + 1 ensures id == m.random[n] || m.info[id].randomPos < n {
      assert m.random[m.info[id].randomPos] == id;
    }
  }

  lemma DrawnAll(e: Env, m: Mem, n: int, addrs: seq<Address>, ids: seq<int>,
                 network: Option<Network>, filtered: bool, now: int)
    requires RandomOk(m) && 0 <= n <= |m.random| && Drawn(e, m.info, n, addrs, ids, network, filtered, now)
    ensures forall i, j :: 0 <= i < j < |ids| ==> ids[i] != ids[j]
    ensures |addrs| == |ids| && forall i :: 0 <= i < |ids| ==>
      && ids[i] in m.info && ids[i] in m.random[..n]
      && addrs[i] == Address(m.info[ids[i]].service, m.info[ids[i]].time, m.info[ids[i]].services)
      && (network.Some? ==> e.netClass(m.info[ids[i]].service.addr) == network.value)
      && (filtered ==> !IsTerrible(m.info[ids[i]], now))
    ensures forall id :: id in m.random[..n] ==>
      && id in m.info
      && ((network.Some? ==> e.netClass(m.info[id].service.addr) == network.value) && (filtered ==> !IsTerrible(m.info[id], now))
          ==> id in ids)
  {
    hide IsTerrible, RandomOk;
    forall i | 0 <= i < |ids| ensures ids[i] in m.random[..n] {
      PositionOf(m, ids[i]);
      assert m.random[..n][m.info[ids[i]].randomPos] == ids[i];
    }
    forall id | id in m.random[..n] ensures id in m.info && m.info[id].randomPos < n {
      var p :| 0 <= p < n && m.random[..n][p] == id;
      AtPosition(m, p);
    }
  }

  predicate Wanted(e: Env, info: AddrInfo, network: Option<Network>, filtered: bool, now: int) {
    && (network.None? || e.netClass(info.service.addr) == network.value)
    && !(IsTerrible(info, now) && filtered)
  }

  lemma UntriedIsHeld(m: Mem, id: int)
    requires RangeOk(m, {}) && id in m.info && !m.info[id].inTried
    ensures m.info[id].refCount > 0
  {
  }

  /** An id whose tried slot is taken may be remembered while there is room. */
  lemma CollideKeeps(e: Env, m: Mem, id: nat)
    requires Inv(e, m, Settled) && id in m.info && |m.collisions| < SET_TRIED_COLLISION_SIZE
    requires TriedSlot(e, m.info[id].service) in m.triedTable && m.triedTable[TriedSlot(e, m.info[id].service)] != EMPTY
    ensures Inv(e, m.(collisions := m.collisions + {id}), Settled) && |m.collisions + {id}| <= 10
  {
    hide NewOk, TriedOk, CountsOk, RandomOk;
    CollideOthers(e, m, m.(collisions := m.collisions + {id}));
  }

  lemma CollideOthers(e: Env, m: Mem, m': Mem)
    requires m' == m.(collisions := m'.collisions) && NewOk(e, m) && TriedOk(e, m) && CountsOk(e, m, {}) && RandomOk(m)
    ensures NewOk(e, m') && TriedOk(e, m') && CountsOk(e, m', {}) && RandomOk(m')
  {
    hide NewOk, TriedOk, RandomOk;
    CountsSame(e, m, m', {});
    CollideTables(e, m, m');
  }

  lemma CollideTables(e: Env, m: Mem, m': Mem)
    requires m' == m.(collisions := m'.collisions) && NewOk(e, m) && TriedOk(e, m) && RandomOk(m)
    ensures NewOk(e, m') && TriedOk(e, m') && RandomOk(m')
  {
  }

  /** The entries a size query is about. */
  ghost function Selected(e: Env, m: Mem, network: Option<Network>, inNew: Option<bool>): set<int> {
    set id | id in m.info
          && (network.Some? ==> e.network(m.info[id].service.addr) == network.value)
          && (inNew.Some? ==> m.info[id].inTried == !inNew.value)
  }

  /** All ids appear once in vRandom, so it is as long as there are entries. */
  lemma RandomCount(m: Mem)
    requires RandomOk(m)
    ensures |m.random| == |m.info.Keys|
  {
    forall i, j | 0 <= i < j < |m.random| ensures m.random[i] != m.random[j] {
      assert m.info[m.random[i]].randomPos == i && m.info[m.random[j]].randomPos == j;
    }
    ElementsCount(m.random);
    forall id ensures id in m.info.Keys <==> id in m.random {
      if id in m.info {
        assert m.random[m.info[id].randomPos] == id;
      }
    }
    assert m.info.Keys == Elements(m.random);
  }

  lemma SizesAre(e: Env, m: Mem, network: Option<Network>, inNew: Option<bool>)
    requires RandomOk(m) && CountsOk(e, m, {})
    ensures |Selected(e, m, None, None)| == |m.random|
    ensures |Selected(e, m, None, Some(true))| == m.nNew && |Selected(e, m, None, Some(false))| == m.nTried
    ensures network.Some? ==>
      && |Selected(e, m, network, Some(true))| == CountOf(m.counts, network.value).nNew
      && |Selected(e, m, network, Some(false))| == CountOf(m.counts, network.value).nTried
      && |Selected(e, m, network, None)| == CountOf(m.counts, network.value).nNew + CountOf(m.counts, network.value).nTried
  {
    RandomCount(m);
    assert Selected(e, m, None, None) == m.info.Keys;
    assert Selected(e, m, None, Some(true)) == NewIds(m, {}) && Selected(e, m, None, Some(false)) == TriedIds(m);
    if network.Some? {
      var n := network.value;
      assert Selected(e, m, network, Some(true)) == OfNetwork(e, m, NewIds(m, {}), n);
      assert Selected(e, m, network, Some(false)) == OfNetwork(e, m, TriedIds(m), n);
      assert Selected(e, m, network, None) == Selected(e, m, network, Some(true)) + Selected(e, m, network, Some(false));
      assert CountOf(m.counts, n) == Count(|OfNetwork(e, m, NewIds(m, {}), n)|, |OfNetwork(e, m, TriedIds(m), n)|);
    }
  }

  lemma TriedSlotInTable(e: Env, m: Mem, s: Slot)
    requires TriedOk(e, m) && InTriedTable(s)
    ensures s in m.triedTable
  {
  }

  lemma TriedOccupant(e: Env, m: Mem, s: Slot)
    requires TriedOk(e, m) && s in m.triedTable && m.triedTable[s] != EMPTY
    ensures m.triedTable[s] in m.info && m.info[m.triedTable[s]].inTried
    ensures s == TriedSlot(e, m.info[m.triedTable[s]].service)
  {
  }

  /** The slot of the new table in the bucket of the entry's own source. */
  ghost function HomeSlot(e: Env, info: AddrInfo): Slot {
    NewSlot(e, NewBucket(e, info.service, info.source), info.service)
  }

  /** A table with all occurrences of an id emptied. */
  function Without(t: Table, id: int): Table {
    map s | s in t :: if t[s] == id then EMPTY else t[s]
  }

  lemma WithoutMore(t: Table, t': Table, slot: Slot, id: int)
    requires slot in t && t[slot] == id && t' == t[slot := EMPTY]
    ensures Without(t', id) == Without(t, id)
  {
  }

  ghost predicate Visited(e: Env, t: Table, s: Service, id: int, start: nat, k: int) {
    var slot := NewSlot(e, (start + k) % NEW_BUCKET_COUNT, s);
    slot in t && t[slot] != id
  }

  lemma SlotInTable(e: Env, m: Mem, s: Slot)
    requires NewOk(e, m) && InNewTable(s)
    ensures s in m.newTable
  {
  }

  lemma PendMore(e: Env, m: Mem, x: Limbo, id: int)
    requires Inv(e, m, x)
    ensures Inv(e, m, x.(pending := x.pending + {id}))
  {
    hide IndexOk, RandomOk, NewOk, TriedOk, CountsOk, CollisionsOk;
  }

  /** Once the walk has come around all buckets, the id has no references left. */
  lemma AllVisited(e: Env, m: Mem, id: int, start: nat)
    requires NewOk(e, m) && id in m.info
    requires forall k :: 0 <= k < NEW_BUCKET_COUNT ==> Visited(e, m.newTable, m.info[id].service, id, start, k)
    ensures m.info[id].refCount == 0
  {
    forall b: nat | b < NEW_BUCKET_COUNT ensures b !in Holders(e, m.newTable, m.info[id].service, id) {
      var k := (b - start) % NEW_BUCKET_COUNT;
      assert (start + k) % NEW_BUCKET_COUNT == b;
      assert Visited(e, m.newTable, m.info[id].service, id, start, k);
    }
    assert Holders(e, m.newTable, m.info[id].service, id) == {};
  }

  lemma NoSlotLeft(e: Env, m: Mem, id: int)
    requires NewOk(e, m) && id in m.info && m.info[id].refCount == 0 && id != EMPTY
    ensures Without(m.newTable, id) == m.newTable
  {
    forall s | s in m.newTable ensures m.newTable[s] != id {
      if m.newTable[s] == id {
        HoldersAre(e, m, id, s);
      }
    }
  }

  /** The index knows exactly the addresses of the entries. */
  lemma IndexDomain(m: Mem)
    requires IndexOk(m)
    ensures forall a :: a in m.addr ==> m.addr[a] in m.info && m.info[m.addr[a]].service == a
    ensures forall k :: k in m.info ==> m.info[k].service in m.addr && m.addr[m.info[k].service] == k
  {
  }

  lemma SlotHolder(e: Env, m: Mem, slot: Slot)
    requires NewOk(e, m) && slot in m.newTable
    ensures m.newTable[slot] == EMPTY || m.newTable[slot] in m.info
  {
  }

  lemma NoEmptyId(m: Mem)
    requires IndexOk(m)
    ensures EMPTY !in m.info
  {
  }

  lemma RangeDrop(m: Mem, pending: set<int>, id: int)
    requires RangeOk(m, pending + {id}) && id in m.info && m.info[id].refCount >= 1
    ensures RangeOk(m, pending)
  {
  }

  lemma EmptyInv(e: Env, m: Mem)
    requires m.info == map[] && m.addr == map[] && m.random == [] && m.counts == map[]
    requires forall s :: s in m.newTable <==> InNewTable(s)
    requires forall s :: s in m.newTable ==> m.newTable[s] == EMPTY
    requires forall s :: s in m.triedTable <==> InTriedTable(s)
    requires forall s :: s in m.triedTable ==> m.triedTable[s] == EMPTY
    requires m.nNew == m.nTried == m.idCount == 0 && m.collisions == {}
    ensures Inv(e, m, Settled)
  {
    assert NewIds(m, {}) == {} && TriedIds(m) == {};
    forall n ensures OfNetwork(e, m, {}, n) == {} {
    }
  }
}
