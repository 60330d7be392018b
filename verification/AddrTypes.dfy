/** Values of the address manager, and the invariant that ties its redundant tables together. */
module AddrTypes {
  const NEW_BUCKET_COUNT: nat := 1024
  const TRIED_BUCKET_COUNT: nat := 256
  const BUCKET_SIZE: nat := 64
  const TRIED_BUCKETS_PER_GROUP: nat := 8
  const NEW_BUCKETS_PER_SOURCE_GROUP: nat := 64
  const NEW_BUCKETS_PER_ADDRESS: nat := 8
  const SET_TRIED_COLLISION_SIZE: nat := 10
  const EMPTY: int := -1

  type Network = nat

  datatype NetAddr = NetAddr(bytes: seq<nat>)

  datatype Service = Service(addr: NetAddr, port: nat)

  /** The secret key, the hash, and what is known about addresses; none of it changes during a run. */
  datatype Env = Env(
    key: nat,
    cheapHash: seq<nat> -> nat,
    serviceKey: Service -> seq<nat>,
    group: NetAddr -> seq<nat>,
    network: NetAddr -> Network,
    netClass: NetAddr -> Network,
    isValid: NetAddr -> bool,
    isRoutable: NetAddr -> bool,
    asmapVersion: nat)

  datatype AddrInfo = AddrInfo(
    service: Service,
    time: int,
    services: set<nat>,
    source: NetAddr,
    lastTry: int,
    lastCountAttempt: int,
    lastSuccess: int,
    attempts: int,
    refCount: int,
    inTried: bool,
    randomPos: int)

  const MINUTE: int := 60
  const HOUR: int := 3600
  const DAY: int := 86400
  const HORIZON: int := 30 * DAY
  const RETRIES: int := 3
  const MAX_FAILURES: int := 10
  const MIN_FAIL: int := 7 * DAY
  const REPLACEMENT: int := 4 * HOUR
  const TEST_WINDOW: int := 40 * MINUTE

  /** Whether the statistics of an entry are bad enough for it to be dropped. */
  predicate IsTerrible(info: AddrInfo, now: int) {
    if now - info.lastTry <= 1 * MINUTE then false
    else if info.time > now + 10 * MINUTE then true
    else if now - info.time > HORIZON then true
    else if info.lastSuccess == 0 && info.attempts >= RETRIES then true
    else now - info.lastSuccess > MIN_FAIL && info.attempts >= MAX_FAILURES
  }

  datatype Slot = Slot(bucket: nat, pos: nat)

  type Table = map<Slot, int>

  datatype Count = Count(nNew: int, nTried: int)

  predicate InNewTable(s: Slot) {
    s.bucket < NEW_BUCKET_COUNT && s.pos < BUCKET_SIZE
  }

  predicate InTriedTable(s: Slot) {
    s.bucket < TRIED_BUCKET_COUNT && s.pos < BUCKET_SIZE
  }

  function TriedBucket(e: Env, s: Service): (b: nat)
    ensures b < TRIED_BUCKET_COUNT
  {
    var hash1 := e.cheapHash([e.key] + e.serviceKey(s));
    e.cheapHash([e.key] + e.group(s.addr) + [hash1 % TRIED_BUCKETS_PER_GROUP]) % TRIED_BUCKET_COUNT
  }

  function NewBucket(e: Env, s: Service, source: NetAddr): (b: nat)
    ensures b < NEW_BUCKET_COUNT
  {
    var hash1 := e.cheapHash([e.key] + e.group(s.addr) + e.group(source));
    e.cheapHash([e.key] + e.group(source) + [hash1 % NEW_BUCKETS_PER_SOURCE_GROUP]) % NEW_BUCKET_COUNT
  }

  function BucketPosition(e: Env, isNew: bool, bucket: nat, s: Service): (p: nat)
    ensures p < BUCKET_SIZE
  {
    e.cheapHash([e.key, if isNew then 'N' as nat else 'K' as nat, bucket] + e.serviceKey(s)) % BUCKET_SIZE
  }

  /** Where an address sits in a given bucket of the new table. */
  function NewSlot(e: Env, bucket: nat, s: Service): (r: Slot)
    ensures r.bucket == bucket && r.pos < BUCKET_SIZE
  {
    Slot(bucket, BucketPosition(e, true, bucket, s))
  }

  /** The one place an address can have in the tried table. */
  function TriedSlot(e: Env, s: Service): (r: Slot)
    ensures InTriedTable(r)
  {
    var b := TriedBucket(e, s);
    Slot(b, BucketPosition(e, false, b, s))
  }

  // ---------- What the buckets are for ----------

  /** The bucket a group comes to by its k-th choice, out of n buckets. */
  ghost function Choice(e: Env, group: seq<nat>, n: nat, k: nat): nat
    requires n > 0
  {
    e.cheapHash([e.key] + group + [k]) % n
  }

  /** The buckets, out of n, that a group comes to by its first choices. */
  ghost function Reach(e: Env, group: seq<nat>, n: nat, choices: nat): set<nat>
    requires n > 0
  {
    set k: nat | k < choices :: Choice(e, group, n, k)
  }

  lemma {:induction false} ReachIsSmall(e: Env, group: seq<nat>, n: nat, choices: nat)
    requires n > 0
    ensures |Reach(e, group, n, choices)| <= choices
  {
    if choices > 0 {
      ReachIsSmall(e, group, n, choices - 1);
      assert Reach(e, group, n, choices) == Reach(e, group, n, choices - 1) + {Choice(e, group, n, choices - 1)};
    }
  }

  /** However many addresses the sources of one group announce, they fill at most 64 of the 1024 new buckets. */
  lemma SourceIsConfined(e: Env, s: Service, source: NetAddr)
    ensures NewBucket(e, s, source) in Reach(e, e.group(source), 1024, 64) && |Reach(e, e.group(source), 1024, 64)| <= 64
  {
    ReachIsSmall(e, e.group(source), 1024, 64);
    var k := e.cheapHash([e.key] + e.group(s.addr) + e.group(source)) % 64;
    assert NewBucket(e, s, source) == Choice(e, e.group(source), 1024, k);
  }

  /** The addresses of one group fill at most 8 of the 256 tried buckets. */
  lemma GroupIsConfined(e: Env, s: Service)
    ensures TriedSlot(e, s).bucket in Reach(e, e.group(s.addr), 256, 8) && |Reach(e, e.group(s.addr), 256, 8)| <= 8
  {
    ReachIsSmall(e, e.group(s.addr), 256, 8);
    var k := e.cheapHash([e.key] + e.serviceKey(s)) % 8;
    assert TriedBucket(e, s) == Choice(e, e.group(s.addr), 256, k);
  }

  /** Every bucket and every position is used: some hash leads there. */
  lemma EverySlotIsUsed(e: Env, s: Service, source: NetAddr, bucket: nat, h: nat)
    ensures var d := e.(cheapHash := _ => h);
      && NewBucket(d, s, source) == h % 1024 && NewSlot(d, bucket, s) == Slot(bucket, h % 64)
      && TriedSlot(d, s) == Slot(h % 256, h % 64)
  {
  }

  /** An address has its place in the one table no matter where it is in the other. */
  lemma TablesSeparated(e: Env, s: Service) returns (f: seq<nat> -> nat)
    ensures forall bucket :: NewSlot(e.(cheapHash := f), bucket, s).pos == 0
    ensures TriedSlot(e.(cheapHash := f), s).pos == 1
  {
    f := x => if |x| > 1 && x[1] == 'K' as nat then 1 else 0;
  }

  /** The bucket of an announced address depends on its group: some hash separates any two groups. */
  lemma NewGroupsSeparated(e: Env, a: Service, b: Service, source: NetAddr) returns (f: seq<nat> -> nat)
    requires e.group(a.addr) != e.group(b.addr) && |e.group(a.addr)| >= 2 && |e.group(b.addr)| >= 2
    ensures NewBucket(e.(cheapHash := f), a, source) != NewBucket(e.(cheapHash := f), b, source)
  {
    var own, other := [e.key] + e.group(a.addr) + e.group(source), [e.key] + e.group(b.addr) + e.group(source);
    f := x => if x == own then 1 else if x == other then 2 else if |x| > 0 then x[|x| - 1] else 0;
    assert own[1..|own| - |e.group(source)|] == e.group(a.addr);
    assert other[1..|other| - |e.group(source)|] == e.group(b.addr);
    assert |[e.key] + e.group(source) + [1]| < |own| && |[e.key] + e.group(source) + [1]| < |other|;
    assert f([e.key] + e.group(source) + [1]) == 1 && f([e.key] + e.group(source) + [2]) == 2;
  }

  /** The bucket of a tried address depends on the address itself. */
  lemma TriedAddressesSeparated(e: Env, a: Service, b: Service) returns (f: seq<nat> -> nat)
    requires e.serviceKey(a) != e.serviceKey(b) && e.group(a.addr) == e.group(b.addr)
    requires |e.serviceKey(a)| > |e.group(a.addr)| + 1 && |e.serviceKey(b)| > |e.group(a.addr)| + 1
    ensures TriedBucket(e.(cheapHash := f), a) != TriedBucket(e.(cheapHash := f), b)
  {
    var own, other := [e.key] + e.serviceKey(a), [e.key] + e.serviceKey(b);
    f := x => if x == own then 1 else if x == other then 2 else if |x| > 0 then x[|x| - 1] else 0;
    assert own[1..] == e.serviceKey(a) && other[1..] == e.serviceKey(b);
    var group := e.group(a.addr);
    assert |[e.key] + group + [1]| < |own| && |[e.key] + group + [1]| < |other|;
    assert f([e.key] + group + [1]) == 1 && f([e.key] + group + [2]) == 2;
  }

  /** Positions depend on the bucket and on the address. */
  lemma PositionsSeparated(e: Env, isNew: bool, a: Service, b: Service, bucket: nat, bucket': nat) returns (f: seq<nat> -> nat)
    ensures bucket != bucket' ==>
      BucketPosition(e.(cheapHash := f), isNew, bucket, a) != BucketPosition(e.(cheapHash := f), isNew, bucket', a)
    ensures e.serviceKey(a) != e.serviceKey(b) ==>
      BucketPosition(e.(cheapHash := f), isNew, bucket, a) != BucketPosition(e.(cheapHash := f), isNew, bucket, b)
  {
    var table := if isNew then 'N' as nat else 'K' as nat;
    var x, y := [e.key, table, bucket] + e.serviceKey(a), [e.key, table, bucket] + e.serviceKey(b);
    f := z => if z == x then 1 else 0;
    assert x[3..] == e.serviceKey(a) && y[3..] == e.serviceKey(b);
    assert ([e.key, table, bucket'] + e.serviceKey(a))[2] == bucket' && x[2] == bucket;
  }

  /** Whoever does not know the key cannot tell the slots: some hash separates any two keys. */
  lemma KeysSeparated(e: Env, key: nat, s: Service, source: NetAddr, isNew: bool, bucket: nat) returns (f: seq<nat> -> nat)
    requires key != e.key
    ensures var d, d' := e.(cheapHash := f), e.(cheapHash := f, key := key);
      && NewBucket(d, s, source) != NewBucket(d', s, source) && TriedBucket(d, s) != TriedBucket(d', s)
      && BucketPosition(d, isNew, bucket, s) != BucketPosition(d', isNew, bucket, s)
  {
    f := x => if |x| > 0 && x[0] == e.key then 1 else 0;
  }

  /** Dropped at once: no entry that was tried in the last minute, and exactly those with one of four faults. */
  lemma TerribleExactly(info: AddrInfo, now: int)
    ensures IsTerrible(info, now) <==>
      && now - info.lastTry > 60
      && (|| info.time > now + 600
          || now - info.time > 2592000
          || (info.lastSuccess == 0 && info.attempts >= 3)
          || (now - info.lastSuccess > 604800 && info.attempts >= 10))
  {
  }

  /** The fields of the address manager. */
  datatype Mem = Mem(
    info: map<int, AddrInfo>,
    addr: map<Service, int>,
    random: seq<int>,
    newTable: Table,
    triedTable: Table,
    nNew: int,
    nTried: int,
    counts: map<Network, Count>,
    idCount: int,
    collisions: set<nat>)

  // ---------- The invariant ----------

  /** mapAddr is the index of mapInfo by address, and ids are not reused. */
  ghost predicate IndexOk(m: Mem) {
    && (forall id :: id in m.info ==> m.info[id].service in m.addr && m.addr[m.info[id].service] == id)
    && (forall s :: s in m.addr ==> m.addr[s] in m.info && m.info[m.addr[s]].service == s)
    && (forall id :: id in m.info ==> 0 <= id < m.idCount)
    && 0 <= m.idCount
  }

  /** vRandom lists all ids once each, and nRandomPos is its inverse. */
  ghost predicate RandomOk(m: Mem) {
    && (forall id :: id in m.info ==> 0 <= m.info[id].randomPos < |m.random| && m.random[m.info[id].randomPos] == id)
    && (forall i :: 0 <= i < |m.random| ==> m.random[i] in m.info && m.info[m.random[i]].randomPos == i)
  }

  /** The buckets of the new table in which an address is stored under `id`. */
  ghost function Holders(e: Env, table: Table, s: Service, id: int): set<nat> {
    set b: nat | b < NEW_BUCKET_COUNT && NewSlot(e, b, s) in table && table[NewSlot(e, b, s)] == id
  }

  /** The new table holds untried addresses at their positions, as often as their reference counts say. */
  ghost predicate NewOk(e: Env, m: Mem) {
    && (forall s :: s in m.newTable <==> InNewTable(s))
    && (forall s :: s in m.newTable && m.newTable[s] != EMPTY ==>
          && m.newTable[s] in m.info && !m.info[m.newTable[s]].inTried
          && s == NewSlot(e, s.bucket, m.info[m.newTable[s]].service))
    && (forall id :: id in m.info ==> m.info[id].refCount == |Holders(e, m.newTable, m.info[id].service, id)|)
  }

  /** The tried table holds exactly the tried addresses, each in its one slot. */
  ghost predicate TriedOk(e: Env, m: Mem) {
    && (forall s :: s in m.triedTable <==> InTriedTable(s))
    && (forall s :: s in m.triedTable && m.triedTable[s] != EMPTY ==>
          && m.triedTable[s] in m.info && m.info[m.triedTable[s]].inTried
          && s == TriedSlot(e, m.info[m.triedTable[s]].service))
    && (forall id :: id in m.info && m.info[id].inTried ==> m.triedTable[TriedSlot(e, m.info[id].service)] == id)
  }

  ghost function NewIds(m: Mem, uncounted: set<int>): set<int> {
    set id | id in m.info && !m.info[id].inTried && id !in uncounted
  }

  ghost function TriedIds(m: Mem): set<int> {
    set id | id in m.info && m.info[id].inTried
  }

  ghost function NetworkOf(e: Env, m: Mem, id: int): Network
    requires id in m.info
  {
    e.network(m.info[id].service.addr)
  }

  ghost function OfNetwork(e: Env, m: Mem, ids: set<int>, n: Network): set<int> {
    set id | id in ids && id in m.info && NetworkOf(e, m, id) == n
  }

  function CountOf(counts: map<Network, Count>, n: Network): Count {
    if n in counts then counts[n] else Count(0, 0)
  }

  /** The totals and the per-network counts are exact; ids in `uncounted` are counted nowhere. */
  ghost predicate CountsOk(e: Env, m: Mem, uncounted: set<int>) {
    && m.nNew == |NewIds(m, uncounted)|
    && m.nTried == |TriedIds(m)|
    && (forall n :: CountOf(m.counts, n) ==
          Count(|OfNetwork(e, m, NewIds(m, uncounted), n)|, |OfNetwork(e, m, TriedIds(m), n)|))
  }

  /** Reference counts and times are in range; only ids in `pending` may be in no table at all. */
  ghost predicate RangeOk(m: Mem, pending: set<int>) {
    forall id :: id in m.info ==>
      && m.info[id].refCount <= NEW_BUCKETS_PER_ADDRESS
      && (!m.info[id].inTried && id !in pending ==> m.info[id].refCount >= 1)
      && m.info[id].lastTry >= 0 && m.info[id].lastSuccess >= 0
      && (m.info[id].inTried ==> m.info[id].lastSuccess > 0)
  }

  /** Few collisions are kept, and the tried slot a colliding id still waits for is occupied. */
  ghost predicate CollisionsOk(e: Env, m: Mem, holes: set<Slot>) {
    && |m.collisions| <= SET_TRIED_COLLISION_SIZE
    && (forall id :: id in m.collisions ==> id < m.idCount)
    && (forall id :: id in m.collisions && id in m.info && TriedSlot(e, m.info[id].service) !in holes ==>
          && TriedSlot(e, m.info[id].service) in m.triedTable
          && m.triedTable[TriedSlot(e, m.info[id].service)] != EMPTY)
  }

  /**
    What an operation is in the middle of moving: ids that may be in no table, ids that are counted
    nowhere, and tried slots that are about to be filled again.
   */
  datatype Limbo = Limbo(pending: set<int>, uncounted: set<int>, holes: set<Slot>)

  const Settled := Limbo({}, {}, {})

  ghost predicate Inv(e: Env, m: Mem, x: Limbo) {
    && IndexOk(m)
    && RandomOk(m)
    && NewOk(e, m)
    && TriedOk(e, m)
    && CountsOk(e, m, x.uncounted)
    && RangeOk(m, x.pending)
    && CollisionsOk(e, m, x.holes)
  }
}
