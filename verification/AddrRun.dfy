/** Whole runs of the address manager, from any valid one, under any sequence of operations. */
module AddrRun {
  import opened Collections
  import opened Options
  import opened AddrTypes
  import opened AddrMan
  import opened AddrSerialize

  datatype Op =
    | AddSingle(addr: Service, time: int, services: set<nat>, source: NetAddr, timePenalty: int, now: int, lucky: bool)
    | Good(addr: Service, testBeforeEvict: bool, time: int)
    | Attempt(addr: Service, countFailure: bool, time: int)
    | Connected(addr: Service, time: int)
    | SetServices(addr: Service, services: set<nat>)
    | ResolveCollisions(now: int)
    | SelectTriedCollision
    | GetAddr(maxAddresses: nat, maxPct: nat, network: Option<Network>, filtered: bool, now: int, rand: nat -> nat)

  /** Clocks do not run before the epoch, and a connection does not succeed at it. */
  predicate Timely(op: Op) {
    && (op.Good? ==> op.time > 0)
    && (op.Attempt? ==> op.time >= 0)
    && (op.ResolveCollisions? ==> op.now > 0)
  }

  /** An operation that only touches statistics, positions or collisions. */
  lemma TouchProgress(m: Mem, m': Mem)
    requires m'.idCount == m.idCount && m'.triedTable == m.triedTable && m'.info.Keys == m.info.Keys
    requires forall id :: id in m.info && id in m'.info ==> m'.info[id].service == m.info[id].service
    ensures Progress(m, m')
  {
    forall id | id in m'.info ensures id in m.info {
      assert id in m.info.Keys;
    }
  }

  /** One operation of a run. */
  method Step(am: AddrMan, op: Op)
    requires am.Valid() && Timely(op)
    modifies am
    ensures am.Valid() && Progress(old(am.M()), am.M())
  {
    hide Inv;
    match op {
      case AddSingle(addr, time, services, source, timePenalty, now, lucky) =>
        var inserted := am.AddSingle(addr, time, services, source, timePenalty, now, lucky);
      case Good(addr, testBeforeEvict, time) =>
        var moved := am.Good(addr, testBeforeEvict, time);
      case Attempt(addr, countFailure, time) =>
        am.Attempt(addr, countFailure, time);
        TouchProgress(old(am.M()), am.M());
      case Connected(addr, time) =>
        am.Connected(addr, time);
        TouchProgress(old(am.M()), am.M());
      case SetServices(addr, services) =>
        am.SetServices(addr, services);
        TouchProgress(old(am.M()), am.M());
      case ResolveCollisions(now) =>
        ghost var order, trace := am.ResolveCollisions(now);
      case SelectTriedCollision =>
        var pick := 0;
        if am.triedCollisions != {} {
          pick := AnyOf(am.triedCollisions);
        }
        var selected := am.SelectTriedCollision(pick);
        TouchProgress(old(am.M()), am.M());
      case GetAddr(maxAddresses, maxPct, network, filtered, now, rand) =>
        var addrs; ghost var ids; ghost var drawn;
        addrs, ids, drawn := am.GetAddr(maxAddresses, maxPct, network, filtered, now, rand);
        TouchProgress(old(am.M()), am.M());
    }
  }

  /**
    Test before evict: an address that is reached while its tried slot is taken is remembered, if there is room, and what
    is then handed out for it to be tested is the occupant of that slot, which is still where it was.
   */
  method ReachedThenTested(am: AddrMan, addr: Service, time: int) returns (selected: Option<(Address, int)>)
    requires am.Valid() && time > 0 && addr in am.mapAddr && am.mapAddr[addr] in am.mapInfo
    requires !am.mapInfo[am.mapAddr[addr]].inTried && |am.triedCollisions| < 10
    requires TriedSlot(am.env, addr) in am.vvTried && am.vvTried[TriedSlot(am.env, addr)] != EMPTY
    modifies am
    ensures am.Valid() && am.vvTried == old(am.vvTried) && am.vvNew == old(am.vvNew) && am.mapAddr == old(am.mapAddr)
    ensures am.triedCollisions == old(am.triedCollisions) + {old(am.mapAddr)[addr]}
    ensures var occupant := old(am.vvTried)[TriedSlot(am.env, addr)];
      && occupant in old(am.mapInfo) && old(am.mapInfo)[occupant].inTried && occupant != old(am.mapAddr)[addr]
      && var info := old(am.mapInfo)[occupant];
      selected == Some((Address(info.service, info.time, info.services), info.lastTry))
  {
    hide RandomOk, NewOk, CountsOk, RangeOk, CollisionsOk, TriedSlot;
    var id := am.mapAddr[addr];
    ghost var m := am.M();
    TriedOccupant(am.env, m, TriedSlot(am.env, addr));
    IndexDomain(m);
    var moved := am.Good(addr, true, time);
    selected := am.SelectTriedCollision(id);
    SameStatistics(am.mapInfo[am.vvTried[TriedSlot(am.env, addr)]], m.info[m.triedTable[TriedSlot(am.env, addr)]]);
  }

  /**
    Every state of every run is settled. Between any two of them, no id was reused or renamed, and no
    filled slot of the tried table was emptied.
   */
  method Run(am: AddrMan, ops: seq<Op>) returns (ghost trace: seq<Mem>)
    requires am.Valid() && forall i :: 0 <= i < |ops| ==> Timely(ops[i])
    modifies am
    ensures am.Valid() && |trace| == |ops| + 1 && trace[0] == old(am.M()) && trace[|ops|] == am.M()
    ensures forall i :: 0 <= i < |trace| ==> Inv(am.env, trace[i], Settled)
    ensures forall i, j :: 0 <= i <= j < |trace| ==> Progress(trace[i], trace[j])
  {
    hide Inv, Progress;
    trace := [am.M()];
    SameProgress(am.M());
    for k := 0 to |ops|
      invariant am.Valid() && |trace| == k + 1 && trace[0] == old(am.M()) && trace[k] == am.M()
      invariant forall i :: 0 <= i < |trace| ==> Inv(am.env, trace[i], Settled)
      invariant forall i, j :: 0 <= i <= j < |trace| ==> Progress(trace[i], trace[j])
    {
      ghost var before := trace;
      Step(am, ops[k]);
      SameProgress(am.M());
      forall i | 0 <= i < |before| ensures Progress(before[i], am.M()) {
        assert Inv(am.env, before[i], Settled) && Progress(before[i], before[k]);
        SettledIds(am.env, before[i]);
        ProgressTransitive(before[i], before[k], am.M());
      }
      trace := before + [am.M()];
    }
  }

  /**
    A node starts with the tables of its file, or with empty ones if there is none. It does not start if the file is refused,
    but it does with the same tables if the file was written from a valid state.
   */
  method Start(env: Env, file: Option<File>, ghost m0: Mem, ghost news: seq<int>, ghost trieds: seq<int>) returns (am: AddrMan?)
    requires env.key != 0
    ensures am != null ==> fresh(am) && am.Valid() && am.env == if file.Some? then env.(key := file.value.key) else env
    ensures file.None? ==> am != null && am.mapInfo == map[]
    ensures file.Some? && file.value.key != 0 && Faithful(env.(key := file.value.key), m0, news, trieds, file.value) ==>
      am != null && SameManager(m0, news + trieds, am.M())
  {
    hide Inv, Faithful, SameManager, FromFile, Housed, Served, AllValid;
    if file.None? {
      am := new AddrMan(env);
    } else {
      var ok, m := Unserialize(env, file.value, m0, news, trieds);
      am := null;
      if ok {
        am := new AddrMan.Loaded(env.(key := file.value.key), m);
      }
    }
  }

  /** A node that is stopped and started again has the same address manager, if all its addresses are valid. */
  method Restart(am: AddrMan, order: seq<int>) returns (again: AddrMan?, ghost ids: seq<int>)
    requires am.Valid() && AllValid(am.env, am.M()) && Lists(order, am.mapInfo.Keys)
    ensures again != null && fresh(again) && again.Valid() && again.env == am.env && SameManager(am.M(), ids, again.M())
  {
    hide Inv, AllValid, Lists, SameManager, Wrote;
    ghost var news, trieds;
    var file;
    file, news, trieds := Serialize(am.env, am.M(), order);
    WroteSameKey(am.env, am.M(), news, trieds, file);
    assert am.env.(key := file.key) == am.env;
    again := Start(am.env, Some(file), am.M(), news, trieds);
    ids := news + trieds;
  }

  /** So every run of a node, from any file and under any operations, keeps the invariant throughout. */
  method RunNode(env: Env, file: Option<File>, ops: seq<Op>) returns (am: AddrMan?, ghost trace: seq<Mem>)
    requires env.key != 0 && forall i :: 0 <= i < |ops| ==> Timely(ops[i])
    ensures file.None? ==> am != null
    ensures am != null ==> am.Valid() && |trace| == |ops| + 1 && trace[|ops|] == am.M()
    ensures am != null ==> forall i :: 0 <= i < |trace| ==> Inv(am.env, trace[i], Settled)
    ensures am != null ==> forall i, j :: 0 <= i <= j < |trace| ==> Progress(trace[i], trace[j])
  {
    hide Inv, Progress;
    am := Start(env, file, EmptyMem(), [], []);
    trace := [];
    if am != null {
      trace := Run(am, ops);
    }
  }
}
