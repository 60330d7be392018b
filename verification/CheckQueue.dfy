/**
  The parallel check queue: one master and any number of workers share a stack of checks under a mutex.
  A step is one critical section, or one check evaluated outside of it. Waiting threads may wake up
  without having been notified.
 */
module CheckQueue {
  import opened Options

  type Err = nat

  /** A check and what calling it yields. */
  datatype Check = Check(id: nat, outcome: Option<Err>)

  /**
    Outside: the master between two calls of Complete. Notifying: the master in Add, with the checks queued and
    the mutex released, before it notifies one worker or all of them. Start: in Loop, before the first critical section.
    Working: executing a batch. Cleanup: about to enter the critical section again. Critical: in it, with
    the previous batch accounted for. Waiting: blocked on the condition variable.
   */
  datatype PC = Outside | Notifying(all: bool) | Start | Working | Cleanup | Critical | Waiting

  /** A thread's local variables; `batch` is what it has taken and not yet accounted for. */
  datatype Thread = Thread(pc: PC, nNow: nat, batch: seq<Check>, pos: nat, local: Option<Err>, doWork: bool, notified: bool)

  /** The shared fields, the threads (the master first), and the checks of the session and those done with. */
  datatype State = State(
    queue: seq<Check>,
    nIdle: int,
    nTotal: int,
    result: Option<Err>,
    nTodo: int,
    threads: seq<Thread>,
    added: seq<Check>,
    finished: multiset<Check>)

  const MASTER: nat := 0

  datatype Config = Config(batchSize: nat)

  // ---------- Steps ----------

  /** Adds checks. The workers are notified of them only after the mutex has been released. */
  function Add(s: State, checks: seq<Check>): State
    requires |s.threads| > 0
  {
    s.(queue := s.queue + checks, nTodo := s.nTodo + |checks|, added := s.added + checks,
       threads := if checks == [] then s.threads
                  else s.threads[MASTER := s.threads[MASTER].(pc := Notifying(|checks| > 1))])
  }

  /** Blocked, and not called upon. */
  predicate Asleep(t: Thread) {
    t.pc == Waiting && !t.notified
  }

  /** Whether a notification of one worker can reach this one: one that is asleep, while there is any. */
  predicate CanBeNotified(s: State, chosen: nat) {
    (exists i :: 0 < i < |s.threads| && Asleep(s.threads[i])) ==> 0 < chosen < |s.threads| && Asleep(s.threads[chosen])
  }

  /** One waiting worker is notified of a single check, all of them of several. */
  function Notify(s: State, chosen: nat): State
    requires |s.threads| > 0 && s.threads[MASTER].pc.Notifying?
  {
    var ts := s.threads[MASTER := s.threads[MASTER].(pc := Outside)];
    s.(threads := if s.threads[MASTER].pc.all then NotifyWorkers(ts)
                  else if 0 < chosen < |ts| then NotifyOne(ts, chosen) else ts)
  }

  function Notified(t: Thread): Thread {
    if t.pc == Waiting then t.(notified := true) else t
  }

  function NotifyOne(ts: seq<Thread>, i: nat): seq<Thread>
    requires i < |ts|
  {
    ts[i := Notified(ts[i])]
  }

  function NotifyWorkers(ts: seq<Thread>): seq<Thread> {
    seq(|ts|, i requires 0 <= i < |ts| => if i == MASTER then ts[i] else Notified(ts[i]))
  }

  /** The master calls Complete, which runs the loop with fresh local variables. */
  function CallComplete(s: State): State
    requires |s.threads| > 0
  {
    s.(threads := s.threads[MASTER := Thread(Start, 0, [], 0, None, false, false)])
  }

  /** How many checks to take: no more than the batch size, fewer the more threads are about. The divisor is positive in every run. */
  function BatchLength(c: Config, s: State): int {
    var share := if s.nTotal + s.nIdle + 1 > 0 then |s.queue| / (s.nTotal + s.nIdle + 1) else 0;
    var capped := if c.batchSize < share then c.batchSize else share;
    if capped < 1 then 1 else capped
  }

  /** What a step of a thread leads to: a new state, and the value returned if it ends the loop. */
  datatype Outcome = Outcome(state: State, returned: Option<Option<Err>>)

  /** The end of a critical section: return, wait, or take a batch from the end of the queue. */
  function Settle(c: Config, s: State, i: nat): Outcome
    requires i < |s.threads|
  {
    var t := s.threads[i];
    if s.queue == [] then
      if i == MASTER && s.nTodo == 0 then
        Outcome(s.(nTotal := s.nTotal - 1, result := None, added := [], finished := multiset{},
                   threads := s.threads[i := t.(pc := Outside, notified := false)]),
                Some(s.result))
      else
        Outcome(s.(nIdle := s.nIdle + 1, threads := s.threads[i := t.(pc := Waiting, notified := false)]), None)
    else
      var n := BatchLength(c, s);
      var from := if n <= |s.queue| then |s.queue| - n else 0;
      Outcome(s.(queue := s.queue[..from],
                 threads := s.threads[i := Thread(Working, n, s.queue[from..], 0, t.local, s.result.None?, false)]),
              None)
  }

  /** The start of a critical section: account for the previous batch, or count the thread in. */
  function Account(s: State, i: nat): State
    requires i < |s.threads|
  {
    var t := s.threads[i];
    if t.nNow > 0 then
      var publish := t.local.Some? && s.result.None?;
      var nTodo := s.nTodo - t.nNow;
      var ts := s.threads[i := t.(pc := Critical, batch := [], local := if publish then None else t.local)];
      s.(result := if publish then t.local else s.result,
         nTodo := nTodo,
         finished := s.finished + multiset(t.batch),
         threads := if nTodo == 0 && i != MASTER then NotifyOne(ts, MASTER) else ts)
    else
      s.(nTotal := s.nTotal + 1, threads := s.threads[i := t.(pc := Critical)])
  }

  /** Waking up, with the mutex held again. */
  function Awake(s: State, i: nat): State
    requires i < |s.threads|
  {
    s.(nIdle := s.nIdle - 1, threads := s.threads[i := s.threads[i].(pc := Critical)])
  }

  datatype Action =
    | AddChecks(checks: seq<Check>)
    | NotifyWaiting(chosen: nat)
    | Complete
    | Enter(i: nat)
    | Wake(i: nat)
    | Eval(i: nat)

  predicate Enabled(s: State, a: Action) {
    match a
    case AddChecks(_) => |s.threads| > 0 && s.threads[MASTER].pc == Outside
    case NotifyWaiting(chosen) => |s.threads| > 0 && s.threads[MASTER].pc.Notifying? && CanBeNotified(s, chosen)
    case Complete => |s.threads| > 0 && s.threads[MASTER].pc == Outside
    case Enter(i) => i < |s.threads| && (s.threads[i].pc == Start || s.threads[i].pc == Cleanup)
    case Wake(i) => i < |s.threads| && s.threads[i].pc == Waiting
    case Eval(i) => i < |s.threads| && s.threads[i].pc == Working
  }

  /** Executing a batch: check by check until one fails, or not at all if an error is already known. */
  function Evaluate(t: Thread): Thread {
    if !t.doWork || t.pos >= |t.batch| then t.(pc := Cleanup)
    else
      var r := t.batch[t.pos].outcome;
      t.(local := r, pos := t.pos + 1, pc := if r.Some? || t.pos + 1 == |t.batch| then Cleanup else Working)
  }

  // ---------- Sums over the threads ----------

  function Sum(ts: seq<Thread>, f: Thread -> int): int {
    if ts == [] then 0 else Sum(ts[..|ts| - 1], f) + f(ts[|ts| - 1])
  }

  lemma {:induction false} SumUpdate(ts: seq<Thread>, i: nat, t: Thread, f: Thread -> int)
    requires i < |ts|
    ensures Sum(ts[i := t], f) == Sum(ts, f) - f(ts[i]) + f(t)
  {
    var n := |ts| - 1;
    if i == n {
      assert ts[i := t][..n] == ts[..n];
    } else {
      assert ts[i := t][..n] == ts[..n][i := t];
      SumUpdate(ts[..n], i, t, f);
    }
  }

  lemma {:induction false} SumSame(ts: seq<Thread>, ts': seq<Thread>, f: Thread -> int)
    requires |ts| == |ts'| && forall i :: 0 <= i < |ts| ==> f(ts[i]) == f(ts'[i])
    ensures Sum(ts, f) == Sum(ts', f)
  {
    if ts != [] {
      SumSame(ts[..|ts| - 1], ts'[..|ts| - 1], f);
    }
  }

  lemma {:induction false} SumBound(ts: seq<Thread>, f: Thread -> int, i: nat)
    requires i < |ts| && forall j :: 0 <= j < |ts| ==> f(ts[j]) >= 0
    ensures 0 <= f(ts[i]) <= Sum(ts, f)
    decreases |ts|
  {
    var n := |ts| - 1;
    SumNonNegative(ts[..n], f);
    if i < n {
      SumBound(ts[..n], f, i);
    }
  }

  lemma {:induction false} SumNonNegative(ts: seq<Thread>, f: Thread -> int)
    requires forall j :: 0 <= j < |ts| ==> f(ts[j]) >= 0
    ensures Sum(ts, f) >= 0
  {
    if ts != [] {
      SumNonNegative(ts[..|ts| - 1], f);
    }
  }

  /** A positive sum has a positive term. */
  lemma {:induction false} SumHasTerm(ts: seq<Thread>, f: Thread -> int) returns (i: nat)
    requires Sum(ts, f) > 0
    ensures i < |ts| && f(ts[i]) > 0
  {
    var n := |ts| - 1;
    if f(ts[n]) > 0 {
      i := n;
    } else {
      i := SumHasTerm(ts[..n], f);
    }
  }

  function IsWaiting(t: Thread): int {
    if t.pc == Waiting then 1 else 0
  }

  function IsInside(t: Thread): int {
    if t.pc == Outside || t.pc.Notifying? || t.pc == Start then 0 else 1
  }

  function Load(t: Thread): int {
    |t.batch|
  }

  /** All checks that threads have taken and not accounted for. */
  ghost function InFlight(ts: seq<Thread>): multiset<Check> {
    if ts == [] then multiset{} else InFlight(ts[..|ts| - 1]) + multiset(ts[|ts| - 1].batch)
  }

  lemma {:induction false} InFlightUpdate(ts: seq<Thread>, i: nat, t: Thread)
    requires i < |ts|
    ensures InFlight(ts[i := t]) + multiset(ts[i].batch) == InFlight(ts) + multiset(t.batch)
  {
    var n := |ts| - 1;
    if i == n {
      assert ts[i := t][..n] == ts[..n];
    } else {
      assert ts[i := t][..n] == ts[..n][i := t];
      InFlightUpdate(ts[..n], i, t);
      AddToBoth(InFlight(ts[..n][i := t]), InFlight(ts[..n]), multiset(ts[n].batch), multiset(ts[i].batch), multiset(t.batch));
    }
  }

  lemma AddToBoth(a': multiset<Check>, a: multiset<Check>, l: multiset<Check>, o: multiset<Check>, n: multiset<Check>)
    requires a' + o == a + n
    ensures a' + l + o == a + l + n
  {
    forall x ensures (a' + l + o)[x] == (a + l + n)[x] {
      assert (a' + o)[x] == (a + n)[x];
    }
  }

  lemma {:induction false} InFlightSame(ts: seq<Thread>, ts': seq<Thread>)
    requires |ts| == |ts'| && forall i :: 0 <= i < |ts| ==> ts[i].batch == ts'[i].batch
    ensures InFlight(ts) == InFlight(ts')
  {
    if ts != [] {
      InFlightSame(ts[..|ts| - 1], ts'[..|ts| - 1]);
    }
  }

  lemma {:induction false} InFlightEmpty(ts: seq<Thread>)
    requires forall i :: 0 <= i < |ts| ==> ts[i].batch == []
    ensures InFlight(ts) == multiset{}
  {
    if ts != [] {
      InFlightEmpty(ts[..|ts| - 1]);
    }
  }

  // ---------- The invariant ----------

  ghost predicate Passed(c: Check) {
    c.outcome == None
  }

  ghost predicate AllPassed(cs: seq<Check>) {
    forall k :: 0 <= k < |cs| ==> Passed(cs[k])
  }

  ghost predicate Reports(cs: seq<Check>, e: Err) {
    exists k :: 0 <= k < |cs| && cs[k].outcome == Some(e)
  }

  /** What holds of a thread, given the error known so far. */
  ghost predicate ThreadOk(c: Config, t: Thread, known: Option<Err>) {
    && (t.pc == Start ==> t.nNow == 0)
    && (t.pc != Working && t.pc != Cleanup ==> t.batch == [])
    && (t.pc == Working || t.pc == Cleanup ==>
          && 1 <= t.nNow == |t.batch| && (t.nNow == 1 || t.nNow <= c.batchSize)
          && (!t.doWork ==> known.Some?))
    && (t.pc == Working && t.doWork ==> t.pos < |t.batch| && AllPassed(t.batch[..t.pos]))
    && (t.pc == Cleanup && t.doWork ==>
          if t.local.None? then AllPassed(t.batch) else Reports(t.batch, t.local.value))
  }

  /** In Loop: always for a worker, for the master while it is in Complete. */
  predicate InLoop(t: Thread) {
    t.pc != Outside && !t.pc.Notifying?
  }

  ghost predicate ThreadsOk(c: Config, s: State) {
    && |s.threads| > 0
    && (forall i :: 0 <= i < |s.threads| ==> ThreadOk(c, s.threads[i], s.result))
    && (forall i :: 0 < i < |s.threads| ==> InLoop(s.threads[i]))
  }

  ghost predicate CountsOk(s: State) {
    && s.nIdle == Sum(s.threads, IsWaiting)
    && s.nTotal == Sum(s.threads, IsInside)
    && s.nTodo == |s.queue| + Sum(s.threads, Load)
  }

  /** Every check added is queued, in a batch, or done with; nothing is lost or taken twice. */
  ghost predicate Conserved(s: State) {
    multiset(s.added) == multiset(s.queue) + InFlight(s.threads) + s.finished
  }

  /** The result kept so far is an error of the session, or no check done with has failed. */
  ghost predicate ResultOk(s: State) {
    if s.result.Some? then Reports(s.added, s.result.value)
    else forall x :: x in s.finished ==> Passed(x)
  }

  /** A waiting master has an empty queue before it, and has been notified once nothing is left to do. */
  ghost predicate MasterOk(s: State) {
    |s.threads| > 0 && s.threads[MASTER].pc == Waiting ==> s.queue == [] && (s.nTodo == 0 ==> s.threads[MASTER].notified)
  }

  /** While there are checks in the queue, the workers are not all asleep: the wake-up of Add is not lost on them. */
  ghost predicate WorkersOk(s: State) {
    |s.threads| > 1 && s.queue != [] && !s.threads[MASTER].pc.Notifying? ==>
      exists i :: 0 < i < |s.threads| && !Asleep(s.threads[i])
  }

  ghost predicate Inv(c: Config, s: State) {
    ThreadsOk(c, s) && CountsOk(s) && Conserved(s) && ResultOk(s) && MasterOk(s) && WorkersOk(s)
  }

  ghost predicate Init(s: State) {
    && |s.threads| > 0
    && s.threads[MASTER] == Thread(Outside, 0, [], 0, None, false, false)
    && (forall i :: 0 < i < |s.threads| ==> s.threads[i] == Thread(Start, 0, [], 0, None, false, false))
    && s == State([], 0, 0, None, 0, s.threads, [], multiset{})
  }

  lemma InitInv(c: Config, s: State)
    requires Init(s)
    ensures Inv(c, s)
  {
    InFlightEmpty(s.threads);
    SumZero(s.threads, IsWaiting);
    SumZero(s.threads, IsInside);
    SumZero(s.threads, Load);
  }

  lemma {:induction false} SumZero(ts: seq<Thread>, f: Thread -> int)
    requires forall i :: 0 <= i < |ts| ==> f(ts[i]) == 0
    ensures Sum(ts, f) == 0
  {
    if ts != [] {
      SumZero(ts[..|ts| - 1], f);
    }
  }

  // ---------- Every step keeps it ----------

  /** One thread changes: the three sums and the checks in flight change with it. */
  lemma ThreadChanged(ts: seq<Thread>, i: nat, t: Thread)
    requires i < |ts|
    ensures Sum(ts[i := t], IsWaiting) == Sum(ts, IsWaiting) - IsWaiting(ts[i]) + IsWaiting(t)
    ensures Sum(ts[i := t], IsInside) == Sum(ts, IsInside) - IsInside(ts[i]) + IsInside(t)
    ensures Sum(ts[i := t], Load) == Sum(ts, Load) - Load(ts[i]) + Load(t)
    ensures InFlight(ts[i := t]) + multiset(ts[i].batch) == InFlight(ts) + multiset(t.batch)
    ensures ts[i].batch == t.batch ==> InFlight(ts[i := t]) == InFlight(ts)
  {
    if ts[i].batch == t.batch {
      InFlightSame(ts, ts[i := t]);
    }
    SumUpdate(ts, i, t, IsWaiting);
    SumUpdate(ts, i, t, IsInside);
    SumUpdate(ts, i, t, Load);
    InFlightUpdate(ts, i, t);
  }

  /** Notifications change no sum. */
  lemma NotifiedOnly(ts: seq<Thread>, ts': seq<Thread>)
    requires |ts| == |ts'| && forall i :: 0 <= i < |ts| ==> ts'[i] == ts[i].(notified := ts'[i].notified)
    ensures Sum(ts', IsWaiting) == Sum(ts, IsWaiting) && Sum(ts', IsInside) == Sum(ts, IsInside)
    ensures Sum(ts', Load) == Sum(ts, Load) && InFlight(ts') == InFlight(ts)
  {
    SumSame(ts, ts', IsWaiting);
    SumSame(ts, ts', IsInside);
    SumSame(ts, ts', Load);
    InFlightSame(ts, ts');
  }

  /** Nobody falls asleep over a queue that is not empty. */
  lemma StillAwake(s: State, s': State)
    requires WorkersOk(s) && |s'.threads| == |s.threads| > 0 && (s.queue == [] ==> s'.queue == [])
    requires s.threads[MASTER].pc.Notifying? ==> s'.threads[MASTER].pc.Notifying?
    requires forall i :: 0 < i < |s.threads| ==> !Asleep(s.threads[i]) ==> !Asleep(s'.threads[i])
    ensures WorkersOk(s')
  {
  }

  lemma AddKeeps(c: Config, s: State, checks: seq<Check>)
    requires Inv(c, s) && s.threads[MASTER].pc == Outside
    ensures Inv(c, Add(s, checks))
  {
    hide Sum, InFlight, Reports, Passed;
    if checks == [] {
      assert Add(s, checks) == s;
    } else {
      ThreadChanged(s.threads, MASTER, s.threads[MASTER].(pc := Notifying(|checks| > 1)));
      MoreQueued(multiset(s.queue), multiset(checks), InFlight(s.threads), s.finished);
      if s.result.Some? {
        ReportsMore(s.added, checks, s.result.value);
      }
    }
  }

  lemma MoreQueued(q: multiset<Check>, more: multiset<Check>, f: multiset<Check>, done: multiset<Check>)
    ensures q + f + done + more == q + more + f + done
  {
  }

  lemma NotifyKeeps(c: Config, s: State, chosen: nat)
    requires Inv(c, s) && s.threads[MASTER].pc.Notifying? && CanBeNotified(s, chosen)
    ensures Inv(c, Notify(s, chosen))
  {
    hide Sum, InFlight, Reports, Passed, ThreadOk, WorkersOk, CanBeNotified;
    var s1 := s.(threads := s.threads[MASTER := s.threads[MASTER].(pc := Outside)]);
    BackOutside(c, s);
    NotifiedOnly(s1.threads, Notify(s, chosen).threads);
    NotifyKeepsThreads(c, s1, Notify(s, chosen));
    NotifyWakes(s, chosen);
  }

  lemma NotifyWakes(s: State, chosen: nat)
    requires |s.threads| > 0 && s.threads[MASTER].pc.Notifying? && CanBeNotified(s, chosen)
    ensures WorkersOk(Notify(s, chosen))
  {
    var ts := Notify(s, chosen).threads;
    if |s.threads| > 1 {
      if s.threads[MASTER].pc.all {
        assert !Asleep(ts[1]);
      } else if i :| 0 < i < |s.threads| && Asleep(s.threads[i]) {
        assert !Asleep(ts[chosen]);
      } else {
        assert !Asleep(ts[1]);
      }
    }
  }

  /** Add always comes to its end: there is somebody to notify, or nobody has to be. */
  lemma SomeoneToNotify(s: State) returns (chosen: nat)
    requires |s.threads| > 0 && s.threads[MASTER].pc.Notifying?
    ensures Enabled(s, NotifyWaiting(chosen)) && Notify(s, chosen).threads[MASTER].pc == Outside
  {
    chosen := 0;
    if i :| 0 < i < |s.threads| && Asleep(s.threads[i]) {
      chosen := i;
    }
  }

  /** After several checks have been added and announced, no worker sleeps. */
  lemma SeveralWakeAll(s: State, checks: seq<Check>, chosen: nat)
    requires |s.threads| > 0 && |checks| > 1
    ensures Add(s, checks).threads[MASTER].pc.Notifying?
    ensures forall i :: 0 < i < |s.threads| ==>
      var t := Notify(Add(s, checks), chosen).threads[i]; t == s.threads[i].(notified := t.notified) && !Asleep(t)
  {
  }

  /** A single check is announced to one worker that sleeps, if any does, and to no other. */
  lemma OneWakesOne(s: State, check: Check, chosen: nat)
    requires |s.threads| > 0 && 0 < chosen < |s.threads| && Asleep(s.threads[chosen])
    ensures Add(s, [check]).threads[MASTER].pc.Notifying? && CanBeNotified(Add(s, [check]), chosen)
    ensures Notify(Add(s, [check]), chosen).threads[1..] == s.threads[chosen := s.threads[chosen].(notified := true)][1..]
  {
  }

  lemma BackOutside(c: Config, s: State)
    requires Inv(c, s) && s.threads[MASTER].pc.Notifying?
    ensures var s' := s.(threads := s.threads[MASTER := s.threads[MASTER].(pc := Outside)]);
      ThreadsOk(c, s') && CountsOk(s') && Conserved(s') && ResultOk(s') && MasterOk(s')
  {
    hide Sum, InFlight, Reports, Passed;
    ThreadChanged(s.threads, MASTER, s.threads[MASTER].(pc := Outside));
  }

  lemma ReportsMore(cs: seq<Check>, more: seq<Check>, e: Err)
    requires Reports(cs, e)
    ensures Reports(cs + more, e)
  {
    var k :| 0 <= k < |cs| && cs[k].outcome == Some(e);
    assert (cs + more)[k].outcome == Some(e);
  }

  lemma CompleteKeeps(c: Config, s: State)
    requires Inv(c, s) && s.threads[MASTER].pc == Outside
    ensures Inv(c, CallComplete(s))
  {
    hide Sum, InFlight, WorkersOk;
    ThreadChanged(s.threads, MASTER, Thread(Start, 0, [], 0, None, false, false));
    StillAwake(s, CallComplete(s));
  }

  lemma EvalKeeps(c: Config, s: State, i: nat)
    requires Inv(c, s) && i < |s.threads| && s.threads[i].pc == Working
    ensures Inv(c, s.(threads := s.threads[i := Evaluate(s.threads[i])]))
  {
    hide Sum, InFlight, ThreadOk, WorkersOk;
    var t := s.threads[i];
    ThreadChanged(s.threads, i, Evaluate(t));
    EvaluateOk(c, t, s.result);
    StillAwake(s, s.(threads := s.threads[i := Evaluate(t)]));
  }

  lemma EvaluateOk(c: Config, t: Thread, known: Option<Err>)
    requires ThreadOk(c, t, known) && t.pc == Working
    ensures ThreadOk(c, Evaluate(t), known)
  {
    var t' := Evaluate(t);
    if t.doWork {
      assert t.batch[..t.pos + 1] == t.batch[..t.pos] + [t.batch[t.pos]];
      if t.pos + 1 == |t.batch| {
        assert t.batch[..t.pos + 1] == t.batch;
      }
    }
  }

  lemma AwakeKeeps(c: Config, s: State, i: nat)
    requires Inv(c, s) && i < |s.threads| && s.threads[i].pc == Waiting
    ensures Inv(c, Awake(s, i))
    ensures |Awake(s, i).threads| == |s.threads| && Awake(s, i).threads[i].pc == Critical
  {
    hide Sum, InFlight, WorkersOk;
    ThreadChanged(s.threads, i, s.threads[i].(pc := Critical));
    StillAwake(s, Awake(s, i));
  }

  lemma AccountKeeps(c: Config, s: State, i: nat)
    requires Inv(c, s) && i < |s.threads| && (s.threads[i].pc == Start || s.threads[i].pc == Cleanup)
    ensures Inv(c, Account(s, i))
    ensures |Account(s, i).threads| == |s.threads| && Account(s, i).threads[i].pc == Critical
  {
    hide Sum, InFlight, ThreadOk, Reports, Passed;
    var t := s.threads[i];
    if t.pc == Start {
      assert t.nNow == 0 && t.batch == [] by { ThreadFacts(c, t, s.result); }
      StartCounted(c, s, i);
    } else {
      BatchCounted(c, s, i);
    }
  }

  lemma ThreadFacts(c: Config, t: Thread, known: Option<Err>)
    requires ThreadOk(c, t, known)
    ensures t.pc == Start ==> t.nNow == 0
    ensures if t.pc == Working || t.pc == Cleanup then 1 <= t.nNow == |t.batch| else t.batch == []
  {
  }

  lemma StartCounted(c: Config, s: State, i: nat)
    requires Inv(c, s) && i < |s.threads| && s.threads[i].pc == Start && s.threads[i].nNow == 0
    ensures Inv(c, Account(s, i))
  {
    hide Sum, InFlight, Reports, Passed, WorkersOk;
    ThreadChanged(s.threads, i, s.threads[i].(pc := Critical));
    StillAwake(s, Account(s, i));
  }

  /** The state after a batch is accounted for, before anyone is notified of it. */
  function Accounted(s: State, i: nat): State
    requires i < |s.threads|
  {
    var t := s.threads[i];
    var publish := t.local.Some? && s.result.None?;
    s.(result := if publish then t.local else s.result,
       nTodo := s.nTodo - t.nNow,
       finished := s.finished + multiset(t.batch),
       threads := s.threads[i := t.(pc := Critical, batch := [], local := if publish then None else t.local)])
  }

  lemma BatchCounted(c: Config, s: State, i: nat)
    requires Inv(c, s) && i < |s.threads| && s.threads[i].pc == Cleanup
    ensures Inv(c, Account(s, i))
  {
    hide Sum, InFlight, ThreadOk, Reports, Passed, WorkersOk;
    var s1, s' := Accounted(s, i), Account(s, i);
    StillAwake(s, s');
    ThreadFacts(c, s.threads[i], s.result);
    NotifiedOnly(s1.threads, s'.threads);
    AccountedThreads(c, s, i);
    AccountedCounts(c, s, i);
    AccountedResult(c, s, i);
    NotifyKeepsThreads(c, s1, s');
  }

  lemma NotifyKeepsThreads(c: Config, s: State, s': State)
    requires ThreadsOk(c, s) && |s'.threads| == |s.threads| && s'.result == s.result
    requires forall j :: 0 <= j < |s.threads| ==> s'.threads[j] == s.threads[j].(notified := s'.threads[j].notified)
    ensures ThreadsOk(c, s')
  {
  }

  /** A known error does not go away, so the threads that relied on one still can. */
  lemma AccountedThreads(c: Config, s: State, i: nat)
    requires ThreadsOk(c, s) && i < |s.threads| && s.threads[i].pc == Cleanup
    ensures ThreadsOk(c, Accounted(s, i))
  {
  }

  lemma AccountedCounts(c: Config, s: State, i: nat)
    requires Inv(c, s) && i < |s.threads| && s.threads[i].pc == Cleanup && s.threads[i].nNow == |s.threads[i].batch|
    ensures CountsOk(Accounted(s, i)) && Conserved(Accounted(s, i))
  {
    hide Sum, InFlight, ThreadOk, Reports, Passed;
    var t := s.threads[i];
    var s' := Accounted(s, i);
    ThreadChanged(s.threads, i, s'.threads[i]);
    MoveToFinished(multiset(s.queue), InFlight(s.threads), InFlight(s'.threads), multiset(t.batch), s.finished);
  }

  lemma MoveToFinished(q: multiset<Check>, f: multiset<Check>, f': multiset<Check>, b: multiset<Check>, done: multiset<Check>)
    requires f' + b == f
    ensures q + f + done == q + f' + (done + b)
  {
  }

  /** The error published is one of the batch just evaluated; without one, the whole batch has passed. */
  lemma AccountedResult(c: Config, s: State, i: nat)
    requires Inv(c, s) && i < |s.threads| && s.threads[i].pc == Cleanup
    ensures ResultOk(Accounted(s, i))
    ensures s.result.None? && s.threads[i].local.Some? ==> Reports(s.threads[i].batch, s.threads[i].local.value)
  {
    hide Sum;
    var t := s.threads[i];
    BatchIsAdded(s, i);
    if s.result.None? {
      assert t.doWork;
      if t.local.Some? {
        var k :| 0 <= k < |t.batch| && t.batch[k].outcome == Some(t.local.value);
        assert t.batch[k] in multiset(t.batch);
        assert t.batch[k] in multiset(s.added);
      } else {
        forall x | x in multiset(t.batch) ensures Passed(x) {
          assert x in t.batch;
        }
      }
    }
  }

  lemma BatchIsAdded(s: State, i: nat)
    requires Conserved(s) && i < |s.threads|
    ensures forall x :: x in multiset(s.threads[i].batch) ==> x in multiset(s.added)
  {
    BatchInFlight(s.threads, i);
  }

  lemma {:induction false} BatchInFlight(ts: seq<Thread>, i: nat)
    requires i < |ts|
    ensures multiset(ts[i].batch) <= InFlight(ts)
  {
    if i < |ts| - 1 {
      BatchInFlight(ts[..|ts| - 1], i);
    }
  }

  lemma CountersNonNegative(s: State)
    requires CountsOk(s)
    ensures s.nIdle >= 0 && s.nTotal >= 0 && s.nTodo >= |s.queue|
  {
    SumNonNegative(s.threads, IsWaiting);
    SumNonNegative(s.threads, IsInside);
    SumNonNegative(s.threads, Load);
  }

  /**
    The batch is the largest within the configured size of which every thread about, and one more, could take as much
    from the queue; if there is none, it is a single check.
   */
  lemma BatchLengthExactly(c: Config, s: State)
    requires s.nTotal + s.nIdle >= 0
    ensures var n, sharers := BatchLength(c, s), s.nTotal + s.nIdle + 1;
      && n >= 1 && (n > 1 ==> n <= c.batchSize && n * sharers <= |s.queue|)
      && (n + 1 > c.batchSize || (n + 1) * sharers > |s.queue|)
  {
    var n, sharers := BatchLength(c, s), s.nTotal + s.nIdle + 1;
    var q := |s.queue| / sharers;
    assert |s.queue| == sharers * q + |s.queue| % sharers;
    if n > 1 {
      Multiples(n, q, sharers);
    }
    if n + 1 <= c.batchSize {
      Multiples(q + 1, n + 1, sharers);
    }
  }

  lemma Multiples(a: int, b: int, k: int)
    requires k >= 0 && a <= b
    ensures a * k <= b * k
  {
  }

  /** A batch is never empty, and never larger than the queue or than the configured size (if that is positive). */
  lemma BatchLengthBounds(c: Config, s: State)
    requires s.nIdle >= 0 && s.nTotal >= 0 && s.queue != []
    ensures 1 <= BatchLength(c, s) <= |s.queue| && (BatchLength(c, s) == 1 || BatchLength(c, s) <= c.batchSize)
  {
    var k := s.nTotal + s.nIdle + 1;
    assert |s.queue| / k <= |s.queue| by { DivideShrinks(|s.queue|, k); }
  }

  lemma {:induction false} MultipleAtLeast(q: nat, k: int)
    requires k >= 1
    ensures q <= k * q
    decreases k
  {
    if k > 1 {
      MultipleAtLeast(q, k - 1);
    }
  }

  lemma DivideShrinks(n: nat, k: int)
    requires k >= 1
    ensures n / k <= n
  {
    var q := n / k;
    assert n == k * q + n % k;
    MultipleAtLeast(q, k);
  }

  lemma WaitKeeps(c: Config, s: State, i: nat)
    requires Inv(c, s) && i < |s.threads| && s.threads[i].pc == Critical
    requires s.queue == [] && !(i == MASTER && s.nTodo == 0)
    ensures Inv(c, s.(nIdle := s.nIdle + 1, threads := s.threads[i := s.threads[i].(pc := Waiting, notified := false)]))
  {
    hide Sum, InFlight, Reports, Passed;
    ThreadChanged(s.threads, i, s.threads[i].(pc := Waiting, notified := false));
  }

  /** The queue from some place on is the batch of a thread. */
  function Taken(s: State, i: nat, from: nat): State
    requires i < |s.threads| && from <= |s.queue|
  {
    s.(queue := s.queue[..from],
       threads := s.threads[i := Thread(Working, |s.queue| - from, s.queue[from..], 0, s.threads[i].local, s.result.None?, false)])
  }

  lemma TakeKeeps(c: Config, s: State, i: nat, from: nat)
    requires Inv(c, s) && i < |s.threads| && s.threads[i].pc == Critical && s.queue != []
    requires from < |s.queue| && (|s.queue| - from == 1 || |s.queue| - from <= c.batchSize)
    ensures Inv(c, Taken(s, i, from))
  {
    hide Sum, InFlight, Reports, Passed, ThreadsOk, CountsOk, Conserved, WorkersOk;
    TakeKeepsThreads(c, s, i, from);
    TakeKeepsCounts(c, s, i, from);
    StillAwake(s, Taken(s, i, from));
  }

  lemma TakeKeepsThreads(c: Config, s: State, i: nat, from: nat)
    requires ThreadsOk(c, s) && i < |s.threads| && s.threads[i].pc == Critical
    requires from < |s.queue| && (|s.queue| - from == 1 || |s.queue| - from <= c.batchSize)
    ensures ThreadsOk(c, Taken(s, i, from)) && s.threads[i].batch == []
  {
  }

  lemma TakeKeepsCounts(c: Config, s: State, i: nat, from: nat)
    requires CountsOk(s) && Conserved(s) && i < |s.threads| && from < |s.queue|
    requires s.threads[i].batch == [] && s.threads[i].pc == Critical
    ensures CountsOk(Taken(s, i, from)) && Conserved(Taken(s, i, from))
  {
    hide Sum, InFlight;
    var s' := Taken(s, i, from);
    ThreadChanged(s.threads, i, s'.threads[i]);
    assert s.queue == s.queue[..from] + s.queue[from..];
    assert multiset(s.queue) == multiset(s.queue[..from]) + multiset(s.queue[from..]);
    TakeFromQueue(multiset(s.queue[..from]), multiset(s.queue[from..]), InFlight(s.threads), InFlight(s'.threads), s.finished);
  }

  lemma TakeFromQueue(q: multiset<Check>, b: multiset<Check>, f: multiset<Check>, f': multiset<Check>, done: multiset<Check>)
    requires f' == f + b
    ensures q + b + f + done == q + f' + done
  {
  }

  /** With nothing left to do, no thread holds a batch. */
  lemma NothingHeld(s: State)
    requires CountsOk(s) && s.nTodo == 0
    ensures s.queue == [] && forall j :: 0 <= j < |s.threads| ==> s.threads[j].batch == []
    ensures InFlight(s.threads) == multiset{}
  {
    CountersNonNegative(s);
    forall j | 0 <= j < |s.threads| ensures s.threads[j].batch == [] {
      SumBound(s.threads, Load, j);
    }
    InFlightEmpty(s.threads);
  }

  lemma ReturnKeeps(c: Config, s: State)
    requires Inv(c, s) && s.threads[MASTER].pc == Critical && s.nTodo == 0
    ensures Inv(c, s.(nTotal := s.nTotal - 1, result := None, added := [], finished := multiset{},
                      threads := s.threads[MASTER := s.threads[MASTER].(pc := Outside, notified := false)]))
  {
    hide Sum, InFlight, Reports, Passed;
    NothingHeld(s);
    var t := s.threads[MASTER].(pc := Outside, notified := false);
    ThreadChanged(s.threads, MASTER, t);
  }

  /**
    What the master returns: no error exactly when every check added since the previous return passes,
    and otherwise the error of one of them.
   */
  lemma ReturnedIsVerdict(c: Config, s: State)
    requires Inv(c, s) && s.nTodo == 0
    ensures s.result == None <==> AllPassed(s.added)
    ensures s.result.Some? ==> Reports(s.added, s.result.value)
  {
    NothingHeld(s);
    assert multiset(s.queue) == multiset{};
    assert multiset(s.added) == s.finished;
    if s.result == None {
      forall k | 0 <= k < |s.added| ensures Passed(s.added[k]) {
        assert s.added[k] in multiset(s.added);
      }
    }
  }

  lemma SettleKeeps(c: Config, s: State, i: nat)
    requires Inv(c, s) && i < |s.threads| && s.threads[i].pc == Critical
    ensures s.nTotal + s.nIdle + 1 > 0
    ensures Inv(c, Settle(c, s, i).state)
    ensures Settle(c, s, i).returned.Some? ==>
      && i == MASTER && Settle(c, s, i).state.threads[MASTER].pc == Outside
      && (Settle(c, s, i).returned.value == None <==> AllPassed(s.added))
      && (Settle(c, s, i).returned.value.Some? ==> Reports(s.added, Settle(c, s, i).returned.value.value))
  {
    hide Inv, AllPassed, Reports;
    assert CountsOk(s) by { InvCounts(c, s); }
    CountersNonNegative(s);
    if s.queue == [] {
      if i == MASTER && s.nTodo == 0 {
        ReturnKeeps(c, s);
        ReturnedIsVerdict(c, s);
      } else {
        WaitKeeps(c, s, i);
      }
    } else {
      BatchLengthBounds(c, s);
      TakeKeeps(c, s, i, |s.queue| - BatchLength(c, s));
    }
  }

  /** A batch is taken off the end of the queue, and is only evaluated if no error is known yet. */
  lemma TakenFromEnd(c: Config, s: State, i: nat)
    requires CountsOk(s) && i < |s.threads| && s.queue != []
    ensures var o := Settle(c, s, i); var t := o.state.threads[i];
      && o.returned == None && o.state.queue + t.batch == s.queue && |t.batch| == t.nNow == BatchLength(c, s)
      && t.pc == Working && t.pos == 0 && (t.doWork <==> s.result == None)
      && (!t.doWork ==> Evaluate(t) == t.(pc := Cleanup))
      && o.state == s.(queue := o.state.queue, threads := s.threads[i := t])
  {
    hide BatchLength;
    CountersNonNegative(s);
    BatchLengthBounds(c, s);
  }

  /** The first error known is the one returned: no step changes it, other than returning it. */
  lemma FirstErrorStays(c: Config, s: State, a: Action)
    requires Enabled(s, a) && s.result.Some?
    ensures var o := Do(c, s, a);
      if o.returned.Some? then o.returned.value == s.result && o.state.result == None else o.state.result == s.result
  {
    hide BatchLength;
  }

  /** The master is only notified by a worker, and only when there is nothing left to do. */
  lemma NotifiedAtEnd(c: Config, s: State, a: Action)
    requires Enabled(s, a) && |s.threads| > 0 && !s.threads[MASTER].notified
    ensures var s' := Do(c, s, a).state; |s'.threads| > 0 && (s'.threads[MASTER].notified ==> a.Enter? && a.i != MASTER && s'.nTodo == 0)
  {
    hide Settle, Account;
    match a {
      case Enter(i) =>
        AccountNotifies(s, i);
        SettleNotifies(c, Account(s, i), i);
      case Wake(i) =>
        SettleNotifies(c, Awake(s, i), i);
      case _ =>
    }
  }

  lemma AccountNotifies(s: State, i: nat)
    requires i < |s.threads| && !s.threads[MASTER].notified
    ensures |Account(s, i).threads| == |s.threads|
    ensures Account(s, i).threads[MASTER].notified ==> i != MASTER && Account(s, i).nTodo == 0
  {
  }

  lemma SettleNotifies(c: Config, s: State, i: nat)
    requires i < |s.threads|
    ensures var s' := Settle(c, s, i).state;
      |s'.threads| == |s.threads| && s'.nTodo == s.nTodo && (s'.threads[MASTER].notified ==> s.threads[MASTER].notified)
  {
    hide BatchLength;
  }

  lemma InvCounts(c: Config, s: State)
    requires Inv(c, s)
    ensures CountsOk(s)
  {
  }

  // ---------- Runs ----------

  /** Between steps no thread is inside the critical section. */
  ghost predicate Released(s: State) {
    forall i :: 0 <= i < |s.threads| ==> s.threads[i].pc != Critical
  }

  /** The step that an enabled action makes. */
  function Do(c: Config, s: State, a: Action): Outcome
    requires Enabled(s, a)
  {
    match a
    case AddChecks(checks) => Outcome(Add(s, checks), None)
    case NotifyWaiting(chosen) => Outcome(Notify(s, chosen), None)
    case Complete => Outcome(CallComplete(s), None)
    case Enter(i) => Settle(c, Account(s, i), i)
    case Wake(i) => Settle(c, Awake(s, i), i)
    case Eval(i) => Outcome(s.(threads := s.threads[i := Evaluate(s.threads[i])]), None)
  }

  lemma StepKeeps(c: Config, s: State, a: Action)
    requires Inv(c, s) && Released(s) && Enabled(s, a)
    ensures Inv(c, Do(c, s, a).state) && Released(Do(c, s, a).state)
  {
    hide Inv, Settle, Account, Awake, Released;
    match a {
      case AddChecks(checks) =>
        AddKeeps(c, s, checks);
        AddReleased(s, checks);
      case NotifyWaiting(chosen) =>
        NotifyKeeps(c, s, chosen);
        NotifyReleased(s, chosen);
      case Complete =>
        CompleteKeeps(c, s);
        ChangeReleased(s, MASTER, Thread(Start, 0, [], 0, None, false, false));
      case Enter(i) =>
        AccountKeeps(c, s, i);
        SettleKeeps(c, Account(s, i), i);
        SettleReleases(c, s, Account(s, i), i);
      case Wake(i) =>
        AwakeKeeps(c, s, i);
        SettleKeeps(c, Awake(s, i), i);
        SettleReleases(c, s, Awake(s, i), i);
      case Eval(i) =>
        EvalKeeps(c, s, i);
        ChangeReleased(s, i, Evaluate(s.threads[i]));
    }
  }

  lemma AddReleased(s: State, checks: seq<Check>)
    requires Released(s) && |s.threads| > 0
    ensures Released(Add(s, checks))
  {
  }

  lemma NotifyReleased(s: State, chosen: nat)
    requires Released(s) && |s.threads| > 0 && s.threads[MASTER].pc.Notifying?
    ensures Released(Notify(s, chosen))
  {
  }

  lemma ChangeReleased(s: State, i: nat, t: Thread)
    requires Released(s) && i < |s.threads| && t.pc != Critical
    ensures Released(s.(threads := s.threads[i := t]))
  {
  }

  lemma SettleReleases(c: Config, s: State, s1: State, i: nat)
    requires Released(s) && i < |s.threads|
    requires s1 == Account(s, i) || s1 == Awake(s, i)
    ensures Released(Settle(c, s1, i).state)
  {
  }

  datatype Run = Run(states: seq<State>, actions: seq<Action>, returned: seq<Option<Option<Err>>>)

  /** Any interleaving of steps of any number of threads, with the value returned at each step, if any. */
  ghost predicate IsRun(c: Config, r: Run)
    decreases |r.actions|
  {
    && |r.states| == |r.actions| + 1 && |r.returned| == |r.actions|
    && (if r.actions == [] then Init(r.states[0])
        else
          var k := |r.actions| - 1;
          && IsRun(c, Prefix(r, k))
          && Enabled(r.states[k], r.actions[k])
          && Do(c, r.states[k], r.actions[k]) == Outcome(r.states[k + 1], r.returned[k]))
  }

  ghost function Prefix(r: Run, k: nat): Run
    requires k <= |r.actions| && |r.states| == |r.actions| + 1 && |r.returned| == |r.actions|
  {
    Run(r.states[..k + 1], r.actions[..k], r.returned[..k])
  }

  /** Every state of every run satisfies the invariant. */
  lemma {:induction false} RunInv(c: Config, r: Run)
    requires IsRun(c, r)
    ensures Inv(c, r.states[|r.actions|]) && Released(r.states[|r.actions|])
    decreases |r.actions|
  {
    hide Inv;
    if r.actions == [] {
      InitInv(c, r.states[0]);
    } else {
      var k := |r.actions| - 1;
      RunInv(c, Prefix(r, k));
      StepKeeps(c, r.states[k], r.actions[k]);
    }
  }

  /** A run can be continued by any enabled action. */
  lemma RunExtends(c: Config, r: Run, a: Action) returns (r': Run)
    requires IsRun(c, r) && Enabled(r.states[|r.actions|], a)
    ensures IsRun(c, r') && r'.actions == r.actions + [a] && Prefix(r', |r.actions|) == r
  {
    hide Inv;
    RunInv(c, r);
    var o := Do(c, r.states[|r.actions|], a);
    r' := Run(r.states + [o.state], r.actions + [a], r.returned + [o.returned]);
    assert Prefix(r', |r.actions|) == r;
  }

  /** The checks added since Complete last returned, read off the actions alone. */
  function Session(r: Run, k: nat): seq<Check>
    requires k <= |r.actions| == |r.returned|
  {
    if k == 0 || r.returned[k - 1].Some? then []
    else Session(r, k - 1) + if r.actions[k - 1].AddChecks? then r.actions[k - 1].checks else []
  }

  lemma {:induction false} SessionPrefix(r: Run, k: nat, n: nat)
    requires k <= n <= |r.actions| == |r.returned| && |r.states| == |r.actions| + 1
    ensures Session(Prefix(r, n), k) == Session(r, k)
    decreases k
  {
    if k > 0 {
      SessionPrefix(r, k - 1, n);
    }
  }

  lemma {:induction false} AddedIsSession(c: Config, r: Run)
    requires IsRun(c, r)
    ensures r.states[|r.actions|].added == Session(r, |r.actions|)
    decreases |r.actions|
  {
    hide Do, Init, Session;
    SessionStep(r, |r.actions|);
    if r.actions == [] {
      NothingAdded(r.states[0]);
    } else {
      var k := |r.actions| - 1;
      AddedIsSession(c, Prefix(r, k));
      SessionPrefix(r, k, k);
      StepAdds(c, r.states[k], r.actions[k]);
    }
  }

  lemma SessionStep(r: Run, k: nat)
    requires k <= |r.actions| == |r.returned|
    ensures Session(r, k)
         == if k == 0 || r.returned[k - 1].Some? then []
            else Session(r, k - 1) + if r.actions[k - 1].AddChecks? then r.actions[k - 1].checks else []
  {
  }

  lemma NothingAdded(s: State)
    requires Init(s)
    ensures s.added == []
  {
  }

  lemma StepAdds(c: Config, s: State, a: Action)
    requires Enabled(s, a)
    ensures var o := Do(c, s, a);
      o.state.added == if o.returned.Some? then [] else s.added + if a.AddChecks? then a.checks else []
  {
  }

  /**
    Safety of whole runs: whenever Complete returns, it returns no error exactly if every check added
    since it last returned passes, and otherwise the error of one of those checks.
   */
  lemma CompleteReturnsVerdict(c: Config, r: Run, k: nat)
    requires IsRun(c, r) && |r.actions| == k + 1 && r.returned[k].Some?
    ensures r.returned[k].value == None <==> AllPassed(Session(r, k))
    ensures r.returned[k].value.Some? ==> Reports(Session(r, k), r.returned[k].value.value)
  {
    hide Inv, AllPassed, Reports;
    var s, a := r.states[k], r.actions[k];
    var p := Prefix(r, k);
    RunInv(c, p);
    AddedIsSession(c, p);
    SessionPrefix(r, k, k);
    if a.Enter? {
      AccountKeeps(c, s, a.i);
      SettleKeeps(c, Account(s, a.i), a.i);
    } else {
      AwakeKeeps(c, s, a.i);
      SettleKeeps(c, Awake(s, a.i), a.i);
    }
  }

  // ---------- Sessions end ----------

  /** How much a thread still has to do before it can only wait. */
  function Weight(t: Thread): int {
    match t.pc
    case Outside => 0
    case Notifying(_) => 0
    case Start => 1
    case Working => 3 + if t.pos <= |t.batch| then |t.batch| - t.pos else 0
    case Cleanup => 2
    case Critical => 0
    case Waiting => if t.notified then 1 else 0
  }

  function Measure(s: State): int {
    5 * |s.queue| + Sum(s.threads, Weight)
  }

  /** A step of a thread, as opposed to the master adding checks or calling Complete. */
  predicate ThreadAction(a: Action) {
    a.Enter? || a.Wake? || a.Eval?
  }

  lemma MeasureNonNegative(s: State)
    ensures Measure(s) >= 0
  {
    SumNonNegative(s.threads, Weight);
  }

  /** Ending a critical section: waiting adds nothing, and a batch weighs less than the checks did in the queue. */
  lemma SettleMeasure(c: Config, s: State, i: nat)
    requires Inv(c, s) && i < |s.threads| && s.threads[i].pc == Critical
    ensures Settle(c, s, i).returned.Some? || Measure(Settle(c, s, i).state) <= Measure(s)
    ensures s.queue != [] ==> Measure(Settle(c, s, i).state) < Measure(s)
  {
    hide Inv;
    assert CountsOk(s) by { InvCounts(c, s); }
    CountersNonNegative(s);
    SumUpdate(s.threads, i, Settle(c, s, i).state.threads[i], Weight);
    if s.queue != [] {
      BatchLengthBounds(c, s);
    }
  }

  lemma AccountMeasure(c: Config, s: State, i: nat)
    requires Inv(c, s) && i < |s.threads| && (s.threads[i].pc == Start || s.threads[i].pc == Cleanup)
    ensures Measure(Account(s, i)) < Measure(s)
  {
    hide Sum;
    var t := s.threads[i];
    if t.nNow > 0 {
      var ts := Accounted(s, i).threads;
      SumUpdate(s.threads, i, ts[i], Weight);
      SumUpdate(ts, MASTER, Notified(ts[MASTER]), Weight);
    } else {
      SumUpdate(s.threads, i, t.(pc := Critical), Weight);
    }
  }

  /**
    Every step of a thread brings the session closer to its end, except a wake-up that was not called for
    and finds nothing to do, which changes nothing.
   */
  lemma StepsDecrease(c: Config, s: State, a: Action)
    requires Inv(c, s) && Enabled(s, a) && ThreadAction(a)
    ensures var o := Do(c, s, a);
      || o.returned.Some?
      || Measure(o.state) < Measure(s)
      || (o.state == s && a.Wake? && !s.threads[a.i].notified)
  {
    hide Inv, Sum;
    if a.Eval? {
      EvalMeasure(c, s, a.i);
    } else if a.Enter? {
      AccountKeeps(c, s, a.i);
      AccountMeasure(c, s, a.i);
      SettleKeeps(c, Account(s, a.i), a.i);
      SettleMeasure(c, Account(s, a.i), a.i);
    } else {
      WakeMeasure(c, s, a.i);
    }
  }

  lemma EvalMeasure(c: Config, s: State, i: nat)
    requires Inv(c, s) && i < |s.threads| && s.threads[i].pc == Working
    ensures Measure(s.(threads := s.threads[i := Evaluate(s.threads[i])])) < Measure(s)
  {
    hide Sum;
    SumUpdate(s.threads, i, Evaluate(s.threads[i]), Weight);
  }

  lemma WakeMeasure(c: Config, s: State, i: nat)
    requires Inv(c, s) && i < |s.threads| && s.threads[i].pc == Waiting
    ensures var o := Do(c, s, Wake(i));
      o.returned.Some? || Measure(o.state) < Measure(s) || (o.state == s && !s.threads[i].notified)
  {
    hide Inv, Sum;
    var s1 := Awake(s, i);
    AwakeKeeps(c, s, i);
    SettleKeeps(c, s1, i);
    SumUpdate(s.threads, i, s1.threads[i], Weight);
    SettleMeasure(c, s1, i);
    if s.queue == [] && !(i == MASTER && s.nTodo == 0) && !s.threads[i].notified {
      assert s1.threads[i := s.threads[i]] == s.threads;
    }
  }

  /**
    No wake-up is lost: while the master is in Complete, some thread can make a step that it was not
    woken up for in vain. If the master waits, either it has been notified or another thread holds a batch.
   */
  lemma SomeoneCanMove(c: Config, s: State) returns (a: Action)
    requires Inv(c, s) && Released(s) && InLoop(s.threads[MASTER])
    ensures ThreadAction(a) && Enabled(s, a) && (a.Wake? ==> s.threads[a.i].notified)
    ensures Do(c, s, a).returned.Some? || Measure(Do(c, s, a).state) < Measure(s)
  {
    var m := s.threads[MASTER];
    if m.pc == Working {
      a := Eval(MASTER);
    } else if m.pc == Waiting && m.notified {
      a := Wake(MASTER);
    } else if m.pc == Waiting {
      CountersNonNegative(s);
      var i := SumHasTerm(s.threads, Load);
      a := if s.threads[i].pc == Working then Eval(i) else Enter(i);
    } else {
      a := Enter(MASTER);
    }
    StepsDecrease(c, s, a);
  }

  /** In every run, while there are checks in the queue, some worker, if there is any, is about to take them or busy with others. */
  lemma WorkerIsAbout(c: Config, r: Run) returns (a: Action)
    requires IsRun(c, r)
    requires var s := r.states[|r.actions|]; |s.threads| > 1 && s.queue != [] && !s.threads[MASTER].pc.Notifying?
    ensures var s := r.states[|r.actions|];
      && ThreadAction(a) && a.i != MASTER && Enabled(s, a) && (a.Wake? ==> s.threads[a.i].notified)
      && Measure(Do(c, s, a).state) < Measure(s)
  {
    hide Do, Measure;
    RunInv(c, r);
    var s := r.states[|r.actions|];
    var i: nat :| 0 < i < |s.threads| && !Asleep(s.threads[i]);
    a := if s.threads[i].pc == Working then Eval(i) else if s.threads[i].pc == Waiting then Wake(i) else Enter(i);
    StepsDecrease(c, s, a);
    OnlyMasterReturns(c, s, a);
  }

  lemma OnlyMasterReturns(c: Config, s: State, a: Action)
    requires Enabled(s, a) && ThreadAction(a)
    ensures Do(c, s, a).returned.Some? ==> a.i == MASTER
  {
    hide BatchLength;
  }

  /** A schedule of thread steps that all make a difference, none of which makes Complete return. */
  ghost predicate Busy(c: Config, s: State, schedule: seq<Action>)
    decreases |schedule|
  {
    schedule != [] ==>
      && ThreadAction(schedule[0]) && Enabled(s, schedule[0])
      && Do(c, s, schedule[0]).returned.None? && Do(c, s, schedule[0]).state != s
      && Busy(c, Do(c, s, schedule[0]).state, schedule[1..])
  }

  /** However the threads are scheduled, they cannot be kept busy for longer than the measure says. */
  lemma {:induction false} SessionIsBounded(c: Config, s: State, schedule: seq<Action>)
    requires Inv(c, s) && Released(s) && Busy(c, s, schedule)
    ensures |schedule| <= Measure(s)
    decreases |schedule|
  {
    hide Inv, Do, Measure;
    MeasureNonNegative(s);
    if schedule != [] {
      StepsDecrease(c, s, schedule[0]);
      StepKeeps(c, s, schedule[0]);
      SessionIsBounded(c, Do(c, s, schedule[0]).state, schedule[1..]);
    }
  }

  /** A schedule of thread steps that ends with Complete returning. */
  ghost predicate Returns(c: Config, s: State, schedule: seq<Action>)
    decreases |schedule|
  {
    && schedule != [] && ThreadAction(schedule[0]) && Enabled(s, schedule[0])
    && (if Do(c, s, schedule[0]).returned.Some? then |schedule| == 1
        else Returns(c, Do(c, s, schedule[0]).state, schedule[1..]))
  }

  /** Once called, Complete can always be brought to return by steps of the threads alone. */
  lemma {:induction false} CompleteCanReturn(c: Config, s: State) returns (schedule: seq<Action>)
    requires Inv(c, s) && Released(s) && |s.threads| > 0 && InLoop(s.threads[MASTER])
    ensures Returns(c, s, schedule) && |schedule| <= Measure(s) + 1
    decreases Measure(s)
  {
    hide Inv, Do, Measure, Released;
    MeasureNonNegative(s);
    var a := SomeoneCanMove(c, s);
    var o := Do(c, s, a);
    if o.returned.Some? {
      schedule := [a];
    } else {
      StepKeeps(c, s, a);
      MasterStays(c, s, a);
      MeasureNonNegative(o.state);
      var rest := CompleteCanReturn(c, o.state);
      schedule := [a] + rest;
      assert schedule[1..] == rest;
    }
  }

  /** The master leaves Complete only by returning. */
  lemma MasterStays(c: Config, s: State, a: Action)
    requires Inv(c, s) && Enabled(s, a) && ThreadAction(a) && InLoop(s.threads[MASTER])
    ensures var o := Do(c, s, a); |o.state.threads| > 0 && (o.returned.Some? || InLoop(o.state.threads[MASTER]))
  {
    hide Inv, Settle, Account, Awake;
    EnterStays(s, a);
    if a.Enter? {
      SettleStays(c, Account(s, a.i), a.i);
    } else if a.Wake? {
      SettleStays(c, Awake(s, a.i), a.i);
    }
  }

  lemma EnterStays(s: State, a: Action)
    requires |s.threads| > 0 && Enabled(s, a) && ThreadAction(a) && InLoop(s.threads[MASTER])
    ensures a.Enter? ==> |Account(s, a.i).threads| == |s.threads| && InLoop(Account(s, a.i).threads[MASTER])
    ensures a.Wake? ==> |Awake(s, a.i).threads| == |s.threads| && InLoop(Awake(s, a.i).threads[MASTER])
  {
  }

  lemma SettleStays(c: Config, s: State, i: nat)
    requires i < |s.threads| && InLoop(s.threads[MASTER])
    ensures var o := Settle(c, s, i); |o.state.threads| > 0 && (o.returned.Some? || InLoop(o.state.threads[MASTER]))
  {
  }
}
