/**
 * The shared-memory mutex of src/core/ngx_shmtx.c (atomic operations, POSIX semaphore) as a
 * step protocol over any number of processes. Every step is one atomic access to shared memory
 * or one semaphore operation, and the steps of different processes interleave freely.
 */
module Shmtx {

  /** Process ids; zero is never one. */
  type Pid = nat

  /** Where a process stands. */
  datatype Pc =
    | Idle
    | TryRead | TryCas                       // ngx_shmtx_trylock
    | LockRead(n: nat) | LockCas(n: nat)     // ngx_shmtx_lock, attempt after n pauses
    | Advertise                              // about to increment wait
    | RecheckRead | RecheckCas               // wait incremented, one more look at the lock
    | SemWait                                // in sem_wait()
    | Critical                               // owns the lock
    | WakeRead | WakeCas(seen: nat) | WakePost  // ngx_shmtx_wakeup
    | Dead

  const SPIN: nat := 2048

  datatype State = State(
    manyCpus: bool,        // ngx_ncpu > 1
    semaphore: bool,       // mtx->semaphore
    lock: nat,             // 0, or the pid of the owner
    wait: nat,
    sem: nat,
    procs: map<Pid, Pc>,
    leaked: nat,           // history: increments of wait whose process never waited to the end
    dropped: nat           // history: decrements of wait whose process died before its sem_post
  )

  datatype Action =
    | Start(p: Pid)                  // a process appears
    | CallTryLock(p: Pid) | CallLock(p: Pid)
    | Advance(p: Pid)                // the next step of a running call
    | Unlock(p: Pid)
    | SemError(p: Pid)               // sem_wait() fails with something other than EINTR
    | ForceUnlock(p: Pid, q: Pid)    // p releases the lock of the dead process q
    | Die(p: Pid)

  function At(s: State, p: Pid): Pc
  {
    if p in s.procs then s.procs[p] else Dead
  }

  function Goto(s: State, p: Pid, pc: Pc): State
  {
    s.(procs := s.procs[p := pc])
  }

  /** Where ngx_shmtx_lock goes after the attempt that followed n pauses failed. */
  function AfterFailure(s: State, n: nat): Pc
  {
    var next := if n == 0 then 1 else 2 * n;
    if s.manyCpus && next < SPIN then LockRead(next)
    else if s.semaphore then Advertise
    else LockRead(0)
  }

  /** The first step of a wakeup, or its immediate return without a semaphore. */
  function Wakeup(s: State): Pc
  {
    if s.semaphore then WakeRead else Idle
  }

  function Owned(s: State, p: Pid): State
  {
    Goto(s.(lock := p), p, Critical)
  }

  /** The next step of the call that p is in. */
  function Advanced(s: State, p: Pid): State
  {
    match At(s, p)
    case TryRead => if s.lock == 0 then Goto(s, p, TryCas) else Goto(s, p, Idle)
    case TryCas => if s.lock == 0 then Owned(s, p) else Goto(s, p, Idle)
    case LockRead(n) => if s.lock == 0 then Goto(s, p, LockCas(n)) else Goto(s, p, AfterFailure(s, n))
    case LockCas(n) => if s.lock == 0 then Owned(s, p) else Goto(s, p, AfterFailure(s, n))
    case Advertise => Goto(s.(wait := s.wait + 1), p, RecheckRead)
    case RecheckRead => if s.lock == 0 then Goto(s, p, RecheckCas) else Goto(s, p, SemWait)
    case RecheckCas => if s.lock == 0 then Owned(s, p).(leaked := s.leaked + 1) else Goto(s, p, SemWait)
    case SemWait => if s.sem > 0 then Goto(s.(sem := s.sem - 1), p, LockRead(0)) else s
    case WakeRead => if s.wait == 0 then Goto(s, p, Idle) else Goto(s, p, WakeCas(s.wait))
    case WakeCas(seen) =>
      if s.wait == seen && seen > 0 then Goto(s.(wait := seen - 1), p, WakePost) else Goto(s, p, WakeRead)
    case WakePost => Goto(s.(sem := s.sem + 1), p, Idle)
    case _ => s
  }

  predicate Waiting(pc: Pc) { pc.RecheckRead? || pc.RecheckCas? || pc.SemWait? }
  predicate Waking(pc: Pc) { pc.WakeRead? || pc.WakeCas? || pc.WakePost? }
  predicate Retrying(pc: Pc) { pc.LockRead? || pc.LockCas? || pc.Advertise? || pc.RecheckRead? || pc.RecheckCas? }

  ghost predicate Step(s: State, a: Action, s': State)
  {
    match a
    case Start(p) => p != 0 && p !in s.procs && s' == Goto(s, p, Idle)
    case CallTryLock(p) => At(s, p).Idle? && s' == Goto(s, p, TryRead)
    case CallLock(p) => At(s, p).Idle? && s' == Goto(s, p, LockRead(0))
    case Advance(p) => s' == Advanced(s, p)
    case Unlock(p) =>
      // compare-and-set of the caller's own pid; without the lock it does nothing
      if s.lock == p && At(s, p).Critical? then s' == Goto(s.(lock := 0), p, Wakeup(s))
      else At(s, p).Idle? && s.lock != p && s' == s
    case SemError(p) => At(s, p).SemWait? && s' == Goto(s.(leaked := s.leaked + 1), p, LockRead(0))
    case ForceUnlock(p, q) =>
      && At(s, p).Idle? && q in s.procs && s.procs[q].Dead?
      && s' == if s.lock == q then Goto(s.(lock := 0), p, Wakeup(s)) else s
    case Die(p) =>
      && p in s.procs && !s.procs[p].Dead?
      && s' == Goto(s.(leaked := s.leaked + (if Waiting(s.procs[p]) then 1 else 0),
                       dropped := s.dropped + (if s.procs[p].WakePost? then 1 else 0)), p, Dead)
  }

  ghost predicate Init(s: State)
  {
    s.lock == 0 && s.wait == 0 && s.sem == 0 && s.leaked == 0 && s.dropped == 0
    && 0 !in s.procs && forall p :: p in s.procs ==> s.procs[p].Idle?
  }

  ghost predicate StepAt(states: seq<State>, actions: seq<Action>, i: int)
    requires |states| == |actions| + 1 && 0 <= i < |actions|
  {
    Step(states[i], actions[i], states[i + 1])
  }

  ghost predicate Run(states: seq<State>, actions: seq<Action>)
  {
    && |states| == |actions| + 1 && Init(states[0])
    && forall i {:trigger StepAt(states, actions, i)} :: 0 <= i < |actions| ==> StepAt(states, actions, i)
  }

  // ------------------------------------------------------------------ mutual exclusion

  /** At most one process is in its critical section. */
  ghost predicate Exclusive(s: State)
  {
    forall p, q :: p in s.procs && q in s.procs && s.procs[p].Critical? && s.procs[q].Critical? ==> p == q
  }

  ghost predicate OwnerHolds(s: State)
  {
    forall p :: p in s.procs && s.procs[p].Critical? ==> s.lock == p
  }

  lemma AdvancedMoves(s: State, p: Pid)
    ensures Advanced(s, p).procs == s.procs || (p in s.procs && Advanced(s, p).procs == s.procs[p := At(Advanced(s, p), p)])
  {
    match At(s, p)
    case TryRead =>
    case TryCas =>
    case LockRead(n) =>
    case LockCas(n) =>
    case _ =>
  }

  /** A step moves at most the process it names. */
  lemma OneMoves(s: State, a: Action, s': State)
    requires Step(s, a, s')
    ensures s'.procs == s.procs || s'.procs == s.procs[a.p := At(s', a.p)]
    ensures 0 !in s.procs ==> 0 !in s'.procs
  {
    if a.Advance? {
      AdvancedMoves(s, a.p);
    }
  }

  lemma OwnerHoldsStep(s: State, a: Action, s': State)
    requires OwnerHolds(s) && 0 !in s.procs && Step(s, a, s')
    ensures OwnerHolds(s') && 0 !in s'.procs
  {
    OneMoves(s, a, s');
    forall p | p in s'.procs && s'.procs[p].Critical? ensures s'.lock == p {
      OwnerStays(s, a, s', p);
    }
  }

  lemma OwnerStays(s: State, a: Action, s': State, p: Pid)
    requires OwnerHolds(s) && 0 !in s.procs && Step(s, a, s') && p in s'.procs && s'.procs[p].Critical?
    ensures s'.lock == p
  {
    OneMoves(s, a, s');
    if p != a.p {
      assert s.procs[p].Critical?;
    } else if a.Advance? {
      AdvanceOwns(s, p);
    }
  }

  lemma AdvanceOwns(s: State, p: Pid)
    requires OwnerHolds(s) && At(Advanced(s, p), p).Critical?
    ensures Advanced(s, p).lock == p
  {
  }

  // ------------------------------------------------------------------ conservation of wakeups

  ghost function Waiters(s: State): set<Pid> { set p | p in s.procs && Waiting(s.procs[p]) }
  ghost function Posters(s: State): set<Pid> { set p | p in s.procs && s.procs[p].WakePost? }

  /** Every increment of wait is accounted for. */
  ghost predicate Conserved(s: State)
  {
    s.wait + s.sem + |Posters(s)| + s.dropped == |Waiters(s)| + s.leaked
  }

  lemma OneChange(a: set<Pid>, b: set<Pid>, p: Pid)
    requires a - {p} == b - {p}
    ensures |b| == |a| + (if p in b then 1 else 0) - (if p in a then 1 else 0)
  {
    assert p in a ==> a == (a - {p}) + {p};
    assert p !in a ==> a == a - {p};
    assert p in b ==> b == (b - {p}) + {p};
    assert p !in b ==> b == b - {p};
  }

  lemma CountWaiters(s: State, p: Pid, s': State)
    requires p in s'.procs && s'.procs == s.procs[p := s'.procs[p]]
    ensures |Waiters(s')| == |Waiters(s)| + (if Waiting(s'.procs[p]) then 1 else 0) - (if Waiting(At(s, p)) then 1 else 0)
  {
    OneChange(Waiters(s), Waiters(s'), p);
  }

  lemma CountPosters(s: State, p: Pid, s': State)
    requires p in s'.procs && s'.procs == s.procs[p := s'.procs[p]]
    ensures |Posters(s')| == |Posters(s)| + (if s'.procs[p].WakePost? then 1 else 0) - (if At(s, p).WakePost? then 1 else 0)
  {
    OneChange(Posters(s), Posters(s'), p);
  }

  lemma ConservedStep(s: State, a: Action, s': State)
    requires Conserved(s) && Step(s, a, s')
    ensures Conserved(s')
  {
    OneMoves(s, a, s');
    if a.p in s'.procs {
      assert s'.procs == s.procs[a.p := s'.procs[a.p]];
      CountWaiters(s, a.p, s');
      CountPosters(s, a.p, s');
      ConservedMove(s, a, s');
    }
  }

  lemma AdvanceBalances(s: State, p: Pid)
    ensures var t := Advanced(s, p);
      (t.wait + t.sem + t.dropped) - (s.wait + s.sem + s.dropped)
      + (if At(t, p).WakePost? then 1 else 0) - (if At(s, p).WakePost? then 1 else 0)
      == (if Waiting(At(t, p)) then 1 else 0) - (if Waiting(At(s, p)) then 1 else 0) + t.leaked - s.leaked
  {
  }

  /** The counters change exactly as the position of the moving process does. */
  lemma ConservedMove(s: State, a: Action, s': State)
    requires Step(s, a, s') && a.p in s'.procs
    ensures (s'.wait + s'.sem + s'.dropped) - (s.wait + s.sem + s.dropped)
            + (if s'.procs[a.p].WakePost? then 1 else 0) - (if At(s, a.p).WakePost? then 1 else 0)
         == (if Waiting(s'.procs[a.p]) then 1 else 0) - (if Waiting(At(s, a.p)) then 1 else 0)
            + s'.leaked - s.leaked
  {
    if a.Advance? {
      AdvanceBalances(s, a.p);
    }
  }

  // ------------------------------------------------------------------ no lost wakeup

  ghost predicate Someone(s: State, what: Pc -> bool)
  {
    exists p :: p in s.procs && what(s.procs[p])
  }

  /** If the lock is free and a process sleeps, a post is there or coming, or someone will look at the lock again. */
  ghost predicate NoLostWakeup(s: State)
  {
    s.lock == 0 && Someone(s, (pc: Pc) => pc.SemWait?) ==>
      s.sem > 0 || Someone(s, Waking) || Someone(s, Retrying)
  }

  predicate Helping(pc: Pc) { Waking(pc) || Retrying(pc) }

  /** The lock is free, a process sleeps, nothing is posted, and only p could still help. */
  ghost predicate LastHelper(s: State, p: Pid)
  {
    && s.lock == 0 && s.sem == 0 && Someone(s, (pc: Pc) => pc.SemWait?)
    && p in s.procs && Helping(s.procs[p])
    && (forall q :: q in s.procs && q != p ==> !Helping(s.procs[q]))
  }

  ghost predicate LastHelperDies(s: State, a: Action)
  {
    a.Die? && LastHelper(s, a.p)
  }

  /** The last helper dies, or its wakeup sees no one counted as waiting. */
  ghost predicate LastHelperLeaves(s: State, a: Action)
  {
    LastHelper(s, a.p) && (a.Die? || (a.Advance? && s.procs[a.p].WakeRead? && s.wait == 0))
  }

  /** What a wakeup can rely on: a sleeper without a post means a positive wait counter. */
  lemma SleeperIsCounted(s: State, p: Pid)
    requires Conserved(s) && s.dropped == 0 && p in s.procs && s.procs[p].SemWait? && s.sem == 0 && Posters(s) == {}
    ensures s.wait > 0
  {
    assert p in Waiters(s);
  }

  /** Without a semaphore nobody ever waits on it. */
  ghost predicate SleepNeedsSemaphore(s: State)
  {
    !s.semaphore ==> forall p :: p in s.procs ==> !Waiting(s.procs[p]) && !s.procs[p].Advertise?
  }

  lemma SleepNeedsSemaphoreStep(s: State, a: Action, s': State)
    requires SleepNeedsSemaphore(s) && Step(s, a, s')
    ensures SleepNeedsSemaphore(s')
  {
    OneMoves(s, a, s');
    if !s'.semaphore {
      forall p | p in s'.procs ensures !Waiting(s'.procs[p]) && !s'.procs[p].Advertise? {
        assert p != a.p ==> s'.procs[p] == s.procs[p];
      }
    }
  }

  /** What the moving process can do while the lock is free, nothing is posted and somebody sleeps. */
  lemma MoverStillHelps(s: State, a: Action, s': State)
    requires Step(s, a, s') && 0 !in s.procs && s.lock == 0 && s'.lock == 0 && s'.sem == 0
    requires a.p in s.procs && Helping(s.procs[a.p])
    requires !a.Die? && !(s.procs[a.p].WakeRead? && s.wait == 0)
    ensures a.p in s'.procs && Helping(s'.procs[a.p])
  {
  }

  lemma SleeperWasAsleep(s: State, a: Action, s': State, z: Pid)
    requires Step(s, a, s') && s.lock == 0 && z in s'.procs && s'.procs[z].SemWait?
    ensures z in s.procs && s.procs[z].SemWait?
  {
    OneMoves(s, a, s');
    if z != a.p {
      assert s.procs[z] == s'.procs[z];
    }
  }

  /** A step loses the wakeups exactly when the last helper leaves. */
  lemma NoLostWakeupStep(s: State, a: Action, s': State)
    requires SleepNeedsSemaphore(s) && 0 !in s.procs && NoLostWakeup(s) && Step(s, a, s')
    ensures NoLostWakeup(s') <==> !LastHelperLeaves(s, a)
  {
    if LastHelperLeaves(s, a) {
      LeavingLoses(s, a, s');
    } else if s'.lock == 0 && s'.sem == 0 && Someone(s', (pc: Pc) => pc.SemWait?) {
      var z :| z in s'.procs && s'.procs[z].SemWait?;
      if s.lock != 0 {
        Released(s, a, s', z);
      } else {
        SleeperWasAsleep(s, a, s', z);
        StillHelped(s, a, s', z);
      }
    }
  }

  lemma LeavingLoses(s: State, a: Action, s': State)
    requires Step(s, a, s') && LastHelperLeaves(s, a)
    ensures !NoLostWakeup(s')
  {
    OneMoves(s, a, s');
    var z :| z in s.procs && s.procs[z].SemWait?;
    assert z != a.p && s'.procs[z].SemWait?;
    assert s'.procs[a.p].Dead? || s'.procs[a.p].Idle?;
    forall q | q in s'.procs ensures !Helping(s'.procs[q]) {
      assert q != a.p ==> s'.procs[q] == s.procs[q];
    }
  }

  /** While every decrement of wait was followed by its post, only a death is such a step. */
  lemma OnlyDeathsLose(s: State, a: Action)
    requires Conserved(s) && s.dropped == 0
    ensures LastHelperLeaves(s, a) <==> LastHelperDies(s, a)
  {
    if LastHelper(s, a.p) && s.procs[a.p].WakeRead? {
      var z :| z in s.procs && s.procs[z].SemWait?;
      assert Posters(s) == {};
      SleeperIsCounted(s, z);
    }
  }

  lemma Released(s: State, a: Action, s': State, z: Pid)
    requires Step(s, a, s') && SleepNeedsSemaphore(s) && s.lock != 0 && s'.lock == 0
    requires z in s'.procs && s'.procs[z].SemWait?
    ensures Someone(s', Waking)
  {
    SleepNeedsSemaphoreStep(s, a, s');
    assert a.Unlock? || a.ForceUnlock?;
    assert s'.semaphore == s.semaphore;
    assert Waking(s'.procs[a.p]);
  }

  lemma StillHelped(s: State, a: Action, s': State, z: Pid)
    requires 0 !in s.procs && NoLostWakeup(s) && Step(s, a, s') && !LastHelperLeaves(s, a)
    requires s.lock == 0 && s'.lock == 0 && s'.sem == 0 && z in s.procs && s.procs[z].SemWait?
    ensures Someone(s', Waking) || Someone(s', Retrying)
  {
    OneMoves(s, a, s');
    if s.sem > 0 {
      assert a.Advance? && Retrying(s'.procs[a.p]);
    } else if h :| h in s.procs && h != a.p && Helping(s.procs[h]) {
      assert h in s'.procs && Helping(s'.procs[h]);
    } else {
      assert Someone(s, (pc: Pc) => pc.SemWait?);
      assert a.p in s.procs && Helping(s.procs[a.p]);
      MoverStillHelps(s, a, s');
    }
  }

  // ------------------------------------------------------------------ whole runs

  ghost predicate Invariant(s: State)
  {
    0 !in s.procs && OwnerHolds(s) && Conserved(s) && SleepNeedsSemaphore(s)
  }

  lemma {:induction false} RunKeepsInvariant(states: seq<State>, actions: seq<Action>, k: nat)
    requires Run(states, actions) && k < |states|
    ensures Invariant(states[k])
  {
    if k == 0 {
      assert Waiters(states[0]) == {} && Posters(states[0]) == {};
    } else {
      RunKeepsInvariant(states, actions, k - 1);
      var s, a, s' := states[k - 1], actions[k - 1], states[k];
      assert StepAt(states, actions, k - 1);
      OwnerHoldsStep(s, a, s');
      ConservedStep(s, a, s');
      SleepNeedsSemaphoreStep(s, a, s');
    }
  }

  /** In every reachable state at most one process owns the lock, and every increment of wait is accounted for. */
  lemma MutualExclusion(states: seq<State>, actions: seq<Action>, k: nat)
    requires Run(states, actions) && k < |states|
    ensures Exclusive(states[k]) && Conserved(states[k])
  {
    RunKeepsInvariant(states, actions, k);
  }

  lemma RunStep(states: seq<State>, actions: seq<Action>, k: nat)
    requires Run(states, actions) && k < |actions| && NoLostWakeup(states[k])
    ensures NoLostWakeup(states[k + 1]) <==> !LastHelperLeaves(states[k], actions[k])
    ensures states[k].dropped == 0 ==> (LastHelperLeaves(states[k], actions[k]) <==> LastHelperDies(states[k], actions[k]))
  {
    RunKeepsInvariant(states, actions, k);
    assert StepAt(states, actions, k);
    NoLostWakeupStep(states[k], actions[k], states[k + 1]);
    if states[k].dropped == 0 {
      OnlyDeathsLose(states[k], actions[k]);
    }
  }

  /** Over a whole run no wakeup is lost exactly when the last helper never leaves. */
  lemma {:induction false} WakeupsKeptIff(states: seq<State>, actions: seq<Action>, k: nat)
    requires Run(states, actions) && k < |states|
    ensures (forall i :: 0 <= i <= k ==> NoLostWakeup(states[i])) <==> (forall i :: 0 <= i < k ==> !LastHelperLeaves(states[i], actions[i]))
  {
    if k > 0 {
      WakeupsKeptIff(states, actions, k - 1);
      if NoLostWakeup(states[k - 1]) {
        RunStep(states, actions, k - 1);
      }
    }
  }

  /** A process dies after it took one off wait and before it posted. */
  predicate DiesBeforePost(s: State, a: Action)
  {
    a.Die? && At(s, a.p).WakePost?
  }

  lemma DropsOnlyBeforePost(s: State, a: Action, s': State)
    requires Step(s, a, s')
    ensures s'.dropped == s.dropped + (if DiesBeforePost(s, a) then 1 else 0)
  {
  }

  /** Where no process dies before its post, and the last helper does not die, no wakeup is ever lost. */
  lemma {:induction false} NoWakeupIsLost(states: seq<State>, actions: seq<Action>, k: nat)
    requires Run(states, actions) && k < |states|
    requires forall i :: 0 <= i < |actions| ==> !DiesBeforePost(states[i], actions[i]) && !LastHelperDies(states[i], actions[i])
    ensures NoLostWakeup(states[k]) && states[k].dropped == 0
  {
    if k > 0 {
      NoWakeupIsLost(states, actions, k - 1);
      RunStep(states, actions, k - 1);
      assert StepAt(states, actions, k - 1);
      DropsOnlyBeforePost(states[k - 1], actions[k - 1], states[k]);
    }
  }

  // ------------------------------------------------------------------ the deaths that lose a wakeup

  /** Process 1 owns the lock and process 2 sleeps. */
  function OwnerAndSleeper(): State
  {
    State(false, true, 1, 1, 0, map[1 := Critical, 2 := SemWait], 0, 0)
  }

  function Start2(): State
  {
    State(false, true, 0, 0, 0, map[1 := Idle, 2 := Idle], 0, 0)
  }

  /** A run with one more step. */
  lemma Then(states: seq<State>, actions: seq<Action>, a: Action, t: State) returns (states': seq<State>, actions': seq<Action>)
    requires Run(states, actions) && Step(states[|actions|], a, t)
    ensures Run(states', actions') && |actions'| == |actions| + 1 && actions'[|actions|] == a
    ensures states'[|actions|] == states[|actions|] && states'[|actions'|] == t
  {
    states', actions' := states + [t], actions + [a];
    forall i | 0 <= i < |actions'| ensures StepAt(states', actions', i) {
      if i < |actions| {
        assert StepAt(states, actions, i);
      }
    }
  }

  lemma OwnerAndSleeperRun() returns (states: seq<State>, actions: seq<Action>)
    ensures Run(states, actions) && states[|actions|] == OwnerAndSleeper()
  {
    var s0 := Start2();
    var s1 := s0.(procs := map[1 := LockRead(0), 2 := Idle]);
    var s2 := s0.(procs := map[1 := LockCas(0), 2 := Idle]);
    var s3 := s0.(lock := 1, procs := map[1 := Critical, 2 := Idle]);
    var s4 := s3.(procs := map[1 := Critical, 2 := LockRead(0)]);
    var s5 := s3.(procs := map[1 := Critical, 2 := Advertise]);
    var s6 := s3.(wait := 1, procs := map[1 := Critical, 2 := RecheckRead]);
    var s7 := OwnerAndSleeper();
    states := [s0, s1, s2, s3, s4, s5, s6, s7];
    actions := [CallLock(1), Advance(1), Advance(1), CallLock(2), Advance(2), Advance(2), Advance(2)];
    assert Step(s0, CallLock(1), s1) && Step(s1, Advance(1), s2) && Step(s2, Advance(1), s3);
    assert Step(s3, CallLock(2), s4) && Step(s4, Advance(2), s5) && Step(s5, Advance(2), s6) && Step(s6, Advance(2), s7);
  }

  lemma PostingRun() returns (states: seq<State>, actions: seq<Action>)
    ensures Run(states, actions)
    ensures states[|actions|] == State(false, true, 0, 0, 0, map[1 := WakePost, 2 := SemWait], 0, 0)
  {
    states, actions := OwnerAndSleeperRun();
    var s1 := OwnerAndSleeper().(lock := 0, procs := map[1 := WakeRead, 2 := SemWait]);
    var s2 := s1.(procs := map[1 := WakeCas(1), 2 := SemWait]);
    var s3 := s1.(wait := 0, procs := map[1 := WakePost, 2 := SemWait]);
    states, actions := Then(states, actions, Unlock(1), s1);
    states, actions := Then(states, actions, Advance(1), s2);
    states, actions := Then(states, actions, Advance(1), s3);
  }

  /** A process that dies between its decrement of wait and its post leaves a sleeper that nobody will ever wake. */
  lemma DeathInWakeupLosesIt() returns (states: seq<State>, actions: seq<Action>)
    ensures Run(states, actions) && |actions| > 0 && actions[|actions| - 1] == Die(1)
    ensures DiesBeforePost(states[|actions| - 1], Die(1)) && LastHelperDies(states[|actions| - 1], Die(1))
    ensures states[|actions|].dropped == 1 && !NoLostWakeup(states[|actions|])
  {
    states, actions := PostingRun();
    var s := states[|actions|];
    var t := s.(dropped := 1, procs := map[1 := Dead, 2 := SemWait]);
    states, actions := Then(states, actions, Die(1), t);
    assert s.procs[2].SemWait?;
    LeavingLoses(s, Die(1), t);
  }

  lemma TwoSleepersRun() returns (states: seq<State>, actions: seq<Action>)
    ensures Run(states, actions)
    ensures states[|actions|] == State(false, true, 0, 2, 0, map[1 := WakeRead, 2 := SemWait, 3 := SemWait], 0, 0)
  {
    states, actions := OwnerAndSleeperRun();
    var s := OwnerAndSleeper();
    var s1 := s.(procs := map[1 := Critical, 2 := SemWait, 3 := Idle]);
    var s2 := s.(procs := map[1 := Critical, 2 := SemWait, 3 := LockRead(0)]);
    var s3 := s.(procs := map[1 := Critical, 2 := SemWait, 3 := Advertise]);
    var s4 := s.(wait := 2, procs := map[1 := Critical, 2 := SemWait, 3 := RecheckRead]);
    var s5 := s4.(procs := map[1 := Critical, 2 := SemWait, 3 := SemWait]);
    var s6 := s5.(lock := 0, procs := map[1 := WakeRead, 2 := SemWait, 3 := SemWait]);
    states, actions := Then(states, actions, Start(3), s1);
    states, actions := Then(states, actions, CallLock(3), s2);
    states, actions := Then(states, actions, Advance(3), s3);
    states, actions := Then(states, actions, Advance(3), s4);
    states, actions := Then(states, actions, Advance(3), s5);
    states, actions := Then(states, actions, Unlock(1), s6);
  }

  lemma WokenRun() returns (states: seq<State>, actions: seq<Action>)
    ensures Run(states, actions)
    ensures states[|actions|] == State(false, true, 0, 1, 0, map[1 := Idle, 2 := LockRead(0), 3 := SemWait], 0, 0)
  {
    states, actions := TwoSleepersRun();
    var s := State(false, true, 0, 2, 0, map[1 := WakeRead, 2 := SemWait, 3 := SemWait], 0, 0);
    var s1 := s.(procs := map[1 := WakeCas(2), 2 := SemWait, 3 := SemWait]);
    var s2 := s.(wait := 1, procs := map[1 := WakePost, 2 := SemWait, 3 := SemWait]);
    var s3 := s2.(sem := 1, procs := map[1 := Idle, 2 := SemWait, 3 := SemWait]);
    var s4 := s2.(procs := map[1 := Idle, 2 := LockRead(0), 3 := SemWait]);
    states, actions := Then(states, actions, Advance(1), s1);
    states, actions := Then(states, actions, Advance(1), s2);
    states, actions := Then(states, actions, Advance(1), s3);
    states, actions := Then(states, actions, Advance(2), s4);
  }

  /** So does a process that was woken and dies before it looks at the lock again. */
  lemma DeathInRetryLosesIt() returns (states: seq<State>, actions: seq<Action>)
    ensures Run(states, actions) && |actions| > 0 && actions[|actions| - 1] == Die(2)
    ensures Retrying(At(states[|actions| - 1], 2)) && LastHelperDies(states[|actions| - 1], Die(2))
    ensures states[|actions|].dropped == 0 && !NoLostWakeup(states[|actions|])
  {
    states, actions := WokenRun();
    var s := states[|actions|];
    var t := s.(procs := map[1 := Idle, 2 := Dead, 3 := SemWait]);
    states, actions := Then(states, actions, Die(2), t);
    assert s.procs[3].SemWait?;
    LeavingLoses(s, Die(2), t);
  }

  lemma HelperRun() returns (states: seq<State>, actions: seq<Action>)
    ensures Run(states, actions)
    ensures states[|actions|] == State(false, true, 0, 2, 0, map[1 := WakeRead, 2 := SemWait, 3 := SemWait, 4 := LockRead(0)], 0, 0)
  {
    states, actions := TwoSleepersRun();
    states, actions := Then(states, actions, Start(4), State(false, true, 0, 2, 0, map[1 := WakeRead, 2 := SemWait, 3 := SemWait, 4 := Idle], 0, 0));
    states, actions := Then(states, actions, CallLock(4), State(false, true, 0, 2, 0, map[1 := WakeRead, 2 := SemWait, 3 := SemWait, 4 := LockRead(0)], 0, 0));
  }

  lemma DroppedRun() returns (states: seq<State>, actions: seq<Action>)
    ensures Run(states, actions)
    ensures states[|actions|] == State(false, true, 0, 1, 0, map[1 := Dead, 2 := SemWait, 3 := SemWait, 4 := LockRead(0)], 0, 1)
  {
    states, actions := HelperRun();
    states, actions := Then(states, actions, Advance(1), State(false, true, 0, 2, 0, map[1 := WakeCas(2), 2 := SemWait, 3 := SemWait, 4 := LockRead(0)], 0, 0));
    states, actions := Then(states, actions, Advance(1), State(false, true, 0, 1, 0, map[1 := WakePost, 2 := SemWait, 3 := SemWait, 4 := LockRead(0)], 0, 0));
    states, actions := Then(states, actions, Die(1), State(false, true, 0, 1, 0, map[1 := Dead, 2 := SemWait, 3 := SemWait, 4 := LockRead(0)], 0, 1));
  }

  lemma HelperWakesOne() returns (states: seq<State>, actions: seq<Action>)
    ensures Run(states, actions)
    ensures states[|actions|] == State(false, true, 0, 0, 0, map[1 := Dead, 2 := SemWait, 3 := SemWait, 4 := WakePost], 0, 1)
  {
    states, actions := DroppedRun();
    states, actions := Then(states, actions, Advance(4), State(false, true, 0, 1, 0, map[1 := Dead, 2 := SemWait, 3 := SemWait, 4 := LockCas(0)], 0, 1));
    states, actions := Then(states, actions, Advance(4), State(false, true, 4, 1, 0, map[1 := Dead, 2 := SemWait, 3 := SemWait, 4 := Critical], 0, 1));
    states, actions := Then(states, actions, Unlock(4), State(false, true, 0, 1, 0, map[1 := Dead, 2 := SemWait, 3 := SemWait, 4 := WakeRead], 0, 1));
    states, actions := Then(states, actions, Advance(4), State(false, true, 0, 1, 0, map[1 := Dead, 2 := SemWait, 3 := SemWait, 4 := WakeCas(1)], 0, 1));
    states, actions := Then(states, actions, Advance(4), State(false, true, 0, 0, 0, map[1 := Dead, 2 := SemWait, 3 := SemWait, 4 := WakePost], 0, 1));
  }

  lemma WokenUnlocks() returns (states: seq<State>, actions: seq<Action>)
    ensures Run(states, actions)
    ensures states[|actions|] == State(false, true, 0, 0, 0, map[1 := Dead, 2 := WakeRead, 3 := SemWait, 4 := Idle], 0, 1)
  {
    states, actions := HelperWakesOne();
    states, actions := Then(states, actions, Advance(4), State(false, true, 0, 0, 1, map[1 := Dead, 2 := SemWait, 3 := SemWait, 4 := Idle], 0, 1));
    states, actions := Then(states, actions, Advance(2), State(false, true, 0, 0, 0, map[1 := Dead, 2 := LockRead(0), 3 := SemWait, 4 := Idle], 0, 1));
    states, actions := Then(states, actions, Advance(2), State(false, true, 0, 0, 0, map[1 := Dead, 2 := LockCas(0), 3 := SemWait, 4 := Idle], 0, 1));
    states, actions := Then(states, actions, Advance(2), State(false, true, 2, 0, 0, map[1 := Dead, 2 := Critical, 3 := SemWait, 4 := Idle], 0, 1));
    states, actions := Then(states, actions, Unlock(2), State(false, true, 0, 0, 0, map[1 := Dead, 2 := WakeRead, 3 := SemWait, 4 := Idle], 0, 1));
  }

  /** A death before the post that loses nothing yet still loses a wakeup later, in a step that is no death. */
  lemma DroppedPostLosesLater() returns (states: seq<State>, actions: seq<Action>)
    ensures Run(states, actions) && |actions| > 0 && actions[|actions| - 1] == Advance(2)
    ensures LastHelperLeaves(states[|actions| - 1], Advance(2)) && !NoLostWakeup(states[|actions|])
  {
    states, actions := WokenUnlocks();
    var s := states[|actions|];
    var t := s.(procs := map[1 := Dead, 2 := Idle, 3 := SemWait, 4 := Idle]);
    states, actions := Then(states, actions, Advance(2), t);
    assert s.procs[3].SemWait?;
    LeavingLoses(s, Advance(2), t);
  }

  // ------------------------------------------------------------------ what the calls achieve

  /** p takes its next k steps while the others rest. */
  function Alone(s: State, p: Pid, k: nat): State
  {
    if k == 0 then s else Advanced(Alone(s, p, k - 1), p)
  }

  lemma OneStep(s: State, p: Pid)
    ensures Alone(s, p, 1) == Advanced(s, p)
  {
    assert Alone(s, p, 0) == s;
  }

  lemma TwoSteps(s: State, p: Pid)
    ensures Alone(s, p, 2) == Advanced(Advanced(s, p), p)
  {
    OneStep(s, p);
    assert Alone(s, p, 2) == Advanced(Alone(s, p, 1), p);
  }

  lemma ThreeSteps(s: State, p: Pid)
    ensures Alone(s, p, 3) == Advanced(Advanced(Advanced(s, p), p), p)
  {
    TwoSteps(s, p);
    assert Alone(s, p, 3) == Advanced(Alone(s, p, 2), p);
  }

  /** ngx_shmtx_trylock on a free lock takes it, on a taken one it changes nothing but its caller's position. */
  lemma TryLockDecides(s: State, p: Pid, s': State)
    requires Step(s, CallTryLock(p), s')
    ensures if s.lock == 0 then Alone(s', p, 2) == s.(lock := p, procs := s.procs[p := Critical])
            else Alone(s', p, 1) == s.(procs := s.procs[p := Idle])
  {
    OneStep(s', p);
    TwoSteps(s', p);
    assert forall pc, pc' {:trigger s.procs[p := pc][p := pc']} :: s.procs[p := pc][p := pc'] == s.procs[p := pc'];
  }

  /** Between its look at the lock and its compare-and-set another process may take the lock: then the try fails too. */
  lemma TryLockRaces(s: State, p: Pid)
    requires At(s, p) == TryCas
    ensures Advanced(s, p) == if s.lock == 0 then s.(lock := p, procs := s.procs[p := Critical]) else s.(procs := s.procs[p := Idle])
  {
  }

  /** Wherever ngx_shmtx_lock looks at the lock, if it is free the caller owns it two steps later. */
  lemma FreeLockIsTaken(s: State, p: Pid)
    requires s.lock == 0 && (At(s, p).LockRead? || At(s, p) == RecheckRead)
    ensures Alone(s, p, 2) == s.(lock := p, procs := s.procs[p := Critical], leaked := s.leaked + if At(s, p).LockRead? then 0 else 1)
  {
    TwoSteps(s, p);
    assert forall pc, pc' {:trigger s.procs[p := pc][p := pc']} :: s.procs[p := pc][p := pc'] == s.procs[p := pc'];
  }

  /** A call of ngx_shmtx_lock on a free lock, with nobody in the way. */
  lemma LockTakesFree(s: State, p: Pid, s': State)
    requires Step(s, CallLock(p), s') && s.lock == 0
    ensures Alone(s', p, 2) == s.(lock := p, procs := s.procs[p := Critical])
  {
    FreeLockIsTaken(s', p);
    assert s.procs[p := LockRead(0)][p := Critical] == s.procs[p := Critical];
  }

  lemma FailedAttempt(s: State, p: Pid, n: nat)
    requires s.lock != 0 && (At(s, p) == LockRead(n) || At(s, p) == LockCas(n))
    ensures Advanced(s, p) == s.(procs := s.procs[p :=
      if s.manyCpus && n < 1024 then LockRead(if n == 0 then 1 else 2 * n) else if s.semaphore then Advertise else LockRead(0)])
  {
  }

  lemma {:induction false} Spinning(s: State, p: Pid, k: nat)
    requires s.lock != 0 && At(s, p) == LockRead(0) && s.manyCpus && 1 <= k <= 11
    ensures Alone(s, p, k) == s.(procs := s.procs[p := LockRead(Doubled(k))])
  {
    if k == 1 {
      OneStep(s, p);
      FailedAttempt(s, p, 0);
    } else {
      Spinning(s, p, k - 1);
      DoubledBound(k);
      FailedAttempt(Alone(s, p, k - 1), p, Doubled(k - 1));
      assert forall pc, pc' {:trigger s.procs[p := pc][p := pc']} :: s.procs[p := pc][p := pc'] == s.procs[p := pc'];
    }
  }

  function Doubled(k: nat): nat { if k <= 1 then 1 else 2 * Doubled(k - 1) }

  lemma DoubledBound(k: nat)
    requires 1 <= k <= 11
    ensures (k < 11 <==> Doubled(k) < 1024) && Doubled(11) == 1024
  {
  }

  /**
   * While the lock stays taken the spinning ends after one attempt, and with more than one processor eleven more, after
   * 1, 2, 4 and so on up to 1024 pauses: with a semaphore the caller goes to wait, without one it starts over.
   */
  lemma SpinEnds(s: State, p: Pid, s': State)
    requires Step(s, CallLock(p), s') && s.lock != 0
    ensures Alone(s', p, if s.manyCpus then 12 else 1) == s.(procs := s.procs[p := if s.semaphore then Advertise else LockRead(0)])
  {
    assert forall pc, pc' {:trigger s.procs[p := pc][p := pc']} :: s.procs[p := pc][p := pc'] == s.procs[p := pc'];
    if s.manyCpus {
      Spinning(s', p, 11);
      DoubledBound(11);
      FailedAttempt(Alone(s', p, 11), p, 1024);
    } else {
      OneStep(s', p);
      FailedAttempt(s', p, 0);
    }
  }

  /** A caller that still finds the lock taken is counted, and sleeps. */
  lemma CountedAndAsleep(s: State, p: Pid)
    requires s.lock != 0 && At(s, p) == Advertise
    ensures Alone(s, p, 2) == s.(wait := s.wait + 1, procs := s.procs[p := SemWait])
  {
    TwoSteps(s, p);
    assert s.procs[p := RecheckRead][p := SemWait] == s.procs[p := SemWait];
  }

  /** A post wakes a sleeper, which starts over; without one it sleeps on; an error ends its sleep too. */
  lemma SleepEnds(s: State, p: Pid, s': State)
    requires At(s, p) == SemWait
    ensures Advanced(s, p) == if s.sem > 0 then s.(sem := s.sem - 1, procs := s.procs[p := LockRead(0)]) else s
    ensures Step(s, SemError(p), s') ==> At(s', p) == LockRead(0) && s'.lock == s.lock && s'.sem == s.sem && s'.wait == s.wait
  {
  }

  /** What a wakeup does, with nobody in the way: one counted waiter less and one post more, or nothing if none is counted. */
  lemma WakeupPosts(s: State, p: Pid)
    requires At(s, p) == WakeRead
    ensures if s.wait == 0 then Alone(s, p, 1) == s.(procs := s.procs[p := Idle])
            else Alone(s, p, 3) == s.(wait := s.wait - 1, sem := s.sem + 1, procs := s.procs[p := Idle])
  {
    OneStep(s, p);
    ThreeSteps(s, p);
    assert forall pc, pc' {:trigger s.procs[p := pc][p := pc']} :: s.procs[p := pc][p := pc'] == s.procs[p := pc'];
  }

  /** ngx_shmtx_unlock of one's own lock, and ngx_shmtx_force_unlock of a dead owner's: the lock is free, and a wakeup follows. */
  lemma UnlockFrees(s: State, a: Action, s': State)
    requires Step(s, a, s') && (a.Unlock? || a.ForceUnlock?) && s.lock != 0
    requires if a.Unlock? then At(s, a.p) == Critical && s.lock == a.p else s.lock == a.q
    ensures s' == s.(lock := 0, procs := s.procs[a.p := if s.semaphore then WakeRead else Idle])
  {
  }

  /** Forcing a lock that the dead process does not own changes nothing. */
  lemma ForceOnlyFromOwner(s: State, a: Action, s': State)
    requires Step(s, a, s') && a.ForceUnlock? && s.lock != a.q
    ensures s' == s
  {
  }

  /** The whole hand-over: the owner unlocks and wakes, and the sleeper q owns the lock three steps later. */
  lemma HandOver(s: State, p: Pid, q: Pid, s': State)
    requires At(s, p) == Critical && s.lock == p && p != 0 && At(s, q) == SemWait && s.semaphore && s.wait > 0 && s.sem == 0
    requires Step(s, Unlock(p), s')
    ensures Alone(Alone(s', p, 3), q, 3) == s.(lock := q, wait := s.wait - 1, procs := s.procs[p := Idle][q := Critical])
  {
    UnlockFrees(s, Unlock(p), s');
    WakeupPosts(s', p);
    var t := Alone(s', p, 3);
    assert t == s.(lock := 0, wait := s.wait - 1, sem := 1, procs := s.procs[p := Idle]);
    ThreeSteps(t, q);
    var u := Advanced(t, q);
    assert u == t.(sem := 0, procs := t.procs[q := LockRead(0)]);
    FreeLockIsTaken(u, q);
    TwoSteps(u, q);
    assert t.procs[q := LockRead(0)][q := Critical] == s.procs[p := Idle][q := Critical];
  }
}
