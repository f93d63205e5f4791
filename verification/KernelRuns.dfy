/**
 Whole runs of the scheduler with mutexes.  Interrupts are off inside `acquire`, `release` and the
 interrupt handlers, so each event below is atomic; `schedule` ends an event of the blocking task, and
 the task it switches to goes on with the next one.
 */
module KernelRuns {
  import opened Options
  import opened Scheduling
  import opened Seqs

  type Task = nat
  type LockId = nat

  /**
   Running its own code; inside `acquire`, on the wait queue; or inside `acquire`, taken off it and not yet back
   at the test.
   */
  datatype Progress = Running | Waiting(lock: LockId) | Woken(lock: LockId)

  /** `inside[l]` are the tasks that are past `acquire` of lock l without a later `release`. */
  datatype Kernel = Kernel(
    sched: Sched<Task>,
    locks: map<LockId, Lock<Task>>,
    progress: map<Task, Progress>,
    inside: map<LockId, set<Task>>)

  datatype Event = Timer | Interrupt | Spawn(task: Task) | Acquire(lock: LockId) | Retry | Release(lock: LockId)

  predicate Runs(k: Kernel, p: Progress) {
    k.sched.cur in k.progress && k.progress[k.sched.cur] == p
  }

  /** `schedule` finds a task to switch to; it dereferences null if the last runnable task blocks. */
  predicate MayBlock(k: Kernel) {
    |k.sched.rq| > 1 || k.sched.expired != []
  }

  /**
   Interrupts are on, except for a woken task that is on its way back to the test in `acquire`.
   Only the owner of a lock releases it.
   */
  predicate Enabled(k: Kernel, e: Event) {
    match e
    case Timer => Runs(k, Running)
    case Interrupt => Runs(k, Running)
    case Spawn(t) => Runs(k, Running) && t !in k.progress
    case Acquire(l) => Runs(k, Running) && l in k.locks
    case Retry =>
      k.sched.cur in k.progress && k.progress[k.sched.cur].Woken? && k.progress[k.sched.cur].lock in k.locks
    case Release(l) => Runs(k, Running) && l in k.locks && k.locks[l].owner == Some(k.sched.cur)
  }

  /** The current task finds lock `l` taken by another one. */
  predicate Blocks(k: Kernel, e: Event) {
    match e
    case Acquire(l) => l in k.locks && k.locks[l].owner != Some(k.sched.cur) && !k.locks[l].val
    case Retry =>
      && k.sched.cur in k.progress && k.progress[k.sched.cur].Woken?
      && k.progress[k.sched.cur].lock in k.locks && !k.locks[k.progress[k.sched.cur].lock].val
    case _ => false
  }

  /** The event ends in the null dereference. */
  predicate Faults(k: Kernel, e: Event) {
    Blocks(k, e) && !MayBlock(k)
  }

  lemma BlockingLeavesOne(k: Kernel)
    requires Settled(k.sched)
    ensures MayBlock(k) ==> Without(k.sched.rq, k.sched.cur) != [] || k.sched.expired != []
  {
    if MayBlock(k) {
      BlockSettles(k.sched);
    }
  }

  /** One round of the loop in `acquire` of lock `l`. */
  function Attempt(k: Kernel, l: LockId): Kernel
    requires Settled(k.sched) && l in k.locks && (k.locks[l].val || MayBlock(k))
  {
    BlockingLeavesOne(k);
    var cur := k.sched.cur;
    var (s', lock') := TakeOrWait(k.sched, k.locks[l]);
    if k.locks[l].val then
      k.(sched := s', locks := k.locks[l := lock'], progress := k.progress[cur := Running],
         inside := k.inside[l := (if l in k.inside then k.inside[l] else {}) + {cur}])
    else
      k.(sched := s', locks := k.locks[l := lock'], progress := k.progress[cur := Waiting(l)])
  }

  function ReleaseStep(k: Kernel, l: LockId): Kernel
    requires l in k.locks
  {
    var (s', lock') := ReleaseLock(k.sched, k.locks[l]);
    k.(sched := s', locks := k.locks[l := lock'],
       progress := if k.locks[l].queue == [] then k.progress else k.progress[k.locks[l].queue[0] := Woken(l)],
       inside := k.inside[l := (if l in k.inside then k.inside[l] else {}) - {k.sched.cur}])
  }

  function Step(k: Kernel, e: Event): Kernel
    requires Settled(k.sched) && Enabled(k, e) && !Faults(k, e)
  {
    match e
    case Timer =>
      TickUnsettles(k.sched);
      k.(sched := AfterInterrupt(Tick(k.sched)))
    case Interrupt => k.(sched := AfterInterrupt(k.sched))
    case Spawn(t) => k.(sched := Activate(k.sched, t), progress := k.progress[t := Running])
    case Acquire(l) => if k.locks[l].owner == Some(k.sched.cur) then k else Attempt(k, l)
    case Retry => Attempt(k, k.progress[k.sched.cur].lock)
    case Release(l) => ReleaseStep(k, l)
  }

  // ----- the invariant

  /** Exactly the tasks that do not wait are in `rq` or `expired_q`; a woken task is in `rq`. */
  ghost predicate Queued(k: Kernel) {
    && (forall t :: Runnable(k.sched, t) <==> t in k.progress && !k.progress[t].Waiting?)
    && (forall t :: t in k.sched.expired ==> t in k.progress && k.progress[t].Running?)
  }

  /** Exactly the tasks that wait for a lock are in its queue, each once. */
  ghost predicate Parked(k: Kernel) {
    && (forall l, t :: l in k.locks && t in k.locks[l].queue ==> t in k.progress && k.progress[t] == Waiting(l))
    && (forall t :: t in k.progress && k.progress[t].Waiting? ==>
          k.progress[t].lock in k.locks && t in k.locks[k.progress[t].lock].queue)
    && (forall t :: t in k.progress && k.progress[t].Woken? ==> k.progress[t].lock in k.locks)
    && (forall l :: l in k.locks ==> Distinct(k.locks[l].queue))
  }

  /** Every task is in exactly one of `rq`, `expired_q` and one wait queue. */
  ghost predicate Placed(k: Kernel) {
    Queued(k) && Parked(k)
  }

  /** At most one task is past `acquire` of a lock: it is the owner, and `val` is false exactly then. */
  ghost predicate Exclusive(k: Kernel) {
    && k.inside.Keys == k.locks.Keys
    && forall l :: l in k.locks ==>
         && (k.locks[l].val <==> k.locks[l].owner.None?)
         && k.inside[l] == (match k.locks[l].owner case None => {} case Some(t) => {t})
  }

  /** An owner neither waits for its own lock nor was woken for it. */
  ghost predicate OwnersGoOn(k: Kernel) {
    forall l :: l in k.locks && k.locks[l].owner.Some? ==>
      var t := k.locks[l].owner.value;
      t in k.progress && k.progress[t] != Waiting(l) && k.progress[t] != Woken(l)
  }

  /** A task that was woken for lock `l` waits in `rq` to try again. */
  ghost predicate SomeoneWoken(k: Kernel, l: LockId) {
    exists t :: t in k.sched.rq && t in k.progress && k.progress[t] == Woken(l)
  }

  /** No wake-up is lost: if a lock is free and tasks wait for it, one of them is on its way. */
  ghost predicate NoLostWakeup(k: Kernel) {
    forall l :: l in k.locks && k.locks[l].val && k.locks[l].queue != [] ==> SomeoneWoken(k, l)
  }

  ghost predicate Inv(k: Kernel) {
    Settled(k.sched) && Placed(k) && Exclusive(k) && OwnersGoOn(k) && NoLostWakeup(k)
  }

  /** Tasks other than the current one stay in `rq`, and at most the current one expires. */
  ghost predicate KeepsOthers(s: Sched<Task>, s': Sched<Task>) {
    && (forall t :: t in s.rq && t != s.cur ==> t in s'.rq)
    && (forall t :: t in s'.expired ==> t in s.expired || t == s.cur)
  }

  lemma TimerKeepsOthers(s: Sched<Task>)
    requires Settled(s)
    ensures KeepsOthers(s, (TickUnsettles(s); AfterInterrupt(Tick(s))))
  {
    TickUnsettles(s);
    assert forall t :: t in s.rq && t != s.cur ==> t in s.rq[1..];
  }

  lemma BlockKeepsOthers(s: Sched<Task>)
    requires Settled(s) && (|s.rq| > 1 || s.expired != [])
    ensures Without(s.rq, s.cur) != [] || s.expired != []
    ensures KeepsOthers(s, Block(s)) && forall t :: t in Block(s).expired ==> t in s.expired
  {
    BlockSettles(s);
    assert forall t :: t in s.rq && t != s.cur ==> t in s.rq[1..];
  }

  /** If woken tasks stay woken and queued, no wake-up gets lost. */
  lemma SameWoken(k: Kernel, k': Kernel)
    requires NoLostWakeup(k)
    requires forall t :: t in k.sched.rq && t in k.progress && k.progress[t].Woken? ==>
      t in k'.sched.rq && t in k'.progress && k'.progress[t] == k.progress[t]
    requires forall l :: l in k'.locks && k'.locks[l].val && k'.locks[l].queue != [] ==>
      l in k.locks && k.locks[l].val && k.locks[l].queue != []
    ensures NoLostWakeup(k')
  {
    forall l | l in k'.locks && k'.locks[l].val && k'.locks[l].queue != []
      ensures SomeoneWoken(k', l)
    {
      StillWoken(k, k', l);
    }
  }

  lemma StillWoken(k: Kernel, k': Kernel, l: LockId)
    requires SomeoneWoken(k, l)
    requires forall t :: t in k.sched.rq && t in k.progress && k.progress[t] == Woken(l) ==>
      t in k'.sched.rq && t in k'.progress && k'.progress[t] == Woken(l)
    ensures SomeoneWoken(k', l)
  {
    var t :| t in k.sched.rq && t in k.progress && k.progress[t] == Woken(l);
    assert t in k'.sched.rq;
  }

  lemma TimerStep(k: Kernel)
    requires Inv(k) && Enabled(k, Timer)
    ensures Inv(Step(k, Timer))
  {
    hide Settled, Tick, AfterInterrupt, NoLostWakeup, Parked, Runnable;
    TimerSettles(k.sched);
    TimerKeepsOthers(k.sched);
    SameWoken(k, Step(k, Timer));
    SameParked(k, Step(k, Timer));
  }

  lemma SameParked(k: Kernel, k': Kernel)
    requires Parked(k) && k'.progress == k.progress && k'.locks == k.locks
    ensures Parked(k')
  {
  }

  lemma InterruptStep(k: Kernel)
    requires Inv(k) && Enabled(k, Interrupt)
    ensures Inv(Step(k, Interrupt))
  {
    hide Settled, AfterInterrupt, NoLostWakeup, Parked, Queued, Exclusive, OwnersGoOn;
    InterruptSettles(k.sched);
    SameWoken(k, Step(k, Interrupt));
    SameParked(k, Step(k, Interrupt));
    SameQueued(k, Step(k, Interrupt));
  }

  lemma SameQueued(k: Kernel, k': Kernel)
    requires Queued(k) && Exclusive(k) && OwnersGoOn(k)
    requires k'.sched.rq == k.sched.rq && k'.sched.expired == k.sched.expired
    requires k'.progress == k.progress && k'.locks == k.locks && k'.inside == k.inside
    ensures Queued(k') && Exclusive(k') && OwnersGoOn(k')
  {
    assert forall t :: Runnable(k'.sched, t) <==> Runnable(k.sched, t);
  }

  lemma SpawnStep(k: Kernel, t: Task)
    requires Inv(k) && Enabled(k, Spawn(t))
    ensures Inv(Step(k, Spawn(t)))
  {
    hide Settled, NoLostWakeup, Parked;
    ActivateSettles(k.sched, t);
    SameWoken(k, Step(k, Spawn(t)));
    SpawnParked(k, t);
  }

  lemma SpawnParked(k: Kernel, t: Task)
    requires Settled(k.sched) && Parked(k) && Enabled(k, Spawn(t))
    ensures Parked(Step(k, Spawn(t)))
  {
    hide Settled, Distinct;
  }

  ghost predicate Attempts(k: Kernel, l: LockId) {
    l in k.locks && (Runs(k, Running) || Runs(k, Woken(l)))
  }

  /** Taking a free lock, on the first attempt or after being woken. */
  lemma TakeStep(k: Kernel, l: LockId)
    requires Inv(k) && Attempts(k, l) && k.locks[l].val
    ensures Inv(Attempt(k, l))
  {
    hide Settled, NoLostWakeup, Exclusive, Parked;
    TakeWakes(k, l);
    TakeExclusive(k, l);
    TakeParked(k, l);
  }

  lemma TakeExclusive(k: Kernel, l: LockId)
    requires Settled(k.sched) && Exclusive(k) && Attempts(k, l) && k.locks[l].val
    ensures Exclusive(Attempt(k, l))
  {
    hide Settled;
  }

  lemma TakeParked(k: Kernel, l: LockId)
    requires Settled(k.sched) && Parked(k) && Attempts(k, l) && k.locks[l].val
    ensures Parked(Attempt(k, l))
  {
    hide Settled, Distinct;
  }

  lemma TakeWakes(k: Kernel, l: LockId)
    requires Settled(k.sched) && NoLostWakeup(k) && Attempts(k, l) && k.locks[l].val
    ensures NoLostWakeup(Attempt(k, l))
  {
    hide Settled;
    var k' := Attempt(k, l);
    forall l' | l' in k'.locks && k'.locks[l'].val && k'.locks[l'].queue != []
      ensures SomeoneWoken(k', l')
    {
      StillWoken(k, k', l');
    }
  }

  /** Waiting for a taken lock. */
  lemma WaitStep(k: Kernel, l: LockId)
    requires Inv(k) && Attempts(k, l) && !k.locks[l].val && MayBlock(k) && k.locks[l].owner != Some(k.sched.cur)
    ensures Inv(Attempt(k, l))
  {
    hide Settled, NoLostWakeup, Block, Exclusive, Placed, OwnersGoOn;
    BlockSettles(k.sched);
    WaitPlaced(k, l);
    WaitWakes(k, l);
    WaitExclusive(k, l);
    WaitGoesOn(k, l);
  }

  lemma WaitGoesOn(k: Kernel, l: LockId)
    requires Settled(k.sched) && OwnersGoOn(k) && Attempts(k, l) && !k.locks[l].val && MayBlock(k)
    requires k.locks[l].owner != Some(k.sched.cur)
    ensures OwnersGoOn(Attempt(k, l))
  {
    hide Settled, Block;
  }

  lemma WaitExclusive(k: Kernel, l: LockId)
    requires Settled(k.sched) && Exclusive(k) && Attempts(k, l) && !k.locks[l].val && MayBlock(k)
    ensures Exclusive(Attempt(k, l))
  {
    hide Settled, Block;
  }

  lemma WaitPlaced(k: Kernel, l: LockId)
    requires Settled(k.sched) && Placed(k) && Attempts(k, l) && !k.locks[l].val && MayBlock(k)
    ensures Placed(Attempt(k, l))
  {
    hide Settled, Block, Queued, Parked;
    WaitQueued(k, l);
    WaitParked(k, l);
  }

  lemma WaitQueued(k: Kernel, l: LockId)
    requires Settled(k.sched) && Queued(k) && Attempts(k, l) && !k.locks[l].val && MayBlock(k)
    ensures Queued(Attempt(k, l))
  {
    hide Settled, Block;
    BlockSettles(k.sched);
    BlockKeepsOthers(k.sched);
    CurIsRunnable(k.sched);
  }

  lemma CurIsRunnable(s: Sched<Task>)
    requires Settled(s)
    ensures Runnable(s, s.cur)
  {
  }

  lemma WaitParked(k: Kernel, l: LockId)
    requires Settled(k.sched) && Parked(k) && Attempts(k, l) && !k.locks[l].val && MayBlock(k)
    ensures Parked(Attempt(k, l))
  {
    hide Settled, Block, Distinct;
    assert k.sched.cur !in k.locks[l].queue;
    DistinctAppend(k.locks[l].queue, k.sched.cur);
  }

  lemma WaitWakes(k: Kernel, l: LockId)
    requires Settled(k.sched) && NoLostWakeup(k) && Attempts(k, l) && !k.locks[l].val && MayBlock(k)
    ensures NoLostWakeup(Attempt(k, l))
  {
    hide Settled, Block;
    BlockKeepsOthers(k.sched);
    var k' := Attempt(k, l);
    forall l' | l' in k'.locks && k'.locks[l'].val && k'.locks[l'].queue != []
      ensures SomeoneWoken(k', l')
    {
      StillWoken(k, k', l');
    }
  }

  /** Releasing by the owner. */
  lemma OwnerReleases(k: Kernel, l: LockId)
    requires Inv(k) && Enabled(k, Release(l))
    ensures Inv(Step(k, Release(l)))
  {
    hide Settled, NoLostWakeup, Queued, Parked;
    ReleaseSettles(k, l);
    ReleaseQueued(k, l);
    ReleaseParked(k, l);
    ReleaseWakes(k, l);
    ReleaseGoesOn(k, l);
  }

  lemma ReleaseGoesOn(k: Kernel, l: LockId)
    requires OwnersGoOn(k) && l in k.locks
    ensures OwnersGoOn(ReleaseStep(k, l))
  {
  }

  lemma ReleaseSettles(k: Kernel, l: LockId)
    requires Settled(k.sched) && Placed(k) && l in k.locks
    ensures Settled(ReleaseStep(k, l).sched)
  {
    var queue := k.locks[l].queue;
    if queue != [] {
      assert queue[0] in queue;
      ActivateSettles(k.sched, queue[0]);
    }
  }

  lemma ReleaseQueued(k: Kernel, l: LockId)
    requires Placed(k) && l in k.locks
    ensures Queued(ReleaseStep(k, l))
  {
    hide Distinct;
    var queue := k.locks[l].queue;
    assert queue != [] ==> queue[0] in queue;
  }

  lemma ReleaseParked(k: Kernel, l: LockId)
    requires Parked(k) && l in k.locks
    ensures Parked(ReleaseStep(k, l))
  {
    var queue := k.locks[l].queue;
    if queue != [] {
      assert queue[0] in queue;
      HeadLeaves(queue);
      assert k.progress[queue[0]] == Waiting(l);
      forall l', t | l' in k.locks && l' != l && t in k.locks[l'].queue
        ensures t != queue[0] && k.progress[t] == Waiting(l')
      {
      }
    }
  }

  lemma HeadLeaves(q: seq<Task>)
    requires Distinct(q) && q != []
    ensures Distinct(q[1..]) && forall t :: t in q[1..] <==> t in q && t != q[0]
  {
    assert forall t :: t in q <==> t == q[0] || t in q[1..];
  }

  lemma ReleaseWakes(k: Kernel, l: LockId)
    requires NoLostWakeup(k) && Placed(k) && l in k.locks
    ensures NoLostWakeup(ReleaseStep(k, l))
  {
    var queue, k' := k.locks[l].queue, ReleaseStep(k, l);
    forall l' | l' in k'.locks && k'.locks[l'].val && k'.locks[l'].queue != []
      ensures SomeoneWoken(k', l')
    {
      if l' == l {
        assert queue[0] in k'.sched.rq;
      } else {
        assert queue != [] ==> queue[0] in queue;
        StillWoken(k, k', l');
      }
    }
  }

  /** Every event keeps the invariant. */
  lemma StepKeepsInv(k: Kernel, e: Event)
    requires Inv(k) && Enabled(k, e) && !Faults(k, e)
    ensures Inv(Step(k, e))
  {
    match e
    case Timer => TimerStep(k);
    case Interrupt => InterruptStep(k);
    case Spawn(t) => SpawnStep(k, t);
    case Acquire(l) =>
      if k.locks[l].owner != Some(k.sched.cur) {
        if k.locks[l].val {
          TakeStep(k, l);
        } else {
          WaitStep(k, l);
        }
      }
    case Retry =>
      var l := k.progress[k.sched.cur].lock;
      if k.locks[l].val {
        TakeStep(k, l);
      } else {
        WaitStep(k, l);
      }
    case Release(l) => OwnerReleases(k, l);
  }

  /** Releasing keeps mutual exclusion exactly when the lock is free or the releasing task owns it. */
  lemma ReleaseExclusiveIff(k: Kernel, l: LockId)
    requires Exclusive(k) && l in k.locks
    ensures Exclusive(ReleaseStep(k, l)) <==> k.locks[l].owner == None || k.locks[l].owner == Some(k.sched.cur)
  {
    var k' := ReleaseStep(k, l);
    assert k'.locks[l].val && k'.locks[l].owner == None;
    match k.locks[l].owner {
      case None =>
      case Some(o) =>
        assert o != k.sched.cur ==> o in k'.inside[l];
        assert o == k.sched.cur ==> k'.inside[l] == {};
    }
  }

  // ----- runs

  /** The events of `es` can happen one after the other. */
  ghost predicate CanRun(k: Kernel, es: seq<Event>)
    decreases |es|
  {
    es == [] || (Settled(k.sched) && Enabled(k, es[0]) && !Faults(k, es[0]) && CanRun(Step(k, es[0]), es[1..]))
  }

  ghost function Run(k: Kernel, es: seq<Event>): Kernel
    requires CanRun(k, es)
    decreases |es|
  {
    if es == [] then k else Run(Step(k, es[0]), es[1..])
  }

  /** After the first switch away from the boot task: the idle task runs, and all locks are free. */
  function Booted(idle: Task, locks: set<LockId>): Kernel {
    Kernel(Sched([idle], [], idle, map[idle := SLICES], {}),
           map l | l in locks :: Lock(None, true, []),
           map[idle := Running],
           map l | l in locks :: {})
  }

  /** In every reachable state: placement, mutual exclusion, and no lost wake-up. */
  lemma {:induction false} RunKeepsInv(k: Kernel, es: seq<Event>)
    requires Inv(k) && CanRun(k, es)
    ensures Inv(Run(k, es))
    decreases |es|
  {
    if es != [] {
      StepKeepsInv(k, es[0]);
      RunKeepsInv(Step(k, es[0]), es[1..]);
    }
  }

  lemma ReachableInv(idle: Task, locks: set<LockId>, es: seq<Event>)
    requires CanRun(Booted(idle, locks), es)
    ensures Inv(Run(Booted(idle, locks), es))
  {
    RunKeepsInv(Booted(idle, locks), es);
  }

  // ----- does anything stay to be run?

  /** Blocking dereferences null exactly if the blocking task is the last one on the queues. */
  lemma FaultsIff(k: Kernel, e: Event)
    requires Inv(k) && Enabled(k, e)
    ensures Faults(k, e) <==> Blocks(k, e) && forall t :: Runnable(k.sched, t) ==> t == k.sched.cur
  {
    var s := k.sched;
    if |s.rq| > 1 {
      assert Runnable(s, s.rq[1]) && s.rq[1] != s.rq[0];
    }
    if s.expired != [] {
      assert Runnable(s, s.expired[0]) && s.cur !in s.expired;
    }
  }

  /** With one lock that never happens, whoever blocks: the owner of the lock is left. */
  lemma OneLockNeverFaults(k: Kernel, l: LockId, e: Event)
    requires Inv(k) && k.locks.Keys == {l} && Enabled(k, e)
    ensures !Faults(k, e)
  {
    FaultsIff(k, e);
    if Blocks(k, e) {
      assert l in k.locks;
      match k.locks[l].owner {
        case None =>
        case Some(t) =>
          assert Runnable(k.sched, t);
          assert t != k.sched.cur;
      }
    }
  }

  /** The events of `es` can happen one after the other, up to the first null dereference if there is one. */
  ghost predicate MayHappen(k: Kernel, es: seq<Event>)
    decreases |es|
  {
    es == []
    || (Settled(k.sched) && Enabled(k, es[0]) && (Faults(k, es[0]) || MayHappen(Step(k, es[0]), es[1..])))
  }

  /** So with one lock, as in the kernel, every run of enabled events goes through. */
  lemma {:induction false} OneLockRuns(k: Kernel, l: LockId, es: seq<Event>)
    requires Inv(k) && k.locks.Keys == {l} && MayHappen(k, es)
    ensures CanRun(k, es)
    decreases |es|
  {
    hide Inv;
    if es != [] {
      OneLockNeverFaults(k, l, es[0]);
      StepKeepsInv(k, es[0]);
      StepKeepsLocks(k, es[0]);
      OneLockRuns(Step(k, es[0]), l, es[1..]);
    }
  }

  lemma StepKeepsLocks(k: Kernel, e: Event)
    requires Settled(k.sched) && Enabled(k, e) && !Faults(k, e)
    ensures Step(k, e).locks.Keys == k.locks.Keys
  {
  }

  /** Every state that the kernel reaches with its one lock, from the first switch to the idle task. */
  lemma OneLockReachable(idle: Task, l: LockId, es: seq<Event>)
    requires MayHappen(Booted(idle, {l}), es)
    ensures CanRun(Booted(idle, {l}), es) && Inv(Run(Booted(idle, {l}), es))
  {
    OneLockRuns(Booted(idle, {l}), l, es);
    ReachableInv(idle, {l}, es);
  }

  // ----- bounded waiting

  function Index(q: seq<Task>, t: Task): (i: nat)
    requires t in q
    ensures i < |q| && q[i] == t
  {
    if q[0] == t then 0 else 1 + Index(q[1..], t)
  }

  lemma {:induction false} IndexUnique(q: seq<Task>, i: nat)
    requires Distinct(q) && i < |q|
    ensures Index(q, q[i]) == i
  {
    if i > 0 {
      assert q[0] != q[i];
      IndexUnique(q[1..], i - 1);
    }
  }

  lemma IndexTail(q: seq<Task>, t: Task)
    requires Distinct(q) && t in q && t != q[0]
    ensures t in q[1..] && Index(q[1..], t) == Index(q, t) - 1
  {
  }

  lemma {:induction false} IndexAppend(q: seq<Task>, x: Task, t: Task)
    requires t in q
    ensures Index(q + [x], t) == Index(q, t)
  {
    if q[0] != t {
      assert (q + [x])[1..] == q[1..] + [x];
      IndexAppend(q[1..], x, t);
    }
  }

  lemma {:induction false} IndexLast(q: seq<Task>, x: Task)
    requires x !in q
    ensures Index(q + [x], x) == |q|
  {
    if q != [] {
      assert (q + [x])[1..] == q[1..] + [x];
      IndexLast(q[1..], x);
    }
  }

  /** The timer interrupts until task `t` runs, if nothing else happens. */
  ghost function Wait(s: Sched<Task>, t: Task): nat
    requires Settled(s) && Runnable(s, t)
  {
    if t in s.rq then
      if t == s.cur then 0 else s.slices[s.cur] + SLICES * (Index(s.rq, t) - 1)
    else s.slices[s.cur] + SLICES * (|s.rq| - 1) + SLICES * Index(s.expired, t)
  }

  /** What a timer interrupt does to the queues: nothing, the next task runs, or the queues are swapped. */
  lemma TimerShape(s: Sched<Task>)
    requires Settled(s)
    ensures (TickUnsettles(s);
             var s', left := AfterInterrupt(Tick(s)), s.slices[s.cur] - 1;
             && s'.cur in s'.slices
             && (left > 0 ==>
                   s'.rq == s.rq && s'.expired == s.expired && s'.cur == s.cur && s'.slices[s.cur] == left)
             && (left == 0 && |s.rq| > 1 ==>
                   s'.rq == s.rq[1..] && s'.expired == s.expired + [s.cur] && s'.slices[s'.cur] == SLICES)
             && (left == 0 && |s.rq| == 1 ==>
                   s'.rq == s.expired + [s.cur] && s'.expired == [] && s'.slices[s'.cur] == SLICES)
             && s'.cur == s'.rq[0])
  {
    TickUnsettles(s);
    TimerSettles(s);
  }

  /** A timer interrupt shortens the wait by one ... */
  lemma TimerWait(s: Sched<Task>, t: Task)
    requires Settled(s) && Runnable(s, t) && t != s.cur
    ensures (TickUnsettles(s); var s' := AfterInterrupt(Tick(s)); TimerSettles(s); Wait(s', t) == Wait(s, t) - 1)
  {
    TickUnsettles(s);
    TimerSettles(s);
    TimerShape(s);
    hide Tick, AfterInterrupt;
    if t in s.rq {
      IndexTail(s.rq, t);
    } else {
      IndexAppend(s.expired, s.cur, t);
    }
  }

  /** ... blocking by the slices that the current task gives up ... */
  lemma BlockWait(s: Sched<Task>, t: Task)
    requires Settled(s) && Runnable(s, t) && t != s.cur
    ensures |s.rq| > 1 || s.expired != []
    ensures (BlockSettles(s); Wait(Block(s), t) == Wait(s, t) - s.slices[s.cur])
  {
    BlockSettles(s);
    if t in s.rq {
      IndexTail(s.rq, t);
    }
  }

  /** ... and an activation delays only the tasks in `expired_q`, by five. */
  lemma ActivateWait(s: Sched<Task>, t: Task, x: Task)
    requires Settled(s) && Runnable(s, t) && !Runnable(s, x)
    ensures (ActivateSettles(s, x); Wait(Activate(s, x), t) == Wait(s, t) + if t in s.expired then SLICES else 0)
  {
    ActivateSettles(s, x);
    if t in s.rq {
      IndexAppend(s.rq, x, t);
    }
  }

  /** The event puts a task into `rq`. */
  predicate Activates(k: Kernel, e: Event) {
    e.Spawn? || (e.Release? && e.lock in k.locks && k.locks[e.lock].queue != [])
  }

  lemma RunnableAfterStep(k: Kernel, e: Event, t: Task)
    requires Inv(k) && Enabled(k, e) && !Faults(k, e) && Runnable(k.sched, t) && t != k.sched.cur
    ensures Settled(Step(k, e).sched) && Runnable(Step(k, e).sched, t)
    ensures t in k.sched.rq ==> t in Step(k, e).sched.rq
  {
    hide Inv, Exclusive, NoLostWakeup, Placed;
    StepKeepsInv(k, e);
    StepSettled(k, e);
    match e
    case Timer =>
      TimerSettles(k.sched);
      TimerKeepsOthers(k.sched);
    case Interrupt => InterruptSettles(k.sched);
    case Spawn(x) =>
    case Release(l) =>
    case Acquire(l) =>
      if k.locks[l].owner != Some(k.sched.cur) && !k.locks[l].val {
        BlockSettles(k.sched);
        BlockKeepsOthers(k.sched);
      }
    case Retry =>
      if !k.locks[k.progress[k.sched.cur].lock].val {
        BlockSettles(k.sched);
        BlockKeepsOthers(k.sched);
      }
  }

  lemma StepSettled(k: Kernel, e: Event)
    requires Inv(k) && Enabled(k, e) && !Faults(k, e)
    ensures Settled(k.sched) && Settled(Step(k, e).sched)
  {
    StepKeepsInv(k, e);
  }

  /** No event lengthens the wait of a runnable task except an activation while it is in `expired_q`. */
  lemma StepWait(k: Kernel, e: Event, t: Task)
    requires Inv(k) && Enabled(k, e) && !Faults(k, e) && Runnable(k.sched, t) && t != k.sched.cur
    ensures Settled(Step(k, e).sched) && Runnable(Step(k, e).sched, t)
    ensures Wait(Step(k, e).sched, t) + (if e.Timer? then 1 else 0) <=
            Wait(k.sched, t) + (if Activates(k, e) && t in k.sched.expired then SLICES else 0)
  {
    hide Exclusive, NoLostWakeup, Settled, Wait;
    RunnableAfterStep(k, e, t);
    match e
    case Timer => TimerWait(k.sched, t);
    case Interrupt =>
      InterruptSettles(k.sched);
      SameWait(k.sched, k.sched.resched - {k.sched.cur}, t);
    case Spawn(x) => ActivateWait(k.sched, t, x);
    case Release(l) => ReleaseWait(k, l, t);
    case Acquire(l) =>
      if k.locks[l].owner != Some(k.sched.cur) {
        AttemptWait(k, l, t);
      }
    case Retry => AttemptWait(k, k.progress[k.sched.cur].lock, t);
  }

  lemma AttemptWait(k: Kernel, l: LockId, t: Task)
    requires Settled(k.sched) && l in k.locks && (k.locks[l].val || MayBlock(k)) && Runnable(k.sched, t)
             && t != k.sched.cur
    requires Settled(Attempt(k, l).sched) && Runnable(Attempt(k, l).sched, t)
    ensures Wait(Attempt(k, l).sched, t) <= Wait(k.sched, t)
  {
    hide Wait;
    if !k.locks[l].val {
      BlockWait(k.sched, t);
      assert Attempt(k, l).sched == Block(k.sched);
    } else {
      assert Attempt(k, l).sched == k.sched;
    }
  }

  lemma SameWait(s: Sched<Task>, resched: set<Task>, t: Task)
    requires Settled(s) && Runnable(s, t)
    ensures Settled(s.(resched := resched)) && Wait(s.(resched := resched), t) == Wait(s, t)
  {
  }

  lemma ReleaseWait(k: Kernel, l: LockId, t: Task)
    requires Settled(k.sched) && Placed(k) && l in k.locks && Runnable(k.sched, t)
    ensures Settled(ReleaseStep(k, l).sched) && Runnable(ReleaseStep(k, l).sched, t)
    ensures Wait(ReleaseStep(k, l).sched, t) ==
            Wait(k.sched, t) + if k.locks[l].queue != [] && t in k.sched.expired then SLICES else 0
  {
    hide Settled, Wait;
    var queue := k.locks[l].queue;
    ReleaseSettles(k, l);
    if queue != [] {
      assert queue[0] in queue;
      ActivateSettles(k.sched, queue[0]);
      ActivateWait(k.sched, t, queue[0]);
      SameWait(Activate(k.sched, queue[0]), k.sched.resched + {k.sched.cur}, t);
    }
  }

  function Timers(es: seq<Event>): nat {
    if es == [] then 0 else (if es[0].Timer? then 1 else 0) + Timers(es[1..])
  }

  /** The activations that happen while task `t` is in `expired_q`. */
  ghost function ActivationsWhileExpired(k: Kernel, es: seq<Event>, t: Task): nat
    requires CanRun(k, es)
    decreases |es|
  {
    if es == [] || t !in k.sched.expired then 0
    else (if Activates(k, es[0]) then 1 else 0) + ActivationsWhileExpired(Step(k, es[0]), es[1..], t)
  }

  /** Task `t` runs at some point of the run. */
  ghost predicate GetsCurrent(k: Kernel, es: seq<Event>, t: Task)
    requires CanRun(k, es)
    decreases |es|
  {
    k.sched.cur == t || (es != [] && GetsCurrent(Step(k, es[0]), es[1..], t))
  }

  /** A runnable task runs before its wait, and five ticks for each activation while it is expired, are over. */
  lemma {:induction false} BoundedWaiting(k: Kernel, es: seq<Event>, t: Task)
    requires Inv(k) && CanRun(k, es) && Runnable(k.sched, t)
    requires Timers(es) >= Wait(k.sched, t) + SLICES * ActivationsWhileExpired(k, es, t)
    ensures GetsCurrent(k, es, t)
    decreases |es|
  {
    if t != k.sched.cur {
      WaitPositive(k.sched, t);
      assert es != [];
      StepKeepsInv(k, es[0]);
      StepWait(k, es[0], t);
      NoMoreActivations(k, es, t);
      BoundedWaiting(Step(k, es[0]), es[1..], t);
    }
  }

  lemma WaitPositive(s: Sched<Task>, t: Task)
    requires Settled(s) && Runnable(s, t)
    ensures Wait(s, t) == 0 <==> t == s.cur
  {
    if t in s.rq && t != s.cur {
      IndexTail(s.rq, t);
    }
  }

  /** A task in `rq` never goes back to `expired_q` before it has run. */
  lemma NoMoreActivations(k: Kernel, es: seq<Event>, t: Task)
    requires Inv(k) && es != [] && CanRun(k, es) && Runnable(k.sched, t) && t != k.sched.cur
    ensures ActivationsWhileExpired(k, es, t) ==
            (if Activates(k, es[0]) && t in k.sched.expired then 1 else 0) + ActivationsWhileExpired(Step(k, es[0]),
                es[1..], t)
  {
    RunnableAfterStep(k, es[0], t);
  }

  /** A task at place i of `rq` runs within 5 i timer interrupts, whatever else happens. */
  lemma WithinFiveTicksEach(k: Kernel, es: seq<Event>, i: nat)
    requires Inv(k) && CanRun(k, es) && i < |k.sched.rq| && Timers(es) >= 5 * i
    ensures GetsCurrent(k, es, k.sched.rq[i])
  {
    var t := k.sched.rq[i];
    IndexUnique(k.sched.rq, i);
    assert t !in k.sched.expired;
    BoundedWaiting(k, es, t);
  }

  /** A woken task stays woken until it is current again. */
  lemma StaysWoken(k: Kernel, e: Event, t: Task)
    requires Inv(k) && Enabled(k, e) && !Faults(k, e) && t in k.progress && k.progress[t].Woken? && t != k.sched.cur
    ensures t in Step(k, e).progress && Step(k, e).progress[t] == k.progress[t]
  {
    if e.Release? && k.locks[e.lock].queue != [] {
      assert k.locks[e.lock].queue[0] in k.locks[e.lock].queue;
    }
  }

  /** Task `t` gets back to the test in `acquire` of lock `l` at some point of the run. */
  ghost predicate GetsBack(k: Kernel, es: seq<Event>, t: Task, l: LockId)
    requires CanRun(k, es)
    decreases |es|
  {
    || (k.sched.cur == t && Runs(k, Woken(l)))
    || (es != [] && GetsBack(Step(k, es[0]), es[1..], t, l))
  }

  /** When a woken task becomes current it is at the test. */
  lemma {:induction false} CurrentIsBack(k: Kernel, es: seq<Event>, t: Task, l: LockId)
    requires Inv(k) && CanRun(k, es) && t in k.progress && k.progress[t] == Woken(l) && GetsCurrent(k, es, t)
    ensures GetsBack(k, es, t, l)
    decreases |es|
  {
    hide Inv, Step;
    if k.sched.cur != t {
      StaysWoken(k, es[0], t);
      StepKeepsInv(k, es[0]);
      CurrentIsBack(Step(k, es[0]), es[1..], t, l);
    }
  }

  /**
   A free lock that tasks wait for is tried again: a woken task gets back to the test within 5 ticks for each task
   in `rq`.
   */
  lemma FreeLockIsRetried(k: Kernel, es: seq<Event>, l: LockId) returns (t: Task)
    requires Inv(k) && CanRun(k, es) && l in k.locks && k.locks[l].val && k.locks[l].queue != []
    requires Timers(es) >= 5 * (|k.sched.rq| - 1)
    ensures t in k.progress && k.progress[t] == Woken(l) && GetsBack(k, es, t, l)
  {
    assert SomeoneWoken(k, l);
    t :| t in k.sched.rq && t in k.progress && k.progress[t] == Woken(l);
    WithinFiveTicksEach(k, es, Index(k.sched.rq, t));
    CurrentIsBack(k, es, t, l);
  }

  // ----- first come, first served

  /** Task `t` waits for lock `l` with `i` tasks in front of it. */
  ghost predicate WaitsAt(k: Kernel, t: Task, l: LockId, i: nat) {
    && t in k.progress && k.progress[t] == Waiting(l)
    && l in k.locks && i < |k.locks[l].queue| && k.locks[l].queue[i] == t
  }

  /** The lock that the event may block on. */
  function LockOf(k: Kernel, e: Event): LockId
    requires Blocks(k, e)
  {
    match e
    case Acquire(l) => l
    case Retry => k.progress[k.sched.cur].lock
  }

  /** A task that blocks joins the end of the queue: everyone who waits already is in front of it. */
  lemma JoinsLast(k: Kernel, e: Event)
    requires Inv(k) && Enabled(k, e) && Blocks(k, e) && !Faults(k, e)
    ensures var l := LockOf(k, e);
            && l in k.locks && WaitsAt(Step(k, e), k.sched.cur, l, |k.locks[l].queue|)
            && Step(k, e).locks[l].queue == k.locks[l].queue + [k.sched.cur]
  {
    hide Inv;
    assert Settled(k.sched) by { SettledNow(k); }
    hide Settled, Block;
  }

  lemma SettledNow(k: Kernel)
    requires Inv(k)
    ensures Settled(k.sched) && Parked(k)
  {
  }

  /** A release wakes the first one and moves the others up; nothing else moves anyone, and nobody moves back. */
  lemma PlaceInQueue(k: Kernel, e: Event, t: Task, l: LockId, i: nat)
    requires Inv(k) && Enabled(k, e) && !Faults(k, e) && WaitsAt(k, t, l, i)
    ensures Settled(k.sched)
    ensures if e != Release(l) then WaitsAt(Step(k, e), t, l, i)
            else if i > 0 then WaitsAt(Step(k, e), t, l, i - 1)
            else t in Step(k, e).progress && Step(k, e).progress[t] == Woken(l) && t in Step(k, e).sched.rq
  {
    SettledNow(k);
    hide Inv, Settled, Block, Attempt, ReleaseStep, Tick, AfterInterrupt;
    match e
    case Acquire(lock) =>
      if k.locks[lock].owner != Some(k.sched.cur) {
        AttemptPlace(k, lock, t, l, i);
      }
    case Retry => AttemptPlace(k, k.progress[k.sched.cur].lock, t, l, i);
    case Release(lock) => ReleasePlace(k, lock, t, l, i);
    case _ =>
  }

  lemma AttemptPlace(k: Kernel, lock: LockId, t: Task, l: LockId, i: nat)
    requires Settled(k.sched) && lock in k.locks && (k.locks[lock].val || MayBlock(k))
    requires WaitsAt(k, t, l, i) && t != k.sched.cur
    ensures WaitsAt(Attempt(k, lock), t, l, i)
  {
    hide Settled, Block;
  }

  lemma ReleasePlace(k: Kernel, lock: LockId, t: Task, l: LockId, i: nat)
    requires Parked(k) && lock in k.locks && WaitsAt(k, t, l, i)
    ensures var k' := ReleaseStep(k, lock);
            if lock != l then WaitsAt(k', t, l, i)
            else if i > 0 then WaitsAt(k', t, l, i - 1)
            else t in k'.progress && k'.progress[t] == Woken(l) && t in k'.sched.rq
  {
    var q := k.locks[lock].queue;
    if q != [] {
      assert q[0] in q;
      if lock == l && i > 0 {
        assert q[0] != q[i] && q[1..][i - 1] == t;
      }
    }
  }

  /** How often lock `l` is released. */
  function Releases(es: seq<Event>, l: LockId): nat
    decreases |es|
  {
    if es == [] then 0 else (if es[0] == Release(l) then 1 else 0) + Releases(es[1..], l)
  }

  /** Of the releases of `l`, the one after `n` others wakes task `t`. */
  ghost predicate WokenAfter(k: Kernel, es: seq<Event>, t: Task, l: LockId, n: nat)
    requires CanRun(k, es)
    decreases |es|
  {
    es != []
    && var k' := Step(k, es[0]);
       if es[0] != Release(l) then WokenAfter(k', es[1..], t, l, n)
       else if n > 0 then WokenAfter(k', es[1..], t, l, n - 1)
       else t in k'.progress && k'.progress[t] == Woken(l)
  }

  /** In every run, the task at place `i` is woken by release `i + 1`, and by then was passed by nobody. */
  lemma {:induction false} FirstComeFirstServed(k: Kernel, es: seq<Event>, t: Task, l: LockId, i: nat)
    requires Inv(k) && CanRun(k, es) && WaitsAt(k, t, l, i)
    ensures if Releases(es, l) <= i then WaitsAt(Run(k, es), t, l, i - Releases(es, l))
            else WokenAfter(k, es, t, l, i)
    decreases |es|
  {
    hide Inv, Step, WaitsAt, Enabled, Faults, Settled;
    if es != [] {
      PlaceInQueue(k, es[0], t, l, i);
      StepKeepsInv(k, es[0]);
      if es[0] != Release(l) {
        FirstComeFirstServed(Step(k, es[0]), es[1..], t, l, i);
      } else if i > 0 {
        FirstComeFirstServed(Step(k, es[0]), es[1..], t, l, i - 1);
      }
    }
  }
}
