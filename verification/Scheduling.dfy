/**
 The steps of the scheduler, the wait queues and the mutex as functions of their state:
 kernel/tasking/Scheduler.cpp, kernel/wait_queue.cpp and kernel/locks/Mutex.cpp.
 */
module Scheduling {
  import opened Options
  import opened Seqs

  /** The slices a task gets when it is activated and when the queues are swapped. */
  const SLICES: nat := 5

  /** `rq`, `expired_q`, `cur_`, and each task's `time_slices` and `need_reschedule`. */
  datatype Sched<T> = Sched(rq: seq<T>, expired: seq<T>, cur: T, slices: map<T, nat>, resched: set<T>)

  /** A Mutex and its wait queue. */
  datatype Lock<T> = Lock(owner: Option<T>, val: bool, queue: seq<T>)

  predicate Runnable<T(==)>(s: Sched<T>, t: T) {
    t in s.rq || t in s.expired
  }

  /** Lines 127-129: every task of a queue gets its slices back. */
  function Refill<T(==)>(slices: map<T, nat>, queue: seq<T>): (r: map<T, nat>) {
    slices + map t | t in queue :: SLICES
  }

  /** `pick_next`, when there is a task to pick; it is then the head of `rq`. */
  function PickNext<T(==)>(s: Sched<T>): (r: Sched<T>)
    requires s.rq != [] || s.expired != []
    ensures r.rq != []
  {
    if s.rq == [] then s.(rq := s.expired, expired := s.rq, slices := Refill(s.slices, s.expired)) else s
  }

  /** `schedule` */
  function Schedule<T(==)>(s: Sched<T>): (r: Sched<T>)
    requires s.rq != [] || s.expired != []
  {
    var p := PickNext(s);
    p.(resched := p.resched - {p.cur}, cur := p.rq[0])
  }

  /** `tick`; it panics unless the current task has slices left, and is in `rq` if this is the last one. */
  function Tick<T(==)>(s: Sched<T>): (r: Sched<T>)
    requires s.rq != [] ==> s.cur in s.slices && s.slices[s.cur] > 0 && (s.slices[s.cur] == 1 ==> s.cur in s.rq)
  {
    if s.rq == [] then s
    else
      var left := s.slices[s.cur] - 1;
      var s' := s.(slices := s.slices[s.cur := left]);
      if left != 0 then s'
      else s'.(rq := Without(s.rq, s.cur), expired := s.expired + [s.cur], resched := s.resched + {s.cur})
  }

  /** The end of every interrupt (arch/x86/interrupt.cpp, lines 43-45). */
  function AfterInterrupt<T(==)>(s: Sched<T>): (r: Sched<T>)
    requires s.cur in s.resched ==> s.rq != [] || s.expired != []
  {
    if s.cur in s.resched then Schedule(s) else s
  }

  /** `activate_task` */
  function Activate<T(==)>(s: Sched<T>, t: T): (r: Sched<T>) {
    s.(slices := s.slices[t := SLICES], rq := s.rq + [t])
  }

  /** `deactivate_task` */
  function Deactivate<T(==)>(s: Sched<T>, t: T): (r: Sched<T>) {
    s.(rq := Without(s.rq, t))
  }

  /** `WaitQueue::add` for the current task, and the `schedule` that follows it in `acquire`. */
  function Block<T(==)>(s: Sched<T>): (r: Sched<T>)
    requires Without(s.rq, s.cur) != [] || s.expired != []
  {
    Schedule(Deactivate(s, s.cur))
  }

  /** `WaitQueue::wake_up_one`, on the side of the scheduler. */
  function Wake<T(==)>(s: Sched<T>, queue: seq<T>): (r: Sched<T>) {
    if queue == [] then s else Activate(s, queue[0]).(resched := s.resched + {s.cur})
  }

  /** One round of the loop in `acquire`: take the free lock, or wait. */
  function TakeOrWait<T(==)>(s: Sched<T>, k: Lock<T>): (r: (Sched<T>, Lock<T>))
    requires !k.val ==> Without(s.rq, s.cur) != [] || s.expired != []
  {
    if k.val then (s, k.(owner := Some(s.cur), val := false))
    else (Block(s), k.(queue := k.queue + [s.cur]))
  }

  /** `release` */
  function ReleaseLock<T(==)>(s: Sched<T>, k: Lock<T>): (r: (Sched<T>, Lock<T>)) {
    (Wake(s, k.queue), Lock(None, true, if k.queue == [] then [] else k.queue[1..]))
  }

  // ----- the invariant of the scheduler

  /**
   Between interrupts: the current task heads `rq` with 1..5 slices left, the others in `rq` have exactly 5,
   expired tasks have none, and no task is queued twice.
   */
  ghost predicate Settled<T>(s: Sched<T>) {
    && s.rq != [] && s.cur == s.rq[0]
    && Distinct(s.rq) && Distinct(s.expired) && (forall t :: t in s.rq ==> t !in s.expired)
    && (forall t :: t in s.rq ==> t in s.slices) && (forall t :: t in s.expired ==> t in s.slices)
    && 1 <= s.slices[s.cur] <= SLICES
    && (forall i :: 0 < i < |s.rq| ==> s.slices[s.rq[i]] == SLICES)
    && (forall t :: t in s.expired ==> s.slices[t] == 0)
  }

  /** What holds when the current task has just left `rq`. */
  ghost predicate Unsettled<T>(s: Sched<T>) {
    && (s.rq != [] || s.expired != [])
    && Distinct(s.rq) && Distinct(s.expired) && (forall t :: t in s.rq ==> t !in s.expired)
    && (forall t :: t in s.rq ==> t in s.slices) && (forall t :: t in s.expired ==> t in s.slices)
    && (forall i :: 0 <= i < |s.rq| ==> s.slices[s.rq[i]] == SLICES)
    && (forall t :: t in s.expired ==> s.slices[t] == 0)
  }

  lemma ScheduleSettles<T>(s: Sched<T>)
    requires Unsettled(s)
    ensures Settled(Schedule(s))
    ensures forall t :: Runnable(Schedule(s), t) <==> Runnable(s, t)
    ensures Schedule(s).slices.Keys == s.slices.Keys
  {
  }

  /** Taking the head off a list without repetitions. */
  lemma WithoutHead<T>(q: seq<T>)
    requires Distinct(q) && q != []
    ensures Without(q, q[0]) == q[1..] && q[0] !in q[1..]
  {
  }

  lemma TickUnsettles<T>(s: Sched<T>)
    requires Settled(s)
    ensures s.slices[s.cur] > 1 ==> Settled(Tick(s)) && Tick(s) == s.(slices := s.slices[s.cur := s.slices[s.cur] - 1])
    ensures s.slices[s.cur] == 1 ==>
      Unsettled(Tick(s)) && Tick(s).cur in Tick(s).resched && Tick(s).rq == s.rq[1..]
          && Tick(s).expired == s.expired + [s.cur]
    ensures forall t :: Runnable(Tick(s), t) <==> Runnable(s, t)
    ensures Tick(s).slices.Keys == s.slices.Keys
  {
    WithoutHead(s.rq);
    assert forall t :: t in s.rq <==> t == s.rq[0] || t in s.rq[1..];
  }

  /** A timer interrupt settles again. */
  lemma TimerSettles<T>(s: Sched<T>)
    requires Settled(s)
    ensures Settled(AfterInterrupt(Tick(s)))
    ensures forall t :: Runnable(AfterInterrupt(Tick(s)), t) <==> Runnable(s, t)
    ensures AfterInterrupt(Tick(s)).slices.Keys == s.slices.Keys
  {
    TickUnsettles(s);
    if s.slices[s.cur] == 1 {
      ScheduleSettles(Tick(s));
    }
  }

  /** So does any other interrupt: with the current task at the head nothing is switched. */
  lemma InterruptSettles<T>(s: Sched<T>)
    requires Settled(s)
    ensures Settled(AfterInterrupt(s))
    ensures AfterInterrupt(s) == s.(resched := s.resched - {s.cur})
  {
  }

  lemma ActivateSettles<T>(s: Sched<T>, t: T)
    requires Settled(s) && !Runnable(s, t)
    ensures Settled(Activate(s, t))
    ensures Activate(s, t).rq == s.rq + [t] && Activate(s, t).expired == s.expired
  {
    DistinctAppend(s.rq, t);
  }

  lemma BlockSettles<T>(s: Sched<T>)
    requires Settled(s) && (|s.rq| > 1 || s.expired != [])
    ensures Without(s.rq, s.cur) == s.rq[1..] && s.cur !in s.rq[1..]
    ensures Unsettled(Deactivate(s, s.cur)) && Settled(Block(s))
    ensures forall t :: Runnable(Block(s), t) <==> Runnable(s, t) && t != s.cur
    ensures Block(s).slices.Keys == s.slices.Keys
  {
    WithoutHead(s.rq);
    assert forall t :: t in s.rq <==> t == s.rq[0] || t in s.rq[1..];
    ScheduleSettles(Deactivate(s, s.cur));
  }
}
