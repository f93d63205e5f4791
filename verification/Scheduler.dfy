/**
 The scheduler, the wait queue and the mutex as objects; each method has exactly the effect of the
 function of the same name in module Scheduling.
 */
module Schedulers {
  import opened Options
  import S = Scheduling
  import opened Seqs

  class Task {
    var timeSlices: nat
    var needReschedule: bool
  }

  class Scheduler {
    var rq: seq<Task>
    var expiredQ: seq<Task>
    var cur: Task
    /** Every task there is. */
    ghost var tasks: set<Task>

    ghost predicate Valid()
      reads this
    {
      cur in tasks && (forall t :: t in rq ==> t in tasks) && (forall t :: t in expiredQ ==> t in tasks)
    }

    ghost function View(): S.Sched<Task>
      reads this, tasks
    {
      S.Sched(rq, expiredQ, cur, map t | t in tasks :: t.timeSlices, set t | t in tasks && t.needReschedule)
    }

    /** `init`: the idle task is ready, and the boot task runs until the first interrupt. */
    constructor (idle: Task, dummy: Task)
      requires idle != dummy
      modifies idle, dummy
      ensures Valid() && tasks == {idle, dummy}
      ensures rq == [idle] && expiredQ == [] && cur == dummy
      ensures idle.timeSlices == S.SLICES && dummy.timeSlices == 0x0FFF_FFFF && dummy.needReschedule
    {
      rq := [idle];
      expiredQ := [];
      cur := dummy;
      tasks := {idle, dummy};
      new;
      idle.timeSlices := S.SLICES;
      dummy.needReschedule := true;
      dummy.timeSlices := 0x0FFF_FFFF;
    }

    /** `pick_next`: null only when nothing can run. */
    method PickNext() returns (next: Task?)
      requires Valid()
      modifies this`rq, this`expiredQ, expiredQ`timeSlices
      ensures Valid()
      ensures next == null <==> old(rq) == [] && old(expiredQ) == []
      ensures next == null ==> View() == old(View())
      ensures next != null ==> View() == S.PickNext(old(View())) && next == rq[0]
      ensures rq == (if old(rq) == [] then old(expiredQ) else old(rq))
      ensures expiredQ == (if old(rq) == [] then [] else old(expiredQ))
      ensures old(rq) == [] ==> forall x :: x in rq ==> x.timeSlices == 5
    {
      if rq == [] {
        if expiredQ == [] {
          return null;
        }
        var t := expiredQ;
        expiredQ := rq;
        rq := t;
        var i := 0;
        while i < |rq|
          invariant 0 <= i <= |rq|
          invariant rq == old(expiredQ) && expiredQ == old(rq)
          invariant forall x :: x in rq[..i] ==> x.timeSlices == S.SLICES
          invariant forall x :: x in tasks && x !in rq[..i] ==> x.timeSlices == old(x.timeSlices)
        {
          rq[i].timeSlices := S.SLICES;
          assert rq[..i + 1] == rq[..i] + [rq[i]];
          i := i + 1;
        }
        assert rq[..i] == rq;
      }
      next := rq[0];
    }

    /** `cur_->need_reschedule = false` */
    method ClearDue()
      requires Valid()
      modifies cur`needReschedule
      ensures Valid() && View() == old(View()).(resched := old(View()).resched - {cur})
    {
      cur.needReschedule := false;
      assert View().resched == old(View()).resched - {cur};
    }

    /**
     `schedule`.  With nothing to run, `context_switch` gets a null pointer; `switched` says that it does not.
     KernelRuns.OneLockNeverFaults shows that this never happens with one lock.
     */
    method Schedule() returns (switched: bool)
      requires Valid()
      modifies this`rq, this`expiredQ, this`cur, cur`needReschedule, expiredQ`timeSlices
      ensures Valid()
      ensures switched <==> old(rq) != [] || old(expiredQ) != []
      ensures switched ==> View() == S.Schedule(old(View()))
      ensures switched ==> rq != [] && cur == rq[0] && !old(cur).needReschedule
      ensures !switched ==> View() == old(View()).(resched := old(View()).resched - {cur})
    {
      var nextTask := PickNext();
      ghost var picked := View();
      ClearDue();
      assert View() == picked.(resched := picked.resched - {cur});
      if nextTask == null {
        return false;
      }
      switched := true;
      if cur == nextTask {
        return;
      }
      cur := nextTask;
    }

    /** `tick`; its assertion and `remove` panic without the second condition. */
    method Tick()
      requires Valid()
      requires rq != [] ==> cur.timeSlices > 0 && (cur.timeSlices == 1 ==> cur in rq)
      modifies this`rq, this`expiredQ, cur
      ensures Valid() && View() == S.Tick(old(View()))
      ensures rq == (if old(rq == [] || cur.timeSlices > 1) then old(rq) else Without(old(rq), cur))
      ensures expiredQ == old(expiredQ) + (if old(rq == [] || cur.timeSlices > 1) then [] else [cur])
      ensures old(rq) != [] ==>
                cur.timeSlices == old(cur.timeSlices) - 1 && (cur.timeSlices == 0 ==> cur.needReschedule)
    {
      if rq == [] {
        return;
      }
      cur.timeSlices := cur.timeSlices - 1;
      if cur.timeSlices == 0 {
        WithoutSubset(rq, cur);
        rq := Without(rq, cur);
        expiredQ := expiredQ + [cur];
        cur.needReschedule := true;
      }
    }

    /** The end of an interrupt: arch/x86/interrupt.cpp, lines 43-45. */
    method AfterInterrupt() returns (switched: bool)
      requires Valid()
      modifies this`rq, this`expiredQ, this`cur, cur`needReschedule, expiredQ`timeSlices
      ensures Valid()
      ensures switched <==> !old(cur.needReschedule) || old(rq) != [] || old(expiredQ) != []
      ensures switched ==> View() == S.AfterInterrupt(old(View()))
    {
      switched := true;
      if cur.needReschedule {
        switched := Schedule();
      }
    }

    /** `activate_task` */
    method ActivateTask(task: Task)
      requires Valid()
      modifies this`rq, this`tasks, task`timeSlices
      ensures Valid() && tasks == old(tasks) + {task}
      ensures task in old(tasks) || !task.needReschedule ==> View() == S.Activate(old(View()), task)
      ensures rq == old(rq) + [task] && task.timeSlices == 5
    {
      task.timeSlices := S.SLICES;
      rq := rq + [task];
      tasks := tasks + {task};
    }

    /** `deactivate_task`; `remove` panics if the task is not in `rq`. */
    method DeactivateTask(task: Task)
      requires Valid() && task in rq
      modifies this`rq
      ensures Valid() && View() == S.Deactivate(old(View()), task) && rq == Without(old(rq), task)
    {
      WithoutSubset(rq, task);
      rq := Without(rq, task);
    }
  }

  lemma {:induction false} WithoutSubset(q: seq<Task>, x: Task)
    ensures forall t :: t in Without(q, x) ==> t in q
  {
    if q != [] && q[0] != x {
      WithoutSubset(q[1..], x);
    }
  }

  class WaitQueue {
    var queue: seq<Task>

    constructor ()
      ensures queue == []
    {
      queue := [];
    }

    /** `add` */
    method Add(task: Task, scheduler: Scheduler)
      requires scheduler.Valid() && task in scheduler.rq
      modifies this, scheduler`rq
      ensures scheduler.Valid() && scheduler.View() == S.Deactivate(old(scheduler.View()), task)
      ensures scheduler.rq == Without(old(scheduler.rq), task) && queue == old(queue) + [task]
    {
      scheduler.DeactivateTask(task);
      queue := queue + [task];
    }

    /** `wake_up_one` */
    method WakeUpOne(scheduler: Scheduler)
      requires scheduler.Valid() && forall t :: t in queue ==> t in scheduler.tasks
      modifies this, scheduler`rq, scheduler`tasks, scheduler.tasks
      ensures scheduler.Valid() && scheduler.View() == S.Wake(old(scheduler.View()), old(queue))
      ensures scheduler.tasks == old(scheduler.tasks)
      ensures queue == if old(queue) == [] then [] else old(queue)[1..]
      ensures old(queue) != [] ==>
                && scheduler.rq == old(scheduler.rq) + [old(queue)[0]] && old(queue)[0].timeSlices == 5
                && scheduler.cur.needReschedule
    {
      if queue == [] {
        return;
      }
      var task := queue[0];
      queue := queue[1..];
      scheduler.ActivateTask(task);
      scheduler.cur.needReschedule := true;
    }
  }

  datatype Outcome = Acquired | Waits | NullDereferenced

  class Mutex {
    var owner: Task?
    var val: bool
    const waitQueue: WaitQueue

    constructor ()
      ensures owner == null && val && fresh(waitQueue) && waitQueue.queue == []
    {
      owner := null;
      val := true;
      waitQueue := new WaitQueue();
    }

    ghost function View(): S.Lock<Task>
      reads this, waitQueue
    {
      var holder: Option<Task> := if owner == null then None else Some(owner);
      S.Lock(holder, val, waitQueue.queue)
    }

    /**
     `acquire` up to its return or to the point where `schedule` switches away; a task that is switched back
     in goes on with Retry.  `remove` panics if the task has to wait and is not in `rq`.
     */
    method Acquire(scheduler: Scheduler) returns (outcome: Outcome)
      requires scheduler.Valid()
      requires owner != scheduler.cur && !val ==> scheduler.cur in scheduler.rq
      modifies this`owner, this`val, waitQueue, scheduler`rq, scheduler`expiredQ, scheduler`cur, scheduler.tasks
      ensures scheduler.Valid()
      ensures old(owner) == old(scheduler.cur) ==>
                outcome == Acquired && scheduler.View() == old(scheduler.View()) && View() == old(View())
      ensures old(owner) != old(scheduler.cur) ==> Tried(outcome, old(scheduler.View()), old(View()), scheduler)
      ensures waitQueue.queue ==
              if old(owner != scheduler.cur && !val) then old(waitQueue.queue) + [old(scheduler.cur)]
              else old(waitQueue.queue)
    {
      if scheduler.cur == owner {
        return Acquired;
      }
      outcome := Retry(scheduler);
    }

    /** What the test in `acquire` leads to from the given state. */
    ghost predicate Tried(outcome: Outcome, s: S.Sched<Task>, k: S.Lock<Task>, scheduler: Scheduler)
      reads this, waitQueue, scheduler, scheduler.tasks
    {
      var last := Without(s.rq, s.cur) == [] && s.expired == [];
      && outcome == (if k.val then Acquired else if last then NullDereferenced else Waits)
      && (outcome != NullDereferenced ==> (scheduler.View(), View()) == S.TakeOrWait(s, k))
    }

    /** The test of the loop in `acquire`, and what follows it. */
    method Retry(scheduler: Scheduler) returns (outcome: Outcome)
      requires scheduler.Valid() && (!val ==> scheduler.cur in scheduler.rq)
      modifies this`owner, this`val, waitQueue, scheduler`rq, scheduler`expiredQ, scheduler`cur, scheduler.tasks
      ensures scheduler.Valid()
      ensures Tried(outcome, old(scheduler.View()), old(View()), scheduler)
      ensures !old(val) ==> waitQueue.queue == old(waitQueue.queue) + [old(scheduler.cur)]
      ensures old(val) ==> waitQueue.queue == old(waitQueue.queue) && owner == scheduler.cur && !val
    {
      if !val {
        waitQueue.Add(scheduler.cur, scheduler);
        var switched := scheduler.Schedule();
        return if switched then Waits else NullDereferenced;
      }
      owner := scheduler.cur;
      val := false;
      return Acquired;
    }

    /** `release` */
    method Release(scheduler: Scheduler)
      requires scheduler.Valid() && forall t :: t in waitQueue.queue ==> t in scheduler.tasks
      modifies this`owner, this`val, waitQueue, scheduler`rq, scheduler`tasks, scheduler.tasks
      ensures scheduler.Valid()
      ensures (scheduler.View(), View()) == S.ReleaseLock(old(scheduler.View()), old(View()))
      ensures val && owner == null
      ensures old(waitQueue.queue) != [] ==>
                && waitQueue.queue == old(waitQueue.queue)[1..]
                && scheduler.rq == old(scheduler.rq) + [old(waitQueue.queue)[0]] && scheduler.cur.needReschedule
    {
      waitQueue.WakeUpOne(scheduler);
      val := true;
      owner := null;
    }
  }
}
