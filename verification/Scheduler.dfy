/**
 The regions of sylar/scheduler.cc and sylar/scheduler.h that run under the scheduler's lock,
 on its queue and counters; each takes the step of `SchedulerModel` it stands for.
 */
module Schedulers {
  import opened Wrappers
  import opened SchedulerModel
  import opened SchedulerLaws

  class Scheduler {
    var tasks: seq<Task>                // m_fibers
    var fiberStates: map<nat, FiberState>
    var activeThreadCount: int
    var autoStop: bool
    var isStopping: bool
    var accepted: nat                   // tasks accepted so far

    constructor ()
      ensures tasks == [] && fiberStates == map[] && activeThreadCount == 0 && accepted == 0
      ensures !autoStop && !isStopping
    {
      tasks, fiberStates, activeThreadCount, accepted := [], map[], 0, 0;
      autoStop, isStopping := false, false;
    }

    /** The state of the step system, with the workers as they are at the moment. */
    ghost function St(workers: map<int, Worker>): State
      reads this
    {
      State(tasks, workers, fiberStates, activeThreadCount, autoStop, isStopping, accepted, {})
    }

    /** An empty fiber pointer or callback is not accepted. */
    method ScheduleNoLock(work: Option<Work>, thread: int, ghost ws: map<int, Worker>) returns (needTickle: bool)
      modifies this`tasks, this`accepted, this`fiberStates
      ensures needTickle <==> old(tasks) == []
      ensures St(ws) == if work.Some? then Push(old(St(ws)), work.value, thread) else old(St(ws))
      ensures tasks == old(tasks) + if work.Some? then [Task(old(accepted), work.value, thread)] else []
    {
      needTickle := tasks == [];
      if work.Some? {
        tasks := tasks + [Task(accepted, work.value, thread)];
        accepted := accepted + 1;
        if work.value.FiberWork? && work.value.fiber !in fiberStates {
          fiberStates := fiberStates[work.value.fiber := INIT];
        }
      }
    }

    /** The batch form: the callbacks of expired timers, say, in their order and unpinned. */
    method ScheduleAll(works: seq<Work>, ghost ws: map<int, Worker>) returns (needTickle: bool)
      modifies this`tasks, this`accepted, this`fiberStates
      ensures needTickle <==> works != [] && old(tasks) == []
      ensures St(ws) == PushAll(old(St(ws)), works)
      ensures |tasks| == |old(tasks)| + |works| && tasks[..|old(tasks)|] == old(tasks)
      ensures forall k :: |old(tasks)| <= k < |tasks| ==>
                tasks[k] == Task(old(accepted) + k - |old(tasks)|, works[k - |old(tasks)|], ANY)
    {
      PushAllIs(St(ws), works);
      needTickle := false;
      var begin := 0;
      assert works[0..] == works;
      while begin < |works|
        invariant begin <= |works|
        invariant needTickle <==> begin > 0 && old(tasks) == []
        invariant if begin == 0 then tasks == old(tasks) else tasks != []
        invariant PushAll(St(ws), works[begin..]) == PushAll(old(St(ws)), works)
      {
        assert works[begin..][0] == works[begin] && works[begin..][1..] == works[begin + 1..];
        var one := ScheduleNoLock(Some(works[begin]), ANY, ws);
        needTickle := one || needTickle;
        begin := begin + 1;
      }
    }

    /** The scan of run(): takes the first task this thread may run, and says whom to wake. */
    method PickTask(thread: int, ghost ws: map<int, Worker>) returns (ft: Option<Task>, tickleMe: bool)
      requires thread in ws
      modifies this`tasks, this`activeThreadCount
      ensures ft.Some? ==> St(ws[thread := ws[thread].(pc := Picked(ft.value))]) == AfterScan(old(St(ws)), thread)
      ensures ft.None? ==> St(ws) == old(St(ws)) && FirstEligible(tasks, thread, fiberStates) == |tasks|
      ensures var i := FirstEligible(old(tasks), thread, fiberStates);
              tickleMe <==> (i + 1 < |old(tasks)| || exists j :: 0 <= j < i && Foreign(old(tasks)[j], thread))
    {
      hide FirstEligible;
      ft, tickleMe := None, false;
      var it := 0;
      while it < |tasks|
        invariant it <= |tasks| && tasks == old(tasks) && activeThreadCount == old(activeThreadCount)
        invariant ft.None?
        invariant forall j :: 0 <= j < it ==> !Eligible(tasks[j], thread, fiberStates)
        invariant tickleMe <==> exists j :: 0 <= j < it && Foreign(tasks[j], thread)
      {
        if Foreign(tasks[it], thread) {
          it := it + 1;
          tickleMe := true;
          continue;
        }
        if Executing(fiberStates, tasks[it].work) {
          it := it + 1;
          continue;
        }
        FirstIs(tasks, thread, fiberStates, it);
        ft := Some(tasks[it]);
        tasks := Without(tasks, it);
        activeThreadCount := activeThreadCount + 1;
        tickleMe := tickleMe || it < |tasks|;
        return;
      }
      FirstIs(tasks, thread, fiberStates, it);
    }

    /** While the count is right, true means that nothing is queued and no worker has a task. */
    method Stopping(ghost ws: map<int, Worker>) returns (r: bool)
      ensures r == StopCondition(St(ws))
      ensures CountRight(St(ws)) ==>
                (r <==> Stopped(St(ws)) && tasks == [] && forall t <- ws :: !Busy(ws[t].pc))
    {
      if CountRight(St(ws)) {
        CountZero(St(ws));
      }
      r := autoStop && isStopping && tasks == [] && activeThreadCount == 0;
    }
  }

  /** Pinned to a thread other than this one. */
  predicate Foreign(task: Task, thread: int) {
    task.thread != ANY && task.thread != thread
  }

  function PushAll(s: State, works: seq<Work>): State
    decreases |works|
  {
    if works == [] then s else PushAll(Push(s, works[0], ANY), works[1..])
  }

  /** A batch goes to the end of the queue, in its order. */
  lemma {:induction false} PushAllIs(s: State, works: seq<Work>)
    ensures var q := PushAll(s, works).queue;
            && |q| == |s.queue| + |works| && q[..|s.queue|] == s.queue
            && forall k :: |s.queue| <= k < |q| ==> q[k] == Task(s.nextId + k - |s.queue|, works[k - |s.queue|], ANY)
    decreases |works|
  {
    if works == [] {
      assert s.queue[..|s.queue|] == s.queue;
    } else {
      var s1 := Push(s, works[0], ANY);
      PushAllIs(s1, works[1..]);
      var q := PushAll(s, works).queue;
      assert q[..|s.queue|] == q[..|s1.queue|][..|s.queue|];
      assert q[|s.queue|] == q[..|s1.queue|][|s.queue|];
    }
  }

  /** The first eligible position is the only one with nothing eligible before it. */
  lemma FirstIs(queue: seq<Task>, thread: int, fibers: map<nat, FiberState>, i: nat)
    requires i <= |queue| && (i < |queue| ==> Eligible(queue[i], thread, fibers))
    requires forall j :: 0 <= j < i ==> !Eligible(queue[j], thread, fibers)
    ensures FirstEligible(queue, thread, fibers) == i
  {
    hide FirstEligible, Eligible;
  }
}
