/**
 Tasks pinned to a thread and shutdown: exactly when a task is left behind for good, and which
 tasks never are.
 */
module SchedulerPins {
  import opened SchedulerModel
  import opened SchedulerLaws

  // ---------- Tasks nobody will take ----------

  /** Task id is queued at position i for thread p alone. */
  predicate PinnedAt(queue: seq<Task>, i: int, id: nat, p: int) {
    0 <= i < |queue| && queue[i].id == id && queue[i].thread == p && p != ANY
  }

  predicate StuckAt(s: State, i: int, id: nat, p: int) {
    PinnedAt(s.queue, i, id, p) && !Live(s, p)
  }

  /** Task id is queued for a thread that is no worker or has left. */
  ghost predicate Stuck(s: State, id: nat) {
    exists i, p :: StuckAt(s, i, id, p)
  }

  /** The worker finds nothing, and its idle fiber has ended: it leaves. */
  predicate LastScan(s: State, t: int) {
    At(s, t) && s.workers[t].idleDone && FirstEligible(s.queue, t, s.fibers) == |s.queue|
  }

  predicate RunningAt(s: State, i: int, id: nat, p: int) {
    PinnedAt(s.queue, i, id, p) && Executing(s.fibers, s.queue[i].work)
  }

  /** Task id is queued for a thread that is no worker any more. */
  predicate QueuedLate(s: State, step: Step, id: nat) {
    (step.ScheduleOutside? || step.ScheduleInside?) && s.nextId == id && step.thread != ANY && !Live(s, step.thread)
  }

  /** A worker makes its last scan while the fiber of task id, pinned to it, is running elsewhere. */
  ghost predicate PassedOver(s: State, t: int, id: nat) {
    LastScan(s, t) && exists i :: RunningAt(s, i, id, t)
  }

  ghost predicate Abandons(s: State, step: Step, id: nat) {
    QueuedLate(s, step, id) || (step.Scan? && PassedOver(s, step.t, id))
  }

  // ---------- When a task gets stuck ----------

  lemma StuckSame(s: State, s': State, id: nat)
    requires s'.queue == s.queue && forall t :: Live(s', t) <==> Live(s, t)
    ensures Stuck(s', id) <==> Stuck(s, id)
  {
    assert forall i, p :: StuckAt(s', i, id, p) <==> StuckAt(s, i, id, p);
  }

  lemma StuckPush(s: State, work: Work, thread: int, id: nat)
    ensures Stuck(Push(s, work, thread), id) <==>
              Stuck(s, id) || (s.nextId == id && thread != ANY && !Live(s, thread))
  {
    var s' := Push(s, work, thread);
    assert forall t :: Live(s', t) <==> Live(s, t);
    if i, p :| StuckAt(s, i, id, p) {
      assert StuckAt(s', i, id, p);
    }
    if s.nextId == id && thread != ANY && !Live(s, thread) {
      assert StuckAt(s', |s.queue|, id, thread);
    }
    if i, p :| StuckAt(s', i, id, p) {
      assert i < |s.queue| ==> StuckAt(s, i, id, p);
    }
  }

  /** What a worker takes is not stuck, and the rest stays where it is. */
  lemma StuckPick(s: State, t: int, id: nat)
    requires Enabled(s, Scan(t)) && FirstEligible(s.queue, t, s.fibers) < |s.queue|
    ensures Stuck(AfterScan(s, t), id) <==> Stuck(s, id)
  {
    var s', k := AfterScan(s, t), FirstEligible(s.queue, t, s.fibers);
    hide FirstEligible;
    assert Live(s, t);
    assert forall u :: Live(s', u) <==> Live(s, u);
    assert forall i :: 0 <= i < |s'.queue| ==> s'.queue[i] == s.queue[if i < k then i else i + 1];
    if i, p :| StuckAt(s, i, id, p) {
      assert StuckAt(s', if i < k then i else i - 1, id, p);
    }
    if i, p :| StuckAt(s', i, id, p) {
      assert StuckAt(s, if i < k then i else i + 1, id, p);
    }
  }

  /** The last scan: what is pinned to the worker and not taken has its fiber running. */
  lemma StuckLastScan(s: State, t: int, id: nat)
    requires Enabled(s, Scan(t)) && LastScan(s, t)
    ensures Stuck(AfterScan(s, t), id) <==> Stuck(s, id) || PassedOver(s, t, id)
  {
    var s' := AfterScan(s, t);
    assert Live(s, t) && !Live(s', t);
    assert forall u :: u != t ==> (Live(s', u) <==> Live(s, u));
    assert forall i :: 0 <= i < |s.queue| ==> !Eligible(s.queue[i], t, s.fibers);
    hide FirstEligible;
    if i, p :| StuckAt(s, i, id, p) {
      assert StuckAt(s', i, id, p);
    }
    if i :| RunningAt(s, i, id, t) {
      assert StuckAt(s', i, id, t);
    }
    if i, p :| StuckAt(s', i, id, p) {
      assert StuckAt(s, i, id, p) || RunningAt(s, i, id, t);
    }
  }

  /** A step leaves a task stuck exactly if it was stuck or the step abandons it. */
  lemma StuckStep(s: State, step: Step, id: nat)
    requires Enabled(s, step)
    ensures Stuck(Next(s, step), id) <==> Stuck(s, id) || Abandons(s, step, id)
  {
    hide FirstEligible, Without, Stuck, PassedOver;
    var s' := Next(s, step);
    match step
    case ScheduleOutside(work, thread) => StuckPush(s, work, thread, id);
    case ScheduleInside(_, work, thread) => StuckPush(s, work, thread, id);
    case Scan(t) =>
      PassedOverIs(s, t, id);
      if FirstEligible(s.queue, t, s.fibers) < |s.queue| {
        StuckPick(s, t, id);
      } else if s.workers[t].idleDone {
        StuckLastScan(s, t, id);
      } else {
        StuckSame(s, s', id);
      }
    case Requeue(t) =>
      StuckPush(s, FiberWork(s.workers[t].pc.fiber), ANY, id);
      StuckSame(Push(s, FiberWork(s.workers[t].pc.fiber), ANY), s', id);
    case RootEnter(t) =>
      if StopCondition(s) {
        StuckNone(s, id);
        StuckNone(s', id);
      } else {
        StuckSame(s, s', id);
      }
    case _ => StuckSame(s, s', id);
  }

  lemma PassedOverIs(s: State, t: int, id: nat)
    ensures PassedOver(s, t, id) ==> LastScan(s, t)
  {
  }

  lemma StuckNone(s: State, id: nat)
    requires s.queue == []
    ensures !Stuck(s, id)
  {
  }

  // ---------- Runs ----------

  /** Step number i of the run abandons task id. */
  ghost predicate AbandonsAt(s: State, steps: seq<Step>, i: int, id: nat) {
    0 <= i < |steps| && Possible(s, steps[..i]) && Abandons(Run(s, steps[..i]), steps[i], id)
  }

  ghost predicate Abandoned(s: State, steps: seq<Step>, id: nat) {
    exists i :: AbandonsAt(s, steps, i, id)
  }

  /** A prefix of a run is its first step and a prefix of the rest. */
  lemma PrefixShift(s: State, steps: seq<Step>, i: nat)
    requires Possible(s, steps) && 1 <= i <= |steps|
    ensures var s1 := Next(s, steps[0]);
            && (Possible(s, steps[..i]) <==> Possible(s1, steps[1..][..i - 1]))
            && (Possible(s, steps[..i]) ==> Run(s, steps[..i]) == Run(s1, steps[1..][..i - 1]))
  {
    hide Enabled, Next;
    assert steps[..i][1..] == steps[1..][..i - 1];
  }

  lemma AbandonsShift(s: State, steps: seq<Step>, id: nat)
    requires Possible(s, steps) && steps != []
    ensures Abandoned(s, steps, id) <==> Abandons(s, steps[0], id) || Abandoned(Next(s, steps[0]), steps[1..], id)
  {
    hide Abandons, Enabled, Next;
    var s1, rest := Next(s, steps[0]), steps[1..];
    assert Possible(s, steps[..0]) && Run(s, steps[..0]) == s;
    assert AbandonsAt(s, steps, 0, id) <==> Abandons(s, steps[0], id);
    forall i | 1 <= i < |steps|
      ensures AbandonsAt(s, steps, i, id) <==> AbandonsAt(s1, rest, i - 1, id)
    {
      PrefixShift(s, steps, i);
    }
    if i :| AbandonsAt(s1, rest, i, id) {
      assert AbandonsAt(s, steps, i + 1, id);
    }
  }

  lemma {:induction false} StuckRun(s: State, steps: seq<Step>, id: nat)
    requires Possible(s, steps)
    ensures Stuck(Run(s, steps), id) <==> Stuck(s, id) || Abandoned(s, steps, id)
    decreases |steps|
  {
    hide Enabled, Next, Stuck, Abandons;
    if steps != [] {
      StuckStep(s, steps[0], id);
      StuckRun(Next(s, steps[0]), steps[1..], id);
      AbandonsShift(s, steps, id);
    }
  }

  /** What is left in the queue when all workers have gone is stuck, and the other way round. */
  lemma LeftIsStuck(s: State, id: nat)
    requires forall i :: 0 <= i < |s.queue| ==> s.queue[i].thread != ANY
    requires forall t :: !Live(s, t)
    ensures Queued(s.queue, id) <==> Stuck(s, id)
  {
    hide Live;
    if Queued(s.queue, id) {
      var i :| 0 <= i < |s.queue| && s.queue[i].id == id;
      assert StuckAt(s, i, id, s.queue[i].thread);
    }
  }

  /**
   Once the last worker has left, a task is still queued exactly if some step of the run
   abandoned it: it was queued for a thread that was no worker or had left, or its worker made
   its last scan while its fiber was running elsewhere.
   */
  lemma LeftBehindExactly(s0: State, steps: seq<Step>, id: nat)
    requires Initial(s0) && Possible(s0, steps)
    requires forall t :: !Live(Run(s0, steps), t)
    ensures Queued(Run(s0, steps).queue, id) <==> Abandoned(s0, steps, id)
  {
    hide Possible, Run, Live, Stuck, Abandoned;
    AllWorkersGone(s0, steps);
    StuckRun(s0, steps, id);
    StuckNone(s0, id);
    LeftIsStuck(Run(s0, steps), id);
  }

  /** So a shutdown finishes every accepted task exactly if no step abandons one. */
  lemma ShutdownFinishesAll(s0: State, steps: seq<Step>)
    requires Initial(s0) && Possible(s0, steps)
    requires forall t :: !Live(Run(s0, steps), t)
    ensures (forall id: nat :: id < Run(s0, steps).nextId ==> id in Run(s0, steps).done)
       <==> (forall id: nat :: !Abandoned(s0, steps, id))
  {
    hide Initial, Possible, Run, Live, Abandoned, Queued;
    AllWorkersGone(s0, steps);
    QueuedUnfinished(s0, steps);
    var s := Run(s0, steps);
    forall id: nat
      ensures Queued(s.queue, id) <==> Abandoned(s0, steps, id)
    {
      LeftBehindExactly(s0, steps, id);
    }
  }

  lemma QueuedUnfinished(s0: State, steps: seq<Step>)
    requires Initial(s0) && Possible(s0, steps)
    ensures forall id: nat :: Queued(Run(s0, steps).queue, id) ==> id < Run(s0, steps).nextId && id !in Run(s0, steps).done
  {
    hide Possible, Run, Queued, ExecRight, PinsKept, StopRight, NothingStranded, CountRight;
    InitialInv(s0);
    RunKeeps(s0, steps);
  }

  // ---------- Tasks that always finish ----------

  /** Task id has been accepted; if it is queued, then as it was scheduled. */
  predicate Known(s: State, id: nat, work: Work, thread: int) {
    id < s.nextId && forall i :: 0 <= i < |s.queue| && s.queue[i].id == id ==> s.queue[i] == Task(id, work, thread)
  }

  lemma KnownStep(s: State, step: Step, id: nat, work: Work, thread: int)
    requires Enabled(s, step) && Known(s, id, work, thread)
    ensures Known(Next(s, step), id, work, thread)
  {
    hide FirstEligible;
  }

  /** An unpinned task, or a pinned callback, is not abandoned once it is queued. */
  lemma NotAbandoned(s: State, step: Step, id: nat, work: Work, thread: int)
    requires Enabled(s, step) && Known(s, id, work, thread) && (thread == ANY || work.CbWork?)
    ensures !Abandons(s, step, id)
  {
    hide FirstEligible;
  }

  lemma {:induction false} StaysFree(s: State, steps: seq<Step>, id: nat, work: Work, thread: int)
    requires Possible(s, steps) && Known(s, id, work, thread) && (thread == ANY || work.CbWork?) && !Stuck(s, id)
    ensures !Stuck(Run(s, steps), id) && id < Run(s, steps).nextId
    decreases |steps|
  {
    hide Enabled, Next, Stuck, Abandons;
    if steps != [] {
      StuckStep(s, steps[0], id);
      NotAbandoned(s, steps[0], id, work, thread);
      KnownStep(s, steps[0], id, work, thread);
      StaysFree(Next(s, steps[0]), steps[1..], id, work, thread);
    }
  }

  lemma {:induction false} RunSplit(s: State, a: seq<Step>, b: seq<Step>)
    requires Possible(s, a + b)
    ensures Possible(s, a) && Possible(Run(s, a), b) && Run(s, a + b) == Run(Run(s, a), b)
    decreases |a|
  {
    hide Enabled, Next;
    if a == [] {
      assert a + b == b;
    } else {
      assert (a + b)[1..] == a[1..] + b;
      RunSplit(Next(s, a[0]), a[1..], b);
    }
  }

  /** The step schedules a task that is unpinned, or a callback for a worker that has not left. */
  predicate Schedules(s: State, step: Step) {
    && (step.ScheduleOutside? || step.ScheduleInside?)
    && (step.thread == ANY || (step.work.CbWork? && Live(s, step.thread)))
  }

  lemma ScheduledFree(s: State, step: Step)
    requires Inv(s) && Enabled(s, step) && Schedules(s, step)
    ensures Known(Next(s, step), s.nextId, step.work, step.thread) && !Stuck(Next(s, step), s.nextId)
  {
    hide ExecRight, PinsKept, StopRight, NothingStranded, CountRight;
    StuckStep(s, step, s.nextId);
    forall i | 0 <= i < |s.queue|
      ensures s.queue[i].id < s.nextId
    {
      QueuedAt(s.queue, i);
    }
  }

  /**
   A task that was scheduled unpinned, or a callback that was pinned to a worker that had not
   left, is finished once the last worker has gone, whatever else happens in the run.
   */
  lemma AlwaysFinishes(s0: State, before: seq<Step>, step: Step, after: seq<Step>)
    requires Initial(s0) && Possible(s0, before + ([step] + after))
    requires Possible(s0, before) && Schedules(Run(s0, before), step)
    requires forall t :: !Live(Run(s0, before + ([step] + after)), t)
    ensures Run(s0, before).nextId in Run(s0, before + ([step] + after)).done
  {
    var s, end := Run(s0, before), Run(s0, before + ([step] + after));
    RunSplit(s0, before, [step] + after);
    assert ([step] + after)[1..] == after;
    assert Possible(Next(s, step), after) && end == Run(Next(s, step), after);
    hide Possible, Run, Live, Stuck, Known, Next, Queued;
    AllWorkersGone(s0, before + ([step] + after));
    assert Inv(s) by {
      InitialInv(s0);
      RunKeeps(s0, before);
    }
    ScheduledFree(s, step);
    StaysFree(Next(s, step), after, s.nextId, step.work, step.thread);
    LeftIsStuck(end, s.nextId);
  }

  // ---------- A task left behind ----------

  lemma OneHasTask() returns (steps: seq<Step>, s: State)
    ensures Reached(FIRST, steps, s)
    ensures s == Two([], Picked(Task(0, FiberWork(0), ANY)), false, Scanning, false, map[0 := INIT], 1, false, 1, {})
  {
    hide Reached;
    NoSteps(FIRST);
    steps, s := Continue(FIRST, [], FIRST, ScheduleOutside(FiberWork(0), ANY));
    steps, s := Continue(FIRST, steps, s, Scan(1));
  }

  /** Fiber 0 is scheduled before stop() and run by worker 1; worker 2 is idle. */
  lemma OneRuns() returns (steps: seq<Step>, s: State)
    ensures Reached(FIRST, steps, s)
    ensures s == Two([], Running(Task(0, FiberWork(0), ANY), 0), false, Idling, false, map[0 := EXEC], 1, true, 1, {})
  {
    hide Reached;
    steps, s := OneHasTask();
    steps, s := Continue(FIRST, steps, s, SwapIn(1, 0));
    steps, s := Continue(FIRST, steps, s, Scan(2));
    steps, s := Continue(FIRST, steps, s, SetAutoStop);
    steps, s := Continue(FIRST, steps, s, SetStopping);
  }

  /** The fiber yields; in the gap before it is queued again, worker 2's idle fiber ends. Then worker 2 runs it. */
  lemma OneIdleEnded() returns (steps: seq<Step>, s: State)
    ensures Reached(FIRST, steps, s)
    ensures s == Two([], Scanning, false, Running(Task(1, FiberWork(0), ANY), 0), true, map[0 := EXEC], 1, true, 2, {0})
  {
    hide Reached;
    steps, s := OneRuns();
    steps, s := Continue(FIRST, steps, s, SliceEnd(1, READY));
    steps, s := Continue(FIRST, steps, s, IdleReturn(2, true));
    steps, s := Continue(FIRST, steps, s, Requeue(1));
    steps, s := Continue(FIRST, steps, s, Scan(2));
    steps, s := Continue(FIRST, steps, s, SwapIn(2, 0));
  }

  /** It yields again, and in the gap the idle fiber of worker 1 ends too. */
  lemma BothIdleEnded() returns (steps: seq<Step>, s: State)
    ensures Reached(FIRST, steps, s)
    ensures s == Two([], Scanning, true, Back(Task(1, FiberWork(0), ANY), 0), true, map[0 := READY], 0, true, 2, {0})
  {
    hide Reached;
    steps, s := OneIdleEnded();
    steps, s := Continue(FIRST, steps, s, Scan(1));
    steps, s := Continue(FIRST, steps, s, SliceEnd(2, READY));
    steps, s := Continue(FIRST, steps, s, IdleReturn(1, true));
  }

  /** Worker 1 leaves in the gap. */
  lemma OneGone() returns (steps: seq<Step>, s: State)
    ensures Reached(FIRST, steps, s)
    ensures s == Two([], Exited, true, Back(Task(1, FiberWork(0), ANY), 0), true, map[0 := READY], 0, true, 2, {0})
  {
    hide Reached;
    steps, s := BothIdleEnded();
    steps, s := Continue(FIRST, steps, s, Scan(1));
  }

  /** The fiber goes on and schedules a callback for thread 1, which has left. */
  lemma PinnedToGone() returns (steps: seq<Step>, s: State)
    ensures Reached(FIRST, steps, s)
    ensures s == Two([Task(3, CbWork(0), 1)], Exited, true, Running(Task(2, FiberWork(0), ANY), 0), true,
                     map[0 := EXEC], 1, true, 4, {0, 1})
  {
    hide Reached;
    steps, s := OneGone();
    steps, s := Continue(FIRST, steps, s, Requeue(2));
    steps, s := Continue(FIRST, steps, s, Scan(2));
    steps, s := Continue(FIRST, steps, s, SwapIn(2, 0));
    steps, s := Continue(FIRST, steps, s, ScheduleInside(2, CbWork(0), 1));
  }

  /** A pinned task can be left behind: worker 2 finds nothing it may take and leaves too. */
  lemma PinnedLeftBehind()
    ensures Initial(FIRST)
    ensures exists steps, s :: Reached(FIRST, steps, s) && (forall t :: !Live(s, t)) && s.queue == [Task(3, CbWork(0), 1)]
  {
    assert At(FIRST, 1);
    hide Reached;
    var steps, s := PinnedToGone();
    steps, s := Continue(FIRST, steps, s, SliceEnd(2, TERM));
    steps, s := Continue(FIRST, steps, s, Scan(2));
  }

  /** The fiber asks to go on at thread 1, which is still there but cannot take it while it runs. */
  lemma SwitchedToOne() returns (steps: seq<Step>, s: State)
    ensures Reached(FIRST, steps, s)
    ensures s == Two([Task(3, FiberWork(0), 1)], Scanning, true, Running(Task(2, FiberWork(0), ANY), 0), true,
                     map[0 := EXEC], 1, true, 4, {0, 1})
  {
    hide Reached;
    steps, s := BothIdleEnded();
    steps, s := Continue(FIRST, steps, s, Requeue(2));
    steps, s := Continue(FIRST, steps, s, Scan(2));
    steps, s := Continue(FIRST, steps, s, SwapIn(2, 0));
    steps, s := Continue(FIRST, steps, s, ScheduleInside(2, FiberWork(0), 1));
  }

  lemma OneIneligible(queue: seq<Task>, t: int, fibers: map<nat, FiberState>)
    requires |queue| == 1 && !Eligible(queue[0], t, fibers)
    ensures FirstEligible(queue, t, fibers) == 1
  {
    hide Eligible;
  }

  lemma OneLeaves(s: State, p2: Pc)
    requires s == Two(s.queue, Scanning, true, p2, true, s.fibers, s.active, s.stopping, s.nextId, s.done)
    requires |s.queue| == 1 && !Eligible(s.queue[0], 1, s.fibers)
    ensures Enabled(s, Scan(1))
    ensures AfterScan(s, 1) == Two(s.queue, Exited, true, p2, true, s.fibers, s.active, s.stopping, s.nextId, s.done)
  {
    OneIneligible(s.queue, 1, s.fibers);
    hide FirstEligible, Eligible;
  }

  lemma OnePassesOver() returns (steps: seq<Step>, s: State)
    ensures Reached(FIRST, steps, s)
    ensures s == Two([Task(3, FiberWork(0), 1)], Exited, true, Running(Task(2, FiberWork(0), ANY), 0), true,
                     map[0 := EXEC], 1, true, 4, {0, 1})
  {
    hide Reached;
    steps, s := SwitchedToOne();
    OneLeaves(s, Running(Task(2, FiberWork(0), ANY), 0));
    hide AfterScan, Two;
    steps, s := Continue(FIRST, steps, s, Scan(1));
  }

  lemma OneMissed() returns (steps: seq<Step>, s: State)
    ensures Reached(FIRST, steps, s)
    ensures s == Two([Task(3, FiberWork(0), 1)], Exited, true, Scanning, true, map[0 := HOLD], 0, true, 4, {0, 1, 2})
  {
    hide Reached, FirstEligible;
    steps, s := OnePassesOver();
    steps, s := Continue(FIRST, steps, s, SliceEnd(2, HOLD));
  }

  /** The other way: worker 1 makes its last scan before the fiber has parked, and both leave. */
  lemma RunningLeftBehind()
    ensures exists steps, s :: Reached(FIRST, steps, s) && (forall t :: !Live(s, t)) && s.queue == [Task(3, FiberWork(0), 1)]
  {
    hide Reached;
    var steps, s := OneMissed();
    OneIneligible(s.queue, 2, s.fibers);
    hide FirstEligible, Eligible;
    steps, s := Continue(FIRST, steps, s, Scan(2));
  }
}
