/**
 One fiber and several workers: when Fiber::SwapIn can find its fiber running, and how the
 users of the scheduler keep that from happening.
 */
module SchedulerFibers {
  import opened SchedulerModel
  import opened SchedulerLaws

  // ---------- Who is going to run a fiber ----------

  ghost predicate InQueue(queue: seq<Task>, f: nat) {
    exists i :: QueuedAs(queue, i, f)
  }

  predicate QueuedAs(queue: seq<Task>, i: int, f: nat) {
    0 <= i < |queue| && queue[i].work == FiberWork(f)
  }

  /** Worker t has picked the fiber, or has it back and will queue it again. */
  predicate InHand(s: State, t: int, f: nat) {
    && t in s.workers
    && ((s.workers[t].pc.Picked? && s.workers[t].pc.task.work == FiberWork(f))
        || (s.workers[t].pc.Back? && s.workers[t].pc.fiber == f))
  }

  ghost predicate Claimed(s: State, f: nat) {
    InQueue(s.queue, f) || exists t :: InHand(s, t, f)
  }

  /** Every fiber is claimed at most once, and one that is picked is not running. */
  ghost predicate ClaimsRight(s: State) {
    && (forall i, j, f :: QueuedAs(s.queue, i, f) && QueuedAs(s.queue, j, f) ==> i == j)
    && (forall t, f :: InHand(s, t, f) ==> !InQueue(s.queue, f))
    && (forall t, u, f :: InHand(s, t, f) && InHand(s, u, f) ==> t == u)
    && (forall t, f :: InHand(s, t, f) && s.workers[t].pc.Picked? ==> !Executing(s.fibers, FiberWork(f)))
  }

  /**
   A fiber is scheduled, or yields to be queued again, only while nobody else is going to run
   it; and callbacks run in fibers of their own. A fiber may be scheduled while it is running,
   as happens when an event comes before its fiber has parked.
   */
  ghost predicate Orderly(s: State, step: Step)
    requires Callable(s, step)
  {
    match step
    case ScheduleOutside(work, _) => work.FiberWork? ==> !Claimed(s, work.fiber)
    case ScheduleInside(_, work, _) => work.FiberWork? ==> !Claimed(s, work.fiber)
    case SliceEnd(t, st) => st == READY ==> !Claimed(s, s.workers[t].pc.fiber)
    case SwapIn(t, f) => s.workers[t].pc.task.work.CbWork? ==> !Claimed(s, f)
    case _ => true
  }

  // ---------- What orderly steps keep ----------

  lemma QueuedPush(queue: seq<Task>, task: Task, f: nat)
    ensures InQueue(queue + [task], f) <==> InQueue(queue, f) || task.work == FiberWork(f)
  {
    var q := queue + [task];
    if i :| QueuedAs(queue, i, f) {
      assert QueuedAs(q, i, f);
    }
    if task.work == FiberWork(f) {
      assert QueuedAs(q, |queue|, f);
    }
    if i :| QueuedAs(q, i, f) {
      assert i < |queue| ==> QueuedAs(queue, i, f);
    }
  }

  lemma ClaimsPush(s: State, work: Work, thread: int)
    requires ClaimsRight(s) && (work.FiberWork? ==> !Claimed(s, work.fiber))
    ensures ClaimsRight(Push(s, work, thread))
  {
    var task, s' := Task(s.nextId, work, thread), Push(s, work, thread);
    assert forall i, f :: QueuedAs(s'.queue, i, f) ==> QueuedAs(s.queue, i, f) || (i == |s.queue| && work == FiberWork(f));
    forall t, f | InHand(s', t, f)
      ensures !InQueue(s'.queue, f)
      ensures s'.workers[t].pc.Picked? ==> !Executing(s'.fibers, FiberWork(f))
    {
      assert InHand(s, t, f);
      QueuedPush(s.queue, task, f);
    }
    assert forall t, f :: InHand(s', t, f) <==> InHand(s, t, f);
  }

  lemma ClaimsPick(s: State, t: int, i: nat)
    requires ClaimsRight(s) && t in s.workers && s.workers[t].pc.Scanning? && i < |s.queue|
    requires !Executing(s.fibers, s.queue[i].work)
    ensures ClaimsRight(s.(queue := Without(s.queue, i), workers := Moved(s, t, Picked(s.queue[i]))))
  {
    var s' := s.(queue := Without(s.queue, i), workers := Moved(s, t, Picked(s.queue[i])));
    var q := s'.queue;
    assert forall k :: 0 <= k < |q| ==> q[k] == s.queue[if k < i then k else k + 1];
    assert forall k, f :: QueuedAs(q, k, f) ==> QueuedAs(s.queue, if k < i then k else k + 1, f);
    assert forall f :: InQueue(q, f) ==> InQueue(s.queue, f);
    assert forall u, f :: InHand(s', u, f) ==> InHand(s, u, f) || (u == t && QueuedAs(s.queue, i, f));
    forall u, f | InHand(s', u, f)
      ensures !InQueue(q, f)
    {
      if k :| QueuedAs(q, k, f) {
        assert QueuedAs(s.queue, if k < i then k else k + 1, f);
      }
    }
  }

  /** A step that leaves the queue alone and only gives hands back. */
  lemma ClaimsLess(s: State, s': State)
    requires ClaimsRight(s) && s'.queue == s.queue
    requires forall t, f :: InHand(s', t, f) ==> InHand(s, t, f) && s'.workers[t] == s.workers[t]
    requires forall f: nat :: (exists t :: InHand(s', t, f)) && Executing(s'.fibers, FiberWork(f)) ==> Executing(s.fibers, FiberWork(f))
    ensures ClaimsRight(s')
  {
  }

  lemma ClaimsStep(s: State, step: Step)
    requires Enabled(s, step) && ClaimsRight(s) && Orderly(s, step)
    ensures ClaimsRight(Next(s, step))
  {
    hide ClaimsRight, FirstEligible, Without;
    var s' := Next(s, step);
    match step
    case ScheduleOutside(work, thread) => ClaimsPush(s, work, thread);
    case ScheduleInside(_, work, thread) => ClaimsPush(s, work, thread);
    case Scan(t) =>
      var i := FirstEligible(s.queue, t, s.fibers);
      if i < |s.queue| {
        ClaimsPick(s, t, i);
        ClaimsLess(s.(queue := Without(s.queue, i), workers := Moved(s, t, Picked(s.queue[i]))), s');
      } else {
        ClaimsLess(s, s');
      }
    case SwapIn(t, f) => ClaimsSwapIn(s, t, f);
    case SliceEnd(t, st) => ClaimsSliceEnd(s, t, st);
    case Requeue(t) => ClaimsRequeue(s, t);
    case _ => ClaimsLess(s, s');
  }

  lemma ClaimsSwapIn(s: State, t: int, f: nat)
    requires Enabled(s, SwapIn(t, f)) && ClaimsRight(s) && Orderly(s, SwapIn(t, f))
    ensures ClaimsRight(AfterSwapIn(s, t, f))
  {
    var s' := AfterSwapIn(s, t, f);
    assert forall u, g :: InHand(s', u, g) ==> InHand(s, u, g) && u != t;
    if s.workers[t].pc.task.work.FiberWork? {
      assert InHand(s, t, f);
    }
    assert forall u :: !InHand(s', u, f);
    ClaimsLess(s, s');
  }

  lemma ClaimsSliceEnd(s: State, t: int, st: FiberState)
    requires Enabled(s, SliceEnd(t, st)) && ClaimsRight(s) && Orderly(s, SliceEnd(t, st))
    ensures ClaimsRight(AfterSlice(s, t, st))
  {
    var s' := AfterSlice(s, t, st);
    var f := s.workers[t].pc.fiber;
    assert forall u, g :: InHand(s', u, g) ==> InHand(s, u, g) || (u == t && g == f && st == READY);
  }

  lemma ClaimsRequeue(s: State, t: int)
    requires Enabled(s, Requeue(t)) && ClaimsRight(s)
    ensures ClaimsRight(AfterRequeue(s, t))
  {
    var f := s.workers[t].pc.fiber;
    assert InHand(s, t, f);
    var s1 := s.(workers := Moved(s, t, Scanning));
    assert forall u, g :: InHand(s1, u, g) ==> InHand(s, u, g) && u != t;
    ClaimsLess(s, s1);
    ClaimsPush(s1, FiberWork(f), ANY);
    ClaimsLess(Push(s1, FiberWork(f), ANY), AfterRequeue(s, t));
  }

  // ---------- Orderly runs ----------

  ghost predicate OrderlyRun(s: State, steps: seq<Step>)
    requires Possible(s, steps)
    decreases |steps|
  {
    steps != [] ==> Orderly(s, steps[0]) && OrderlyRun(Next(s, steps[0]), steps[1..])
  }

  lemma {:induction false} ClaimsRun(s: State, steps: seq<Step>)
    requires ClaimsRight(s) && Possible(s, steps) && OrderlyRun(s, steps)
    ensures ClaimsRight(Run(s, steps))
    decreases |steps|
  {
    hide ClaimsRight, Enabled, Orderly, Next;
    if steps != [] {
      assert Callable(s, steps[0]) by { EnabledIs(s, steps[0]); }
      ClaimsStep(s, steps[0]);
      ClaimsRun(Next(s, steps[0]), steps[1..]);
    }
  }

  lemma EnabledIs(s: State, step: Step)
    ensures Enabled(s, step) ==> Callable(s, step)
  {
  }

  /** After an orderly run no step that can be tried ends the program. */
  lemma OrderlyNeverAborts(s0: State, steps: seq<Step>, step: Step)
    requires Initial(s0) && Possible(s0, steps) && OrderlyRun(s0, steps) && Callable(Run(s0, steps), step)
    ensures Take(Run(s0, steps), step).Done?
  {
    assert ClaimsRight(s0);
    ClaimsRun(s0, steps);
    hide Possible, Run, OrderlyRun;
    if step.SwapIn? {
      assert Run(s0, steps).workers[step.t].pc.task.work.FiberWork? ==> InHand(Run(s0, steps), step.t, step.fiber);
    }
  }

  // ---------- A simpler rule ----------

  /** No fiber is scheduled while it is queued, in a hand, or running. */
  ghost predicate Calm(s: State, step: Step)
    requires Callable(s, step)
  {
    match step
    case ScheduleOutside(work, _) => work.FiberWork? ==> Unused(s, work.fiber)
    case ScheduleInside(_, work, _) => work.FiberWork? ==> Unused(s, work.fiber)
    case SwapIn(t, f) => s.workers[t].pc.task.work.CbWork? ==> !Claimed(s, f)
    case _ => true
  }

  ghost predicate Unused(s: State, f: nat) {
    !Claimed(s, f) && forall t :: !Runs(s, t, f)
  }

  ghost predicate CalmRight(s: State) {
    ClaimsRight(s) && ExecRight(s) && forall t, f :: Runs(s, t, f) ==> !Claimed(s, f)
  }

  lemma CalmIsOrderly(s: State, step: Step)
    requires CalmRight(s) && Callable(s, step) && Calm(s, step)
    ensures Orderly(s, step)
  {
    if step.SliceEnd? {
      assert Runs(s, step.t, s.workers[step.t].pc.fiber);
    }
  }

  /** Only scheduling, taking and giving back change who claims a fiber. */
  lemma ClaimedAfter(s: State, step: Step, f: nat)
    requires Enabled(s, step) && Claimed(Next(s, step), f)
    ensures || Claimed(s, f)
            || ((step.ScheduleOutside? || step.ScheduleInside?) && step.work == FiberWork(f))
            || (step.SliceEnd? && step.st == READY && s.workers[step.t].pc.fiber == f)
  {
    hide FirstEligible;
    var s' := Next(s, step);
    if t :| InHand(s', t, f) {
      if !InHand(s, t, f) && step.Scan? {
        assert QueuedAs(s.queue, FirstEligible(s.queue, step.t, s.fibers), f);
      }
    } else {
      ClaimedInQueue(s, step, f);
    }
  }

  lemma ClaimedInQueue(s: State, step: Step, f: nat)
    requires Enabled(s, step) && InQueue(Next(s, step).queue, f)
    ensures Claimed(s, f) || ((step.ScheduleOutside? || step.ScheduleInside?) && step.work == FiberWork(f))
  {
    hide FirstEligible, BusySet;
    var i :| QueuedAs(Next(s, step).queue, i, f);
    if step.Scan? {
      var k := FirstEligible(s.queue, step.t, s.fibers);
      assert QueuedAs(s.queue, if k < |s.queue| && i >= k then i + 1 else i, f);
    } else {
      assert i < |s.queue| ==> QueuedAs(s.queue, i, f);
      if step.Requeue? {
        assert InHand(s, step.t, s.workers[step.t].pc.fiber);
      }
    }
  }

  /** A fiber that has been swapped in is not claimed any more. */
  lemma SwappedIn(s: State, t: int, f: nat)
    requires Enabled(s, SwapIn(t, f)) && ClaimsRight(s) && Orderly(s, SwapIn(t, f))
    ensures !Claimed(AfterSwapIn(s, t, f), f)
  {
    var s' := AfterSwapIn(s, t, f);
    if s.workers[t].pc.task.work.FiberWork? {
      assert InHand(s, t, f);
    }
    assert forall u :: InHand(s', u, f) ==> InHand(s, u, f) && u != t;
  }

  lemma CalmStep(s: State, step: Step)
    requires Enabled(s, step) && CalmRight(s) && Calm(s, step)
    ensures CalmRight(Next(s, step))
  {
    hide FirstEligible, Without, ExecRight, ClaimsRight, Claimed;
    CalmIsOrderly(s, step);
    ClaimsStep(s, step);
    ExecKeeps(s, step);
    var s' := Next(s, step);
    assert step.SliceEnd? ==> Runs(s, step.t, s.workers[step.t].pc.fiber);
    forall t, f | Runs(s', t, f)
      ensures !Claimed(s', f)
    {
      if Runs(s, t, f) {
        if Claimed(s', f) {
          ClaimedAfter(s, step, f);
          RunsOnce(s, t, f);
        }
      } else {
        SwappedIn(s, t, f);
      }
    }
  }

  lemma RunsOnce(s: State, t: int, f: nat)
    requires ExecRight(s) && Runs(s, t, f)
    ensures forall u :: Runs(s, u, f) ==> u == t
  {
  }

  ghost predicate CalmRun(s: State, steps: seq<Step>)
    requires Possible(s, steps)
    decreases |steps|
  {
    steps != [] ==> Calm(s, steps[0]) && CalmRun(Next(s, steps[0]), steps[1..])
  }

  lemma {:induction false} CalmRunIsOrderly(s: State, steps: seq<Step>)
    requires CalmRight(s) && Possible(s, steps) && CalmRun(s, steps)
    ensures OrderlyRun(s, steps)
    decreases |steps|
  {
    hide CalmRight, Enabled, Orderly, Calm, Next;
    if steps != [] {
      assert Callable(s, steps[0]) by { EnabledIs(s, steps[0]); }
      CalmIsOrderly(s, steps[0]);
      CalmStep(s, steps[0]);
      CalmRunIsOrderly(Next(s, steps[0]), steps[1..]);
    }
  }

  /** If no fiber is ever scheduled while it is in use, no step ends the program. */
  lemma CalmNeverAborts(s0: State, steps: seq<Step>, step: Step)
    requires Initial(s0) && Possible(s0, steps) && CalmRun(s0, steps) && Callable(Run(s0, steps), step)
    ensures Take(Run(s0, steps), step).Done?
  {
    assert CalmRight(s0);
    hide Initial, Possible, Run, CalmRun, OrderlyRun, CalmRight;
    CalmRunIsOrderly(s0, steps);
    OrderlyNeverAborts(s0, steps, step);
  }

  // ---------- A fiber scheduled twice ----------

  lemma PickedTwice() returns (steps: seq<Step>, s: State)
    ensures Reached(FIRST, steps, s)
    ensures s == Two([], Picked(Task(0, FiberWork(0), ANY)), false, Picked(Task(1, FiberWork(0), ANY)), false,
                     map[0 := INIT], 2, false, 2, {})
  {
    hide Reached;
    NoSteps(FIRST);
    steps, s := Continue(FIRST, [], FIRST, ScheduleOutside(FiberWork(0), ANY));
    steps, s := Continue(FIRST, steps, s, ScheduleOutside(FiberWork(0), ANY));
    steps, s := Continue(FIRST, steps, s, Scan(1));
    steps, s := Continue(FIRST, steps, s, Scan(2));
  }

  /** Scheduled twice, fiber 0 is picked by two workers; the second to swap it in aborts. */
  lemma ScheduledTwice()
    ensures Initial(FIRST)
    ensures exists steps, s :: Reached(FIRST, steps, s) && Callable(s, SwapIn(2, 0)) && Take(s, SwapIn(2, 0)) == AbortExec
  {
    assert At(FIRST, 1);
    hide Reached;
    var steps, s := PickedTwice();
    steps, s := Continue(FIRST, steps, s, SwapIn(1, 0));
  }
}
