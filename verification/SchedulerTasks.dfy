/**
 What becomes of a task and of a fiber: a finished task was run, as it was scheduled, oldest
 first; a fiber that yields comes back; and a worker that has not left can always go on.
 */
module SchedulerTasks {
  import opened Wrappers
  import opened SchedulerModel
  import opened SchedulerLaws
  import opened SchedulerPins
  import opened SchedulerFibers

  // ---------- Finishing a task ----------

  /** The fiber has run to its end, or out of it by an exception. */
  predicate Ended(s: State, f: nat) {
    f in s.fibers && s.fibers[f] in {TERM, EXCEPT}
  }

  predicate RunsTask(s: State, t: int, id: nat) {
    t in s.workers && s.workers[t].pc.Running? && s.workers[t].pc.task.id == id
  }

  predicate BringsBack(s: State, t: int, id: nat) {
    t in s.workers && s.workers[t].pc.Back? && s.workers[t].pc.task.id == id
  }

  /** A worker gives up a task without running it: its fiber has ended already. */
  predicate Drops(s: State, step: Step, id: nat) {
    && step.SwapIn? && step.t in s.workers && s.workers[step.t].pc.Picked?
    && var task := s.workers[step.t].pc.task;
    task.id == id && task.work.FiberWork? && Ended(s, task.work.fiber)
  }

  /**
   A task is finished exactly by the end of its slice, by the re-queueing of its fiber, or by
   being dropped because its fiber has ended.
   */
  lemma FinishesExactly(s: State, step: Step, id: nat)
    requires Enabled(s, step)
    ensures id in Next(s, step).done <==>
              || id in s.done
              || (step.SliceEnd? && step.st != READY && RunsTask(s, step.t, id))
              || (step.Requeue? && BringsBack(s, step.t, id))
              || Drops(s, step, id)
  {
    hide FirstEligible, Without;
  }

  /** Swapping in a callback, or a fiber that has not ended, runs it; nothing else changes. */
  lemma SwapInRuns(s: State, t: int, f: nat)
    requires Enabled(s, SwapIn(t, f))
    requires s.workers[t].pc.task.work.CbWork? || !Ended(s, f)
    ensures var s' := Next(s, SwapIn(t, f));
            && t in s'.workers && s'.workers[t] == Worker(Running(s.workers[t].pc.task, f), s.workers[t].idleDone)
            && f in s'.fibers && s'.fibers[f] == EXEC
            && (forall u <- s.workers :: u != t ==> u in s'.workers && s'.workers[u] == s.workers[u])
            && (forall g <- s.fibers :: g != f ==> g in s'.fibers && s'.fibers[g] == s.fibers[g])
            && s'.queue == s.queue && s'.active == s.active && s'.done == s.done && s'.nextId == s.nextId
  {
  }

  // ---------- The life of a fiber ----------

  /** A slice of fiber f ends it. */
  predicate EndsFiber(s: State, step: Step, f: nat) {
    step.SliceEnd? && step.st in {TERM, EXCEPT} && Runs(s, step.t, f)
  }

  /** The step swaps fiber f in: for its own task if it has not ended, or for a callback. */
  predicate SwapsIn(s: State, step: Step, f: nat) {
    && step.SwapIn? && step.fiber == f && step.t in s.workers && s.workers[step.t].pc.Picked?
    && (s.workers[step.t].pc.task.work.CbWork? || !Ended(s, f))
  }

  /**
   A fiber that is not running is in the state its last slice ended with, and stays in it until
   it is swapped in: it is READY, on HOLD or ended exactly if a slice has just ended so, or it
   was so and is not swapped in.
   */
  lemma StateExactly(s: State, step: Step, f: nat, st: FiberState)
    requires Enabled(s, step) && ExecRight(s) && st in {READY, HOLD, TERM, EXCEPT}
    ensures f in Next(s, step).fibers && Next(s, step).fibers[f] == st <==>
              || (step.SliceEnd? && step.st == st && Runs(s, step.t, f))
              || (f in s.fibers && s.fibers[f] == st && !SwapsIn(s, step, f))
  {
    hide FirstEligible, Without;
    if step.SliceEnd? {
      assert Runs(s, step.t, s.workers[step.t].pc.fiber);
    }
  }

  predicate QueuedFree(s: State, i: int, f: nat) {
    QueuedAs(s.queue, i, f) && s.queue[i].thread == ANY
  }

  /** The fiber is queued for any thread, picked, or about to be queued. */
  ghost predicate ComesBack(s: State, f: nat) {
    (exists i :: QueuedFree(s, i, f)) || exists t :: InHand(s, t, f)
  }

  /** A fiber that has yielded comes back. */
  ghost predicate ReadyRight(s: State) {
    forall f <- s.fibers :: s.fibers[f] == READY ==> ComesBack(s, f)
  }

  lemma BackQueued(s: State, s': State, f: nat)
    requires ComesBack(s, f) && |s.queue| <= |s'.queue| && s'.queue[..|s.queue|] == s.queue
    requires forall t :: InHand(s, t, f) ==> InHand(s', t, f) || exists i :: QueuedFree(s', i, f)
    ensures ComesBack(s', f)
  {
    if i :| QueuedFree(s, i, f) {
      assert s'.queue[i] == s'.queue[..|s.queue|][i];
      assert QueuedFree(s', i, f);
    }
  }

  lemma BackPicked(s: State, t: int, f: nat)
    requires Enabled(s, Scan(t)) && ComesBack(s, f)
    ensures ComesBack(AfterScan(s, t), f)
  {
    var s', k := AfterScan(s, t), FirstEligible(s.queue, t, s.fibers);
    hide FirstEligible;
    if i :| QueuedFree(s, i, f) {
      if k == |s.queue| || i < k {
        assert QueuedFree(s', i, f);
      } else if i == k {
        assert InHand(s', t, f);
      } else {
        assert QueuedFree(s', i - 1, f);
      }
    } else {
      var u :| InHand(s, u, f);
      assert InHand(s', u, f);
    }
  }

  lemma ReadyKeeps(s: State, step: Step)
    requires Enabled(s, step) && ReadyRight(s)
    ensures ReadyRight(Next(s, step))
  {
    hide FirstEligible, Without;
    var s' := Next(s, step);
    forall f <- s'.fibers | s'.fibers[f] == READY
      ensures ComesBack(s', f)
    {
      if step.Scan? {
        BackPicked(s, step.t, f);
      } else if step.SliceEnd? && s.workers[step.t].pc.fiber == f {
        assert InHand(s', step.t, f);
      } else {
        assert step.Requeue? && s.workers[step.t].pc.fiber == f ==> QueuedFree(s', |s.queue|, f);
        BackQueued(s, s', f);
      }
    }
  }

  lemma {:induction false} ReadyRun(s: State, steps: seq<Step>)
    requires ReadyRight(s) && Possible(s, steps)
    ensures ReadyRight(Run(s, steps))
    decreases |steps|
  {
    hide ReadyRight, Enabled, Next;
    if steps != [] {
      ReadyKeeps(s, steps[0]);
      ReadyRun(Next(s, steps[0]), steps[1..]);
    }
  }

  /**
   In every run a fiber that has yielded is queued for any thread, picked, or about to be
   queued; so once the last worker has left, no fiber has yielded and not been resumed.
   */
  lemma YieldedComesBack(s0: State, steps: seq<Step>, f: nat)
    requires Initial(s0) && Possible(s0, steps)
    requires f in Run(s0, steps).fibers && Run(s0, steps).fibers[f] == READY
    ensures ComesBack(Run(s0, steps), f)
    ensures exists t :: Live(Run(s0, steps), t)
  {
    ReadyRun(s0, steps);
    hide Possible, Run, Live;
    var s := Run(s0, steps);
    if forall t :: !Live(s, t) {
      AllWorkersGone(s0, steps);
      if i :| QueuedFree(s, i, f) {
      } else {
        var t :| InHand(s, t, f);
        HandLives(s, t, f);
      }
    }
  }

  lemma HandLives(s: State, t: int, f: nat)
    requires InHand(s, t, f)
    ensures Live(s, t)
  {
  }

  // ---------- Finished tasks were run ----------

  /** At some point of the run a worker is running task id. */
  ghost predicate EverRunning(s: State, steps: seq<Step>, id: nat)
    requires Possible(s, steps)
    decreases |steps|
  {
    (exists t :: RunsTask(s, t, id)) || (steps != [] && EverRunning(Next(s, steps[0]), steps[1..], id))
  }

  /** At some point of the run task id is dropped, its fiber having ended. */
  ghost predicate EverDropped(s: State, steps: seq<Step>, id: nat)
    requires Possible(s, steps)
    decreases |steps|
  {
    steps != [] && (Drops(s, steps[0], id) || EverDropped(Next(s, steps[0]), steps[1..], id))
  }

  /** What is finished or brought back after a step was so before, was running, or is dropped. */
  lemma CameFrom(s: State, step: Step, id: nat)
    requires Enabled(s, step) && (id in Next(s, step).done || exists t :: BringsBack(Next(s, step), t, id))
    ensures id in s.done || (exists t :: BringsBack(s, t, id)) || (exists t :: RunsTask(s, t, id)) || Drops(s, step, id)
  {
    hide FirstEligible, Without, Drops;
    FinishesExactly(s, step, id);
    if t :| BringsBack(Next(s, step), t, id) {
      assert BringsBack(s, t, id) || RunsTask(s, t, id);
    }
  }

  lemma {:induction false} RunningRun(s: State, steps: seq<Step>, id: nat)
    requires Possible(s, steps) && id in Run(s, steps).done
    ensures id in s.done || (exists t :: BringsBack(s, t, id)) || EverRunning(s, steps, id) || EverDropped(s, steps, id)
    decreases |steps|
  {
    hide Enabled, Next, Drops;
    if steps != [] {
      RunningRun(Next(s, steps[0]), steps[1..], id);
      if id in Next(s, steps[0]).done || exists t :: BringsBack(Next(s, steps[0]), t, id) {
        CameFrom(s, steps[0], id);
      }
    }
  }

  /** In every run each finished task, re-queued fibers included, was run, or its fiber had ended before. */
  lemma DoneWasRunning(s0: State, steps: seq<Step>, id: nat)
    requires Initial(s0) && Possible(s0, steps) && id in Run(s0, steps).done
    ensures EverRunning(s0, steps, id) || EverDropped(s0, steps, id)
  {
    RunningRun(s0, steps, id);
  }

  // ---------- A task is run as it was scheduled ----------

  /** Worker t is running the task: in its own fiber if it has one, and where it is pinned to. */
  predicate RunsAs(s: State, t: int, task: Task) {
    && t in s.workers && s.workers[t].pc.Running? && s.workers[t].pc.task == task
    && (task.work.FiberWork? ==> s.workers[t].pc.fiber == task.work.fiber)
    && (task.thread == ANY || task.thread == t)
  }

  /** At some point of the run a worker runs the task. */
  ghost predicate EverRuns(s: State, steps: seq<Step>, task: Task)
    requires Possible(s, steps)
    decreases |steps|
  {
    (exists t :: RunsAs(s, t, task)) || (steps != [] && EverRuns(Next(s, steps[0]), steps[1..], task))
  }

  /** Wherever the task is, it is as it was scheduled. */
  ghost predicate Intact(s: State, task: Task) {
    && Known(s, task.id, task.work, task.thread)
    && (forall t :: Holds(s.workers, t, task.id) ==>
          && Hand(s.workers[t].pc) == Some(task) && (task.thread == ANY || task.thread == t)
          && (s.workers[t].pc.Running? && task.work.FiberWork? ==> s.workers[t].pc.fiber == task.work.fiber))
  }

  lemma IntactStep(s: State, step: Step, task: Task)
    requires Enabled(s, step) && Intact(s, task)
    ensures Intact(Next(s, step), task)
  {
    hide FirstEligible;
    KnownStep(s, step, task.id, task.work, task.thread);
  }

  lemma RunsIntact(s: State, task: Task)
    requires Intact(s, task)
    ensures (exists t :: RunsTask(s, t, task.id)) ==> exists t :: RunsAs(s, t, task)
  {
    hide Known;
    if t :| RunsTask(s, t, task.id) {
      assert Holds(s.workers, t, task.id);
      assert RunsAs(s, t, task);
    }
  }

  lemma {:induction false} RunIntact(s: State, steps: seq<Step>, task: Task)
    requires Possible(s, steps) && Intact(s, task) && EverRunning(s, steps, task.id)
    ensures EverRuns(s, steps, task)
    decreases |steps|
  {
    hide Enabled, Next, Intact;
    RunsIntact(s, task);
    if steps != [] {
      IntactStep(s, steps[0], task);
      if !exists t :: RunsTask(s, t, task.id) {
        RunIntact(Next(s, steps[0]), steps[1..], task);
      }
    }
  }

  lemma ScheduledIntact(s: State, step: Step)
    requires Inv(s) && Enabled(s, step) && (step.ScheduleOutside? || step.ScheduleInside?)
    ensures var s' := Next(s, step);
            && Intact(s', Task(s.nextId, step.work, step.thread))
            && s.nextId !in s'.done && (forall t :: !BringsBack(s', t, s.nextId))
  {
    hide ExecRight, PinsKept, StopRight, NothingStranded, CountRight;
    var s' := Next(s, step);
    forall i | 0 <= i < |s.queue|
      ensures s.queue[i].id < s.nextId
    {
      QueuedAt(s.queue, i);
    }
    forall t
      ensures !Holds(s'.workers, t, s.nextId) && !BringsBack(s', t, s.nextId)
    {
      assert !Holds(s.workers, t, s.nextId);
    }
  }

  /**
   In every run: a task that is finished was run as it was scheduled, by a worker its pin
   allows and in its own fiber if it has one, or its fiber had ended before.
   */
  lemma FinishedWasRun(s0: State, before: seq<Step>, step: Step, after: seq<Step>)
    requires Initial(s0) && Possible(s0, before) && Enabled(Run(s0, before), step)
    requires Possible(Next(Run(s0, before), step), after)
    requires step.ScheduleOutside? || step.ScheduleInside?
    requires Run(s0, before).nextId in Run(Next(Run(s0, before), step), after).done
    ensures var s := Run(s0, before);
            || EverRuns(Next(s, step), after, Task(s.nextId, step.work, step.thread))
            || (step.work.FiberWork? && EverDropped(Next(s, step), after, s.nextId))
  {
    var s := Run(s0, before);
    hide Possible, Run, Initial, Enabled, Next, EverRuns, EverRunning, EverDropped, Inv;
    InitialInv(s0);
    RunKeeps(s0, before);
    ScheduledIntact(s, step);
    var task := Task(s.nextId, step.work, step.thread);
    RunningRun(Next(s, step), after, s.nextId);
    if EverRunning(Next(s, step), after, s.nextId) {
      RunIntact(Next(s, step), after, task);
    }
    if step.work.CbWork? {
      NotDropped(Next(s, step), after, task);
    }
  }

  lemma {:induction false} NotDropped(s: State, steps: seq<Step>, task: Task)
    requires Possible(s, steps) && Intact(s, task) && task.work.CbWork?
    ensures !EverDropped(s, steps, task.id)
    decreases |steps|
  {
    hide Enabled, Next, Known;
    if steps != [] {
      IntactStep(s, steps[0], task);
      assert Drops(s, steps[0], task.id) ==> Holds(s.workers, steps[0].t, task.id);
      NotDropped(Next(s, steps[0]), steps[1..], task);
    }
  }

  /**
   A callback that is scheduled for any thread, or for a worker that has not left, is run by
   the time the last worker has left, whatever else happens.
   */
  lemma CallbacksRun(s0: State, before: seq<Step>, step: Step, after: seq<Step>)
    requires Initial(s0) && Possible(s0, before + ([step] + after)) && Possible(s0, before)
    requires Schedules(Run(s0, before), step) && step.work.CbWork?
    requires forall t :: !Live(Run(s0, before + ([step] + after)), t)
    ensures Enabled(Run(s0, before), step) && Possible(Next(Run(s0, before), step), after)
    ensures EverRuns(Next(Run(s0, before), step), after, Task(Run(s0, before).nextId, step.work, step.thread))
  {
    var s := Run(s0, before);
    AlwaysFinishes(s0, before, step, after);
    RunSplit(s0, before, [step] + after);
    assert ([step] + after)[1..] == after;
    assert Possible(s, [step] + after) && Run(s, [step] + after) == Run(Next(s, step), after);
    hide Possible, Run, Live, Next, EverRuns, EverDropped;
    FinishedWasRun(s0, before, step, after);
  }

  /** A slice ends the fiber at some point of the run. */
  ghost predicate EverEnds(s: State, steps: seq<Step>, f: nat)
    requires Possible(s, steps)
    decreases |steps|
  {
    steps != [] && (EndsFiber(s, steps[0], f) || EverEnds(Next(s, steps[0]), steps[1..], f))
  }

  lemma {:induction false} EndedRun(s: State, steps: seq<Step>, f: nat)
    requires Inv(s) && Possible(s, steps) && Ended(Run(s, steps), f)
    ensures Ended(s, f) || EverEnds(s, steps, f)
    decreases |steps|
  {
    hide Enabled, Next, Inv, Ended, EndsFiber;
    if steps != [] {
      StepInv(s, steps[0]);
      EndedRun(Next(s, steps[0]), steps[1..], f);
      assert ExecRight(s) by { InvExec(s); }
      if Ended(Next(s, steps[0]), f) {
        EndedStep(s, steps[0], f);
      }
    }
  }

  lemma EndedStep(s: State, step: Step, f: nat)
    requires Enabled(s, step) && ExecRight(s) && Ended(Next(s, step), f)
    ensures Ended(s, f) || EndsFiber(s, step, f)
  {
    hide Next, Enabled, ExecRight;
    StateExactly(s, step, f, TERM);
    StateExactly(s, step, f, EXCEPT);
  }

  lemma InvExec(s: State)
    requires Inv(s)
    ensures ExecRight(s)
  {
  }

  /** No fiber is found ended in a run unless one of its own slices ended it. */
  lemma EndedByItsSlice(s0: State, steps: seq<Step>, f: nat)
    requires Initial(s0) && Possible(s0, steps) && Ended(Run(s0, steps), f)
    ensures EverEnds(s0, steps, f)
  {
    InitialInv(s0);
    EndedRun(s0, steps, f);
  }

  // ---------- Oldest first ----------

  /** The queue holds its tasks in the order in which they were accepted. */
  ghost predicate InOrder(s: State) {
    && (forall i, j :: 0 <= i < j < |s.queue| ==> s.queue[i].id < s.queue[j].id)
    && (forall i :: 0 <= i < |s.queue| ==> s.queue[i].id < s.nextId)
  }

  lemma OrderKeeps(s: State, step: Step)
    requires Enabled(s, step) && InOrder(s)
    ensures InOrder(Next(s, step))
  {
    hide FirstEligible, Without, InOrder;
    match step
    case ScheduleOutside(work, thread) => OrderPush(s, work, thread);
    case ScheduleInside(_, work, thread) => OrderPush(s, work, thread);
    case Scan(t) =>
      if FirstEligible(s.queue, t, s.fibers) < |s.queue| {
        OrderPick(s, FirstEligible(s.queue, t, s.fibers));
        OrderSame(s.(queue := Without(s.queue, FirstEligible(s.queue, t, s.fibers))), Next(s, step));
      } else {
        OrderSame(s, Next(s, step));
      }
    case Requeue(t) =>
      OrderPush(s, FiberWork(s.workers[t].pc.fiber), ANY);
      OrderSame(Push(s, FiberWork(s.workers[t].pc.fiber), ANY), Next(s, step));
    case _ => OrderSame(s, Next(s, step));
  }

  lemma OrderPush(s: State, work: Work, thread: int)
    requires InOrder(s)
    ensures InOrder(Push(s, work, thread))
  {
  }

  lemma OrderPick(s: State, k: nat)
    requires InOrder(s) && k < |s.queue|
    ensures InOrder(s.(queue := Without(s.queue, k)))
  {
    var q := Without(s.queue, k);
    assert forall i :: 0 <= i < |q| ==> q[i] == s.queue[if i < k then i else i + 1];
  }

  lemma OrderSame(s: State, s': State)
    requires InOrder(s) && s'.queue == s.queue && s'.nextId == s.nextId
    ensures InOrder(s')
  {
  }

  lemma {:induction false} OrderRun(s: State, steps: seq<Step>)
    requires InOrder(s) && Possible(s, steps)
    ensures InOrder(Run(s, steps))
    decreases |steps|
  {
    hide InOrder, Enabled, Next;
    if steps != [] {
      OrderKeeps(s, steps[0]);
      OrderRun(Next(s, steps[0]), steps[1..]);
    }
  }

  /** The task may be run by thread t now: not pinned elsewhere, and its fiber not running. */
  predicate MayRun(s: State, task: Task, t: int) {
    && (task.thread == ANY || task.thread == t)
    && !(task.work.FiberWork? && task.work.fiber in s.fibers && s.fibers[task.work.fiber] == EXEC)
  }

  /**
   In every run a scan takes the oldest task that its thread may run, and no other; if there is
   none, the worker idles, or leaves if its idle fiber has ended.
   */
  lemma OldestFirst(s0: State, steps: seq<Step>, t: int)
    requires Initial(s0) && Possible(s0, steps) && Enabled(Run(s0, steps), Scan(t))
    ensures var s := Run(s0, steps);
            var s' := Next(s, Scan(t));
            && t in s'.workers
            && (s'.workers[t].pc.Picked? ==>
                  var task := s'.workers[t].pc.task;
                  && MayRun(s, task, t)
                  && (forall other <- s.queue :: MayRun(s, other, t) ==> task.id <= other.id)
                  && (forall other :: other in s'.queue <==> other in s.queue && other != task)
                  && task in s.queue)
            && (!s'.workers[t].pc.Picked? ==>
                  && (forall other <- s.queue :: !MayRun(s, other, t)) && s'.queue == s.queue
                  && s'.workers[t].pc == if s.workers[t].idleDone then Exited else Idling)
  {
    OrderRun(s0, steps);
    hide Possible, Run;
    var s := Run(s0, steps);
    var k := FirstEligible(s.queue, t, s.fibers);
    hide FirstEligible;
    assert forall i :: 0 <= i < |s.queue| ==> (MayRun(s, s.queue[i], t) <==> Eligible(s.queue[i], t, s.fibers));
    if k < |s.queue| {
      WithoutIs(s.queue, k);
    }
  }

  lemma WithoutIs(queue: seq<Task>, k: nat)
    requires k < |queue| && forall i, j :: 0 <= i < j < |queue| ==> queue[i].id < queue[j].id
    ensures forall other :: other in Without(queue, k) <==> other in queue && other != queue[k]
  {
    var q := Without(queue, k);
    assert forall i :: 0 <= i < |q| ==> q[i] == queue[if i < k then i else i + 1];
    forall other | other in queue && other != queue[k]
      ensures other in q
    {
      var i :| 0 <= i < |queue| && queue[i] == other;
      assert q[if i < k then i else i - 1] == other;
    }
  }

  // ---------- Workers go on ----------

  /** A step of worker t itself. */
  predicate Own(step: Step, t: int) {
    match step
    case Scan(u) => u == t
    case SwapIn(u, _) => u == t
    case SliceEnd(u, _) => u == t
    case Requeue(u) => u == t
    case IdleReturn(u, _) => u == t
    case RootEnter(u) => u == t
    case _ => false
  }

  /** No queued task may be run by thread t now. */
  ghost predicate NothingFor(s: State, t: int) {
    forall task <- s.queue :: !MayRun(s, task, t)
  }

  lemma NothingIs(s: State, t: int)
    ensures NothingFor(s, t) <==> FirstEligible(s.queue, t, s.fibers) == |s.queue|
  {
    var k := FirstEligible(s.queue, t, s.fibers);
    hide FirstEligible;
    assert forall i :: 0 <= i < |s.queue| ==> (MayRun(s, s.queue[i], t) <==> Eligible(s.queue[i], t, s.fibers));
    assert k < |s.queue| ==> s.queue[k] in s.queue;
  }

  /**
   Where a worker is after a step. It goes into its idle fiber exactly from a scan that finds
   nothing, and leaves exactly if that fiber had ended then, or if it is let in with nothing to
   do; it has a task, runs it, or has it back exactly by its own scan, SwapIn, and yield.
   */
  lemma PositionExactly(s: State, step: Step, t: int)
    requires Enabled(s, step) && t in s.workers
    ensures t in Next(s, step).workers
    ensures var w, w' := s.workers[t], Next(s, step).workers[t];
            && (w'.pc.NotStarted? <==> w.pc.NotStarted? && step != RootEnter(t))
            && (w'.pc.Idling? <==> (w.pc.Idling? && !(step.IdleReturn? && step.t == t)) || (step == Scan(t) && !w.idleDone && NothingFor(s, t)))
            && (w'.pc.Exited? <==> w.pc.Exited? || (step == Scan(t) && w.idleDone && NothingFor(s, t)) || (step == RootEnter(t) && StopCondition(s)))
            && (w'.pc.Picked? <==> (w.pc.Picked? && !(step.SwapIn? && step.t == t)) || (step == Scan(t) && !NothingFor(s, t)))
            && (w'.pc.Running? <==> (w.pc.Running? && !(step.SliceEnd? && step.t == t)) || (step.SwapIn? && step.t == t && SwapsIn(s, step, step.fiber)))
            && (w'.pc.Back? <==> (w.pc.Back? && step != Requeue(t)) || step == SliceEnd(t, READY))
            && (w'.idleDone <==> w.idleDone || step == IdleReturn(t, true))
  {
    hide FirstEligible, Without, NothingFor;
    NothingIs(s, t);
    if !Own(step, t) {
      Bystander(s, step, t);
      hide Next;
    }
  }

  lemma Bystander(s: State, step: Step, t: int)
    requires Enabled(s, step) && t in s.workers && !Own(step, t)
    ensures t in Next(s, step).workers && Next(s, step).workers[t] == s.workers[t]
  {
    hide FirstEligible, Without;
  }

  /** The fibers of the tasks that are queued or picked are known. */
  ghost predicate FibersKnown(s: State) {
    && (forall i, f :: QueuedAs(s.queue, i, f) ==> f in s.fibers)
    && (forall t, f :: InHand(s, t, f) ==> f in s.fibers)
    && (forall t, f :: Runs(s, t, f) ==> f in s.fibers)
  }

  lemma FibersKnownStep(s: State, step: Step)
    requires Enabled(s, step) && FibersKnown(s)
    ensures FibersKnown(Next(s, step))
  {
    hide FirstEligible, Without;
    var s' := Next(s, step);
    assert s.fibers.Keys <= s'.fibers.Keys;
    if step.Scan? {
      FibersKnownScan(s, step.t);
    } else {
      assert forall i, f :: QueuedAs(s'.queue, i, f) ==> QueuedAs(s.queue, i, f) || f in s'.fibers;
      assert forall t, f :: InHand(s', t, f) ==> InHand(s, t, f) || Runs(s, t, f);
      assert forall t, f :: Runs(s', t, f) ==> Runs(s, t, f) || f in s'.fibers;
    }
  }

  lemma FibersKnownScan(s: State, t: int)
    requires Enabled(s, Scan(t)) && FibersKnown(s)
    ensures FibersKnown(AfterScan(s, t))
  {
    var s', k := AfterScan(s, t), FirstEligible(s.queue, t, s.fibers);
    hide FirstEligible;
    assert forall i, f :: QueuedAs(s'.queue, i, f) ==> QueuedAs(s.queue, if k < |s.queue| && i >= k then i + 1 else i, f);
    assert forall u, f :: InHand(s', u, f) ==> InHand(s, u, f) || QueuedAs(s.queue, k, f);
    assert forall u, f :: Runs(s', u, f) ==> Runs(s, u, f);
  }

  lemma {:induction false} FibersKnownRun(s: State, steps: seq<Step>)
    requires FibersKnown(s) && Possible(s, steps)
    ensures FibersKnown(Run(s, steps))
    decreases |steps|
  {
    hide FibersKnown, Enabled, Next;
    if steps != [] {
      FibersKnownStep(s, steps[0]);
      FibersKnownRun(Next(s, steps[0]), steps[1..]);
    }
  }

  lemma {:induction false} UnusedFiber(used: set<nat>) returns (f: nat)
    ensures forall g <- used :: g < f
  {
    if g: nat :| g in used {
      f := UnusedFiber(used - {g});
      if f <= g {
        f := g + 1;
      }
      assert forall h <- used :: h == g || h in used - {g};
    } else {
      f := 0;
    }
  }

  /**
   In every run a worker that has not left can go on, the caller's thread once stop() is called;
   what it runs can schedule, and can end its slice in any way.
   */
  lemma CanGoOn(s0: State, steps: seq<Step>, t: int) returns (step: Step)
    requires Initial(s0) && Possible(s0, steps)
    requires Live(Run(s0, steps), t) && (Run(s0, steps).workers[t].pc.NotStarted? ==> Stopped(Run(s0, steps)))
    ensures Own(step, t) && Callable(Run(s0, steps), step)
    ensures var s := Run(s0, steps);
            && (s.workers[t].pc.Running? || s.workers[t].pc.Idling? ==>
                  forall work, thread :: Callable(s, ScheduleInside(t, work, thread)))
            && (s.workers[t].pc.Running? ==> forall st | st in {READY, HOLD, TERM, EXCEPT} :: Callable(s, SliceEnd(t, st)))
            && (s.workers[t].pc.Idling? && StopCondition(s) ==> Callable(s, IdleReturn(t, true)))
  {
    FibersKnownRun(s0, steps);
    hide Possible, Run;
    var s := Run(s0, steps);
    match s.workers[t].pc
    case NotStarted => step := RootEnter(t);
    case Scanning => step := Scan(t);
    case Picked(task) =>
      if task.work.FiberWork? {
        assert InHand(s, t, task.work.fiber);
        step := SwapIn(t, task.work.fiber);
      } else {
        var f := UnusedFiber(s.fibers.Keys);
        step := SwapIn(t, f);
      }
    case Running(_, _) => step := SliceEnd(t, HOLD);
    case Back(_, _) => step := Requeue(t);
    case Idling => step := IdleReturn(t, false);
  }
}
