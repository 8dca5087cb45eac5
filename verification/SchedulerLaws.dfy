/**
 What every run of the scheduler keeps: the count of active workers, where each task is, pins,
 and that stopping leaves no task behind that any worker could have taken.
 */
module SchedulerLaws {
  import opened Wrappers
  import opened SchedulerModel

  predicate Busy(pc: Pc) {
    pc.Picked? || pc.Running?
  }

  function Hand(pc: Pc): Option<Task> {
    match pc
    case Picked(task) => Some(task)
    case Running(task, _) => Some(task)
    case Back(task, _) => Some(task)
    case _ => None
  }

  // ---------- The count of active workers ----------

  function BusySet(workers: map<int, Worker>): set<int> {
    set t | t in workers && Busy(workers[t].pc)
  }

  /** activeThreadCount is the number of workers between a pick and its decrement. */
  predicate CountRight(s: State) {
    s.active == |BusySet(s.workers)|
  }

  lemma BusyMoved(workers: map<int, Worker>, t: int, w: Worker)
    requires t in workers
    ensures |BusySet(workers[t := w])|
         == |BusySet(workers)| + (if Busy(w.pc) then 1 else 0) - (if Busy(workers[t].pc) then 1 else 0)
  {
    var a, b := BusySet(workers), BusySet(workers[t := w]);
    assert a - {t} == b - {t};
    assert t in a <==> Busy(workers[t].pc);
    assert t in b <==> Busy(w.pc);
    hide BusySet;
    OneLess(a, t);
    OneLess(b, t);
  }

  lemma OneLess(a: set<int>, t: int)
    ensures |a| == |a - {t}| + (if t in a then 1 else 0)
  {
    if t in a {
      assert a == (a - {t}) + {t};
    } else {
      assert a == a - {t};
    }
  }

  lemma CountKeeps(s: State, step: Step)
    requires Enabled(s, step) && CountRight(s)
    ensures CountRight(Next(s, step))
  {
    hide FirstEligible, BusySet, RunsIn;
    match step
    case ScheduleOutside(_, _) =>
    case ScheduleInside(_, _, _) =>
    case SetAutoStop =>
    case SetStopping =>
    case _ =>
      BusyMoved(s.workers, step.t, Next(s, step).workers[step.t]);
  }

  // ---------- Fibers and the workers that run them ----------

  predicate Runs(s: State, t: int, f: nat) {
    t in s.workers && s.workers[t].pc.Running? && s.workers[t].pc.fiber == f
  }

  /** A fiber is in EXEC exactly while a worker runs it, and no two workers run the same one. */
  ghost predicate ExecRight(s: State) {
    && (forall f <- s.fibers :: s.fibers[f] == EXEC ==> exists t :: Runs(s, t, f))
    && (forall t, f :: Runs(s, t, f) ==> f in s.fibers && s.fibers[f] == EXEC)
    && (forall t, t', f :: Runs(s, t, f) && Runs(s, t', f) ==> t == t')
  }

  lemma ExecKeeps(s: State, step: Step)
    requires Enabled(s, step) && ExecRight(s)
    ensures ExecRight(Next(s, step))
  {
    hide FirstEligible, Without;
    var s' := Next(s, step);
    match step
    case SwapIn(t, f) =>
      ExecSwapIn(s, t, f);
    case SliceEnd(t, st) =>
      ExecSliceEnd(s, t, st);
    case _ =>
      assert forall t, f :: Runs(s', t, f) <==> Runs(s, t, f);
  }

  lemma ExecSwapIn(s: State, t: int, f: nat)
    requires Enabled(s, SwapIn(t, f)) && ExecRight(s)
    ensures ExecRight(AfterSwapIn(s, t, f))
  {
    var s' := AfterSwapIn(s, t, f);
    assert forall t', f' :: t' != t ==> (Runs(s', t', f') <==> Runs(s, t', f'));
    assert forall t' :: !Runs(s, t', f);
    if s'.workers[t].pc.Running? {
      assert Runs(s', t, f);
    }
    forall g <- s'.fibers | s'.fibers[g] == EXEC
      ensures exists t' :: Runs(s', t', g)
    {
      if g != f {
        var u :| Runs(s, u, g);
        assert Runs(s', u, g);
      }
    }
  }

  lemma ExecSliceEnd(s: State, t: int, st: FiberState)
    requires Enabled(s, SliceEnd(t, st)) && ExecRight(s)
    ensures ExecRight(AfterSlice(s, t, st))
  {
    var s' := AfterSlice(s, t, st);
    var f := s.workers[t].pc.fiber;
    assert Runs(s, t, f);
    assert forall t', f' :: t' != t ==> (Runs(s', t', f') <==> Runs(s, t', f'));
    forall g <- s'.fibers | s'.fibers[g] == EXEC
      ensures exists t' :: Runs(s', t', g)
    {
      var u :| Runs(s, u, g);
      assert u != t;
      assert Runs(s', u, g);
    }
  }

  // ---------- Pins ----------

  /** A task in a worker's hand was not pinned to another thread. */
  ghost predicate PinsKept(s: State) {
    forall t <- s.workers :: Hand(s.workers[t].pc).Some? ==>
      Hand(s.workers[t].pc).value.thread == ANY || Hand(s.workers[t].pc).value.thread == t
  }

  lemma PinKeeps(s: State, step: Step)
    requires Enabled(s, step) && PinsKept(s)
    ensures PinsKept(Next(s, step))
  {
    hide FirstEligible, Without;
  }

  // ---------- Where each task is ----------

  ghost predicate Queued(queue: seq<Task>, id: nat) {
    exists i :: 0 <= i < |queue| && queue[i].id == id
  }

  predicate Holds(workers: map<int, Worker>, t: int, id: nat) {
    t in workers && Hand(workers[t].pc).Some? && Hand(workers[t].pc).value.id == id
  }

  /** No task is queued twice. */
  ghost predicate QueueDistinct(queue: seq<Task>) {
    forall i, j :: 0 <= i < j < |queue| ==> queue[i].id != queue[j].id
  }

  /** Every accepted task is in exactly one place: the queue, one worker's hand, or finished. */
  ghost predicate PlacesRight(s: State) {
    && QueueDistinct(s.queue)
    && (forall id: nat :: Queued(s.queue, id) ==> id < s.nextId && id !in s.done)
    && (forall t, id: nat :: Holds(s.workers, t, id) ==> id < s.nextId && id !in s.done && !Queued(s.queue, id))
    && (forall t, t', id: nat :: Holds(s.workers, t, id) && Holds(s.workers, t', id) ==> t == t')
    && (forall id <- s.done :: id < s.nextId)
    && (forall id: nat :: id < s.nextId ==> id in s.done || Queued(s.queue, id) || exists t :: Holds(s.workers, t, id))
  }

  lemma QueuedPush(queue: seq<Task>, task: Task)
    ensures forall id: nat :: Queued(queue + [task], id) <==> Queued(queue, id) || id == task.id
  {
    forall id: nat
      ensures Queued(queue + [task], id) <==> Queued(queue, id) || id == task.id
    {
      var q := queue + [task];
      if Queued(queue, id) {
        var i :| 0 <= i < |queue| && queue[i].id == id;
        assert q[i].id == id;
      }
      assert q[|queue|].id == task.id;
    }
  }

  lemma QueuedWithout(queue: seq<Task>, k: nat)
    requires k < |queue| && QueueDistinct(queue)
    ensures QueueDistinct(Without(queue, k))
    ensures forall id: nat :: Queued(Without(queue, k), id) <==> Queued(queue, id) && id != queue[k].id
  {
    var q := Without(queue, k);
    assert forall i :: 0 <= i < |q| ==> q[i] == queue[if i < k then i else i + 1];
    forall id: nat
      ensures Queued(q, id) <==> Queued(queue, id) && id != queue[k].id
    {
      if Queued(queue, id) && id != queue[k].id {
        var i :| 0 <= i < |queue| && queue[i].id == id;
        assert q[if i < k then i else i - 1].id == id;
      }
    }
  }

  lemma PlacesPush(s: State, work: Work, thread: int)
    requires PlacesRight(s)
    ensures PlacesRight(Push(s, work, thread))
  {
    hide Queued, Holds, Hand;
    var s' := Push(s, work, thread);
    var task := Task(s.nextId, work, thread);
    QueuedPush(s.queue, task);
    forall i, j | 0 <= i < j < |s'.queue|
      ensures s'.queue[i].id != s'.queue[j].id
    {
      QueuedAt(s.queue, i);
    }
  }

  lemma QueuedAt(queue: seq<Task>, i: nat)
    ensures i < |queue| ==> Queued(queue, queue[i].id)
  {
  }

  /** A worker changes its position and keeps what it holds. */
  lemma PlacesMove(s: State, s': State, t: int)
    requires PlacesRight(s) && t in s.workers
    requires s'.queue == s.queue && s'.nextId == s.nextId && s'.done == s.done
    requires s'.workers.Keys == s.workers.Keys
    requires forall u <- s.workers :: Hand(s'.workers[u].pc) == Hand(s.workers[u].pc)
    ensures PlacesRight(s')
  {
    hide Queued, Hand, QueueDistinct;
    assert forall u, id: nat :: Holds(s'.workers, u, id) <==> Holds(s.workers, u, id);
  }

  /** A worker finishes what it holds. */
  lemma PlacesFinish(s: State, s': State, t: int)
    requires PlacesRight(s) && t in s.workers && Hand(s.workers[t].pc).Some?
    requires s'.queue == s.queue && s'.nextId == s.nextId
    requires s'.done == s.done + {Hand(s.workers[t].pc).value.id}
    requires s'.workers.Keys == s.workers.Keys && Hand(s'.workers[t].pc).None?
    requires forall u <- s.workers :: u != t ==> s'.workers[u] == s.workers[u]
    ensures PlacesRight(s')
  {
    hide Queued, Hand, QueueDistinct;
    var x := Hand(s.workers[t].pc).value.id;
    assert Holds(s.workers, t, x);
    assert forall u, id: nat :: Holds(s'.workers, u, id) <==> Holds(s.workers, u, id) && u != t;
    forall id: nat | id < s'.nextId && id !in s'.done && !Queued(s'.queue, id)
      ensures exists u :: Holds(s'.workers, u, id)
    {
      var u :| Holds(s.workers, u, id);
      assert u != t;
      assert Holds(s'.workers, u, id);
    }
  }

  lemma PlacesPick(s: State, t: int, i: nat)
    requires PlacesRight(s) && t in s.workers && Hand(s.workers[t].pc).None? && i < |s.queue|
    ensures PlacesRight(s.(queue := Without(s.queue, i), workers := Moved(s, t, Picked(s.queue[i]))))
  {
    var s' := s.(queue := Without(s.queue, i), workers := Moved(s, t, Picked(s.queue[i])));
    assert Hand(s'.workers[t].pc) == Some(s.queue[i]);
    hide Queued, Hand, Without, QueueDistinct;
    QueuedWithout(s.queue, i);
    QueuedAt(s.queue, i);
    assert forall u, id: nat :: Holds(s'.workers, u, id) <==> Holds(s.workers, u, id) || (u == t && id == s.queue[i].id);
    assert Holds(s'.workers, t, s.queue[i].id);
    forall id: nat | id < s'.nextId && id !in s'.done && !Queued(s'.queue, id)
      ensures exists u :: Holds(s'.workers, u, id)
    {
      if id != s.queue[i].id {
        var u :| Holds(s.workers, u, id);
        assert Holds(s'.workers, u, id);
      }
    }
  }

  lemma PlacesIgnore(s: State, s': State)
    requires PlacesRight(s)
    requires s'.queue == s.queue && s'.nextId == s.nextId && s'.done == s.done && s'.workers == s.workers
    ensures PlacesRight(s')
  {
  }

  lemma PlacesKeeps(s: State, step: Step)
    requires Enabled(s, step) && PlacesRight(s)
    ensures PlacesRight(Next(s, step))
  {
    hide PlacesRight, FirstEligible, Without;
    var s' := Next(s, step);
    match step
    case ScheduleOutside(work, thread) => PlacesPush(s, work, thread);
    case ScheduleInside(_, work, thread) => PlacesPush(s, work, thread);
    case Scan(t) =>
      var i := FirstEligible(s.queue, t, s.fibers);
      if i < |s.queue| {
        PlacesPick(s, t, i);
        PlacesIgnore(s.(queue := Without(s.queue, i), workers := Moved(s, t, Picked(s.queue[i]))), s');
      } else {
        PlacesMove(s, s', t);
      }
    case SwapIn(t, f) =>
      if s'.workers[t].pc.Running? { PlacesMove(s, s', t); } else { PlacesFinish(s, s', t); }
    case SliceEnd(t, st) =>
      if st == READY { PlacesMove(s, s', t); } else { PlacesFinish(s, s', t); }
    case Requeue(t) =>
      var p := Push(s, FiberWork(s.workers[t].pc.fiber), ANY);
      PlacesPush(s, FiberWork(s.workers[t].pc.fiber), ANY);
      PlacesFinish(p, s', t);
    case IdleReturn(t, b) => PlacesMove(s, s', t);
    case SetAutoStop => PlacesIgnore(s, s');
    case SetStopping => PlacesIgnore(s, s');
    case RootEnter(t) => PlacesMove(s, s', t);
  }

  // ---------- Stopping ----------

  predicate Live(s: State, t: int) {
    t in s.workers && !s.workers[t].pc.Exited?
  }

  predicate Unpinned(s: State, i: int) {
    0 <= i < |s.queue| && s.queue[i].thread == ANY
  }

  /** Idle fibers end and workers leave only after stop(), and there is at least one worker. */
  ghost predicate StopRight(s: State) {
    && (exists t :: At(s, t))
    && (forall t <- s.workers :: s.workers[t].idleDone || s.workers[t].pc.Exited? ==> Stopped(s))
  }

  /** While the queue holds a task that is not pinned, some worker has not made its last scan. */
  ghost predicate NothingStranded(s: State) {
    (exists i :: Unpinned(s, i)) ==> exists t :: Live(s, t)
  }

  lemma StopKeeps(s: State, step: Step)
    requires Enabled(s, step) && StopRight(s)
    ensures StopRight(Next(s, step))
  {
    hide FirstEligible, Without;
    var t :| At(s, t);
    assert At(Next(s, step), t);
  }

  lemma StrandedKeeps(s: State, step: Step)
    requires Enabled(s, step) && StopRight(s) && ExecRight(s) && NothingStranded(s)
    ensures NothingStranded(Next(s, step))
  {
    hide ExecRight, FirstEligible, Without;
    var s' := Next(s, step);
    match step
    case ScheduleOutside(_, _) =>
      var t :| At(s, t);
      assert Live(s', t);
    case ScheduleInside(t, _, _) => assert Live(s', t);
    case Scan(t) => StrandedScan(s, t);
    case SwapIn(t, _) => assert Live(s', t);
    case SliceEnd(t, _) => assert Live(s', t);
    case Requeue(t) => assert Live(s', t);
    case IdleReturn(t, _) => assert Live(s', t);
    case RootEnter(t) => assert StopCondition(s) || Live(s', t);
    case _ =>
      assert forall t :: Live(s, t) <==> Live(s', t);
      assert forall i :: Unpinned(s, i) <==> Unpinned(s', i);
  }

  /**
   The last scan of a worker: a task it leaves behind that is not pinned belongs to a fiber
   that another worker is running, and that worker will scan again.
   */
  lemma StrandedScan(s: State, t: int)
    requires Enabled(s, Scan(t)) && ExecRight(s)
    ensures NothingStranded(AfterScan(s, t))
  {
    var s' := AfterScan(s, t);
    if s'.workers[t].pc.Exited? {
      forall i | Unpinned(s', i)
        ensures exists u :: Live(s', u)
      {
        assert !Eligible(s.queue[i], t, s.fibers);
        var f := s.queue[i].work.fiber;
        var u :| Runs(s, u, f);
        assert Live(s', u);
      }
    } else {
      assert Live(s', t);
    }
  }

  // ---------- Runs ----------

  ghost predicate Inv(s: State) {
    CountRight(s) && ExecRight(s) && PinsKept(s) && PlacesRight(s) && StopRight(s) && NothingStranded(s)
  }

  lemma InitialInv(s: State)
    requires Initial(s)
    ensures Inv(s)
  {
    NoneBusy(s.workers);
  }

  /**
   What stopping() means: besides the flags, no task is queued and no worker is between its
   pick and its decrement; so every accepted task is finished or about to be queued again.
   */
  lemma StopMeans(s: State)
    requires Inv(s)
    ensures StopCondition(s) <==> Stopped(s) && s.queue == [] && forall t <- s.workers :: !Busy(s.workers[t].pc)
    ensures StopCondition(s) ==>
              forall id: nat :: id < s.nextId ==> id in s.done || exists t :: Holds(s.workers, t, id) && s.workers[t].pc.Back?
  {
    hide ExecRight, PinsKept, StopRight, NothingStranded;
    CountZero(s);
    if StopCondition(s) {
      forall id: nat | id < s.nextId && id !in s.done
        ensures exists t :: Holds(s.workers, t, id) && s.workers[t].pc.Back?
      {
        assert !Queued(s.queue, id);
        var t :| Holds(s.workers, t, id);
        assert s.workers[t].pc.Back?;
      }
    }
  }

  lemma CountZero(s: State)
    requires CountRight(s)
    ensures s.active == 0 <==> forall t <- s.workers :: !Busy(s.workers[t].pc)
  {
    if forall t <- s.workers :: !Busy(s.workers[t].pc) {
      NoneBusy(s.workers);
    } else {
      var t :| t in s.workers && Busy(s.workers[t].pc);
      OneLess(BusySet(s.workers), t);
    }
  }

  lemma NoneBusy(workers: map<int, Worker>)
    requires forall t <- workers :: !Busy(workers[t].pc)
    ensures |BusySet(workers)| == 0
  {
    forall t
      ensures t !in BusySet(workers)
    {
    }
    assert BusySet(workers) == {};
  }

  /**
   Every step keeps the invariant or ends the program, and it ends it in one case only: a
   worker swaps in a fiber that another worker is running.
   */
  lemma StepKeeps(s: State, step: Step)
    requires Callable(s, step) && Inv(s)
    ensures Take(s, step).Done? ==> Inv(Take(s, step).st)
    ensures Take(s, step).AbortExec? <==>
              step.SwapIn? && s.workers[step.t].pc.task.work.FiberWork? && exists u :: Runs(s, u, step.fiber)
  {
    if Take(s, step).Done? {
      StepInv(s, step);
    }
  }

  lemma StepInv(s: State, step: Step)
    requires Enabled(s, step) && Inv(s)
    ensures Inv(Next(s, step))
  {
    hide CountRight, ExecRight, PinsKept, PlacesRight, StopRight, NothingStranded, Enabled, Next;
    CountKeeps(s, step);
    ExecKeeps(s, step);
    PinKeeps(s, step);
    PlacesKeeps(s, step);
    StopKeeps(s, step);
    StrandedKeeps(s, step);
  }

  ghost predicate Possible(s: State, steps: seq<Step>)
    decreases |steps|
  {
    steps == [] || (Enabled(s, steps[0]) && Possible(Next(s, steps[0]), steps[1..]))
  }

  ghost function Run(s: State, steps: seq<Step>): State
    requires Possible(s, steps)
    decreases |steps|
  {
    if steps == [] then s else Run(Next(s, steps[0]), steps[1..])
  }

  lemma {:induction false} RunKeeps(s: State, steps: seq<Step>)
    requires Inv(s) && Possible(s, steps)
    ensures Inv(Run(s, steps))
    decreases |steps|
  {
    hide Inv, Enabled, Next;
    if steps != [] {
      StepInv(s, steps[0]);
      RunKeeps(Next(s, steps[0]), steps[1..]);
    }
  }

  /**
   In every reachable state the active count is the number of workers between a pick and its
   decrement, and so never negative; a task in hand is where its pin allows; every accepted
   task is in exactly one place; and a queued task that any worker may take has a worker left.
   */
  lemma EveryRun(s0: State, steps: seq<Step>)
    requires Initial(s0) && Possible(s0, steps)
    ensures var s := Run(s0, steps);
            && s.active == |BusySet(s.workers)| >= 0
            && PinsKept(s) && PlacesRight(s) && NothingStranded(s)
  {
    hide PlacesRight, PinsKept, NothingStranded, Possible, Run, ExecRight, StopRight;
    InitialInv(s0);
    RunKeeps(s0, steps);
  }

  /**
   Once the last worker has left run(), no task that was not pinned is left: every accepted
   task is finished or was pinned to one thread.
   */
  lemma AllWorkersGone(s0: State, steps: seq<Step>)
    requires Initial(s0) && Possible(s0, steps)
    requires forall t :: !Live(Run(s0, steps), t)
    ensures var s := Run(s0, steps);
            && s.active == 0
            && (forall i :: 0 <= i < |s.queue| ==> s.queue[i].thread != ANY)
            && (forall id: nat :: id < s.nextId ==> id in s.done || Queued(s.queue, id))
  {
    hide Possible, Run, ExecRight, StopRight, PinsKept;
    InitialInv(s0);
    RunKeeps(s0, steps);
    var s := Run(s0, steps);
    forall t <- s.workers
      ensures s.workers[t].pc.Exited?
    {
      assert !Live(s, t);
    }
    NoneBusy(s.workers);
    forall i | 0 <= i < |s.queue|
      ensures s.queue[i].thread != ANY
    {
      assert !Unpinned(s, i);
    }
  }

  // ---------- Building runs ----------

  /** What is scheduled from inside comes from a fiber that runs, not from an idle fiber. */
  predicate BySlice(s: State, step: Step) {
    step.ScheduleInside? ==> At(s, step.t) && s.workers[step.t].pc.Running?
  }

  ghost predicate BySlices(s: State, steps: seq<Step>)
    requires Possible(s, steps)
    decreases |steps|
  {
    steps != [] ==> BySlice(s, steps[0]) && BySlices(Next(s, steps[0]), steps[1..])
  }

  /** The steps lead from s0 to s, and idle fibers schedule nothing on the way. */
  ghost predicate Reached(s0: State, steps: seq<Step>, s: State) {
    Possible(s0, steps) && BySlices(s0, steps) && Run(s0, steps) == s
  }

  lemma NoSteps(s: State)
    ensures Reached(s, [], s)
  {
  }

  lemma {:induction false} Extend(s0: State, steps: seq<Step>, s: State, step: Step)
    requires Reached(s0, steps, s) && Enabled(s, step) && BySlice(s, step)
    ensures Reached(s0, steps + [step], Next(s, step))
    decreases |steps|
  {
    hide Enabled, Next, BySlice;
    var more := steps + [step];
    if steps == [] {
      NoSteps(Next(s, step));
      assert more[1..] == [];
    } else {
      assert more[1..] == steps[1..] + [step];
      Extend(Next(s0, steps[0]), steps[1..], s, step);
    }
  }

  lemma Continue(s0: State, steps: seq<Step>, s: State, step: Step) returns (steps': seq<Step>, s': State)
    requires Reached(s0, steps, s) && Enabled(s, step) && BySlice(s, step)
    ensures Reached(s0, steps', s') && s' == Next(s, step)
  {
    Extend(s0, steps, s, step);
    steps', s' := steps + [step], Next(s, step);
  }

  /** Two workers, 1 and 2. */
  function Two(queue: seq<Task>, p1: Pc, done1: bool, p2: Pc, done2: bool, fibers: map<nat, FiberState>,
               active: int, stop: bool, nextId: nat, done: set<nat>): State {
    State(queue, map[1 := Worker(p1, done1), 2 := Worker(p2, done2)], fibers, active, stop, stop, nextId, done)
  }

  const FIRST: State := Two([], Scanning, false, Scanning, false, map[], 0, false, 0, {})
}
