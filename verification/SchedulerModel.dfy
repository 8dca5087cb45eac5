/**
 The scheduler of sylar/scheduler.cc and sylar/scheduler.h as a step system: workers share a
 queue of tasks, and every region under the lock is one step.

 A task is a fiber or a callback, possibly pinned to a thread. A fiber that gives up the
 processor and the worker that notes its state are one step; lowering the count of active
 workers and putting a READY fiber back into the queue are two.
 */
module SchedulerModel {

  const ANY: int := -1

  datatype FiberState = INIT | READY | HOLD | EXEC | TERM | EXCEPT

  datatype Work = FiberWork(fiber: nat) | CbWork(cb: nat)

  /** id: the number of tasks accepted before it. */
  datatype Task = Task(id: nat, work: Work, thread: int)

  /** Where a worker is in run(). */
  datatype Pc =
    | NotStarted                       // the caller's thread, before stop() lets it run
    | Scanning                         // about to look through the queue
    | Picked(task: Task)               // a task in hand, counted as active
    | Running(task: Task, fiber: nat)  // inside the slice of its fiber
    | Back(task: Task, fiber: nat)     // no longer counted, a READY fiber still to re-queue
    | Idling                           // inside the idle fiber
    | Exited

  /** idleDone: the worker's idle fiber has terminated. */
  datatype Worker = Worker(pc: Pc, idleDone: bool)

  datatype State = State(
    queue: seq<Task>,
    workers: map<int, Worker>,
    fibers: map<nat, FiberState>,
    active: int,
    autoStop: bool,
    stopping: bool,
    nextId: nat,
    done: set<nat>)

  predicate Executing(fibers: map<nat, FiberState>, w: Work) {
    w.FiberWork? && w.fiber in fibers && fibers[w.fiber] == EXEC
  }

  /** The scan takes a task that is not pinned elsewhere and whose fiber is not running. */
  predicate Eligible(task: Task, thread: int, fibers: map<nat, FiberState>) {
    (task.thread == ANY || task.thread == thread) && !Executing(fibers, task.work)
  }

  /** The position of the first eligible task, or the length of the queue. */
  function FirstEligible(queue: seq<Task>, thread: int, fibers: map<nat, FiberState>): (i: nat)
    ensures i <= |queue|
    ensures i < |queue| ==> Eligible(queue[i], thread, fibers)
    ensures forall j :: 0 <= j < i ==> !Eligible(queue[j], thread, fibers)
  {
    if queue == [] then 0
    else if Eligible(queue[0], thread, fibers) then 0
    else
      var k := FirstEligible(queue[1..], thread, fibers);
      assert k < |queue[1..]| ==> queue[1..][k] == queue[k + 1];
      assert forall j :: 1 <= j < k + 1 ==> queue[j] == queue[1..][j - 1];
      1 + k
  }

  function Without(queue: seq<Task>, i: nat): seq<Task>
    requires i < |queue|
  {
    queue[..i] + queue[i + 1..]
  }

  /** Scheduler::stopping. */
  predicate StopCondition(s: State) {
    s.autoStop && s.stopping && s.queue == [] && s.active == 0
  }

  /** stop() has set both flags. */
  predicate Stopped(s: State) {
    s.autoStop && s.stopping
  }

  // ---------- Steps ----------

  datatype Step =
    | ScheduleOutside(work: Work, thread: int)           // from outside the workers
    | ScheduleInside(t: int, work: Work, thread: int)    // from the slice or idle fiber of worker t
    | Scan(t: int)
    | SwapIn(t: int, fiber: nat)                         // fiber: the one a callback is run in
    | SliceEnd(t: int, st: FiberState)
    | Requeue(t: int)
    | IdleReturn(t: int, terminate: bool)
    | SetAutoStop
    | SetStopping
    | RootEnter(t: int)

  predicate At(s: State, t: int) {
    t in s.workers
  }

  /** Which fiber a picked task runs in: its own, or for a callback one that is not in use. */
  predicate RunsIn(s: State, task: Task, fiber: nat) {
    match task.work
    case FiberWork(f) => fiber == f && f in s.fibers
    case CbWork(_) => fiber !in s.fibers || s.fibers[fiber] in {INIT, TERM, EXCEPT}
  }

  /** Where the step can be tried. */
  predicate Callable(s: State, step: Step) {
    match step
    case ScheduleOutside(_, _) => !Stopped(s)
    case ScheduleInside(t, _, _) => At(s, t) && (s.workers[t].pc.Running? || s.workers[t].pc.Idling?)
    case Scan(t) => At(s, t) && s.workers[t].pc.Scanning?
    case SwapIn(t, f) => At(s, t) && s.workers[t].pc.Picked? && RunsIn(s, s.workers[t].pc.task, f)
    case SliceEnd(t, st) => At(s, t) && s.workers[t].pc.Running? && st in {READY, HOLD, TERM, EXCEPT}
    case Requeue(t) => At(s, t) && s.workers[t].pc.Back?
    case IdleReturn(t, b) => At(s, t) && s.workers[t].pc.Idling? && (b ==> StopCondition(s))
    case SetAutoStop => true
    case SetStopping => s.autoStop
    case RootEnter(t) => At(s, t) && s.workers[t].pc.NotStarted? && Stopped(s)
  }

  /** Fiber::SwapIn asserts that its fiber is not running already. */
  predicate Aborts(s: State, step: Step)
    requires Callable(s, step)
  {
    step.SwapIn? && Executing(s.fibers, s.workers[step.t].pc.task.work)
  }

  predicate Enabled(s: State, step: Step) {
    Callable(s, step) && !Aborts(s, step)
  }

  function Moved(s: State, t: int, pc: Pc): map<int, Worker>
    requires At(s, t)
  {
    s.workers[t := s.workers[t].(pc := pc)]
  }

  /** scheduleNoLock: a new task goes to the end of the queue. */
  function Push(s: State, work: Work, thread: int): State {
    s.(queue := s.queue + [Task(s.nextId, work, thread)], nextId := s.nextId + 1,
       fibers := if work.FiberWork? && work.fiber !in s.fibers then s.fibers[work.fiber := INIT] else s.fibers)
  }

  /** The scan of the queue and what the worker does when it finds nothing. */
  function AfterScan(s: State, t: int): State
    requires At(s, t)
  {
    var i := FirstEligible(s.queue, t, s.fibers);
    if i < |s.queue| then
      s.(queue := Without(s.queue, i), active := s.active + 1, workers := Moved(s, t, Picked(s.queue[i])))
    else s.(workers := Moved(s, t, if s.workers[t].idleDone then Exited else Idling))
  }

  /** A finished fiber is dropped; any other starts or goes on. */
  function AfterSwapIn(s: State, t: int, f: nat): State
    requires At(s, t) && s.workers[t].pc.Picked?
  {
    var task := s.workers[t].pc.task;
    if task.work.FiberWork? && f in s.fibers && s.fibers[f] in {TERM, EXCEPT} then
      s.(active := s.active - 1, workers := Moved(s, t, Scanning), done := s.done + {task.id})
    else s.(fibers := s.fibers[f := EXEC], workers := Moved(s, t, Running(task, f)))
  }

  function AfterSlice(s: State, t: int, st: FiberState): State
    requires At(s, t) && s.workers[t].pc.Running?
  {
    var Running(task, f) := s.workers[t].pc;
    var s1 := s.(active := s.active - 1, fibers := s.fibers[f := st]);
    if st == READY then s1.(workers := Moved(s, t, Back(task, f)))
    else s1.(workers := Moved(s, t, Scanning), done := s.done + {task.id})
  }

  function AfterRequeue(s: State, t: int): State
    requires At(s, t) && s.workers[t].pc.Back?
  {
    var Back(task, f) := s.workers[t].pc;
    Push(s, FiberWork(f), ANY).(workers := Moved(s, t, Scanning), done := s.done + {task.id})
  }

  function Next(s: State, step: Step): State
    requires Enabled(s, step)
  {
    match step
    case ScheduleOutside(work, thread) => Push(s, work, thread)
    case ScheduleInside(t, work, thread) => Push(s, work, thread)
    case Scan(t) => AfterScan(s, t)
    case SwapIn(t, f) => AfterSwapIn(s, t, f)
    case SliceEnd(t, st) => AfterSlice(s, t, st)
    case Requeue(t) => AfterRequeue(s, t)
    case IdleReturn(t, b) =>
      s.(workers := s.workers[t := Worker(Scanning, s.workers[t].idleDone || b)])
    case SetAutoStop => s.(autoStop := true)
    case SetStopping => s.(stopping := true)
    case RootEnter(t) => s.(workers := Moved(s, t, if StopCondition(s) then Exited else Scanning))
  }

  datatype Result = Done(st: State) | AbortExec

  function Take(s: State, step: Step): Result
    requires Callable(s, step)
  {
    if Aborts(s, step) then AbortExec else Done(Next(s, step))
  }

  /** After start(): workers scan, the caller's thread waits, nothing is queued. */
  ghost predicate Initial(s: State) {
    && (exists t :: At(s, t))
    && (forall t <- s.workers :: t != ANY && !s.workers[t].idleDone
                                 && (s.workers[t].pc.NotStarted? || s.workers[t].pc.Scanning?))
    && s.queue == [] && s.active == 0 && !s.autoStop && !s.stopping && s.nextId == 0 && s.done == {}
    && s.fibers == map[]
  }
}
