/**
 The scheduler, the I/O manager and the timers together: idle fibers wait for events and timers
 and end when there are none. The question is whether a registered event can outlive the last
 worker.

 IOManager::stopping looks at the timers, at the count of pending events and at the scheduler,
 so an idle fiber that ends has made three looks, at different times.
 */
module Shutdown {
  import opened Wrappers
  import S = SchedulerModel
  import L = SchedulerLaws
  import opened IoModel
  import opened IoLaws
  import D = DoIo
  import T = TimerModel

  /**
   peeked: the workers whose idle fiber has found no timer and goes on to the events;
   looked: those that have then found no event pending and go on to the scheduler.
   */
  datatype Whole = Whole(sch: S.State, io: State, tm: T.State, peeked: set<int>, looked: set<int>)

  datatype TimerOp =
    | AddTimer(a: T.Addr, ms: nat, cb: nat, recurring: bool, created: nat)
    | CancelTimer(a: T.Addr)
    | RefreshTimer(a: T.Addr, now: nat)
    | ResetTimer(a: T.Addr, ms: nat, fromNow: bool, now: nat)

  datatype Move =
    | Work(step: S.Step)           // a step of the scheduler
    | Peek(t: int, now: nat)       // the idle fiber of worker t looks at the timers
    | Look(t: int)                 // and then at the count of pending events
    | Fire(t: int, now: nat, probe: T.Addr)   // it lists the expired timers and schedules their callbacks
    | Timers(op: TimerOp)          // an operation on a timer, by anybody
    | Root(t: int, leaves: bool)   // stop() lets the caller's thread run, or finds nothing to do
    | Io(t: int, io: Step)         // an operation of the I/O manager, by worker t or from outside

  predicate Idles(b: Whole, t: int) {
    t in b.sch.workers && b.sch.workers[t].pc.Idling?
  }

  ghost predicate CanMove(b: Whole, m: Move) {
    match m
    case Work(step) =>
      && S.Enabled(b.sch, step) && !step.RootEnter?
      && (step.IdleReturn? && step.terminate ==> step.t in b.looked)
      && (step.ScheduleInside? && Idles(b, step.t) ==> step.work.CbWork?)   // an expired timer's callback
    case Peek(t, _) => Idles(b, t) && T.Consistent(b.tm)
    case Look(t) => Idles(b, t) && t in b.peeked
    case Fire(t, _, _) => Idles(b, t) && T.Consistent(b.tm)
    case Timers(op) => T.Consistent(b.tm) && (if op.AddTimer? then op.a !in b.tm.heap else op.a in b.tm.heap)
    case Root(t, leaves) =>
      && S.Enabled(b.sch, S.RootEnter(t)) && (leaves ==> b.io.pending == 0 && b.tm.order == [])
    case Io(t, step) =>
      && Enabled(b.io, step) && Next(b.io, step).Done?
      && (step.Add? ==> t in b.sch.workers && b.sch.workers[t].pc.Running?)
      && (step.Reported? ==> Idles(b, t))
  }

  /** Who acts from its idle fiber is past its looks. */
  function Past(m: Move): set<int> {
    match m
    case Work(ScheduleInside(t, _, _)) => {t}
    case Work(IdleReturn(t, _)) => {t}
    case Io(t, Reported(_, _, _, _)) => {t}
    case Fire(t, _, _) => {t}
    case _ => {}
  }

  /** The tasks handed over go to the queue. */
  function Hand(s: S.State, jobs: seq<Job>): (r: S.State)
    ensures r.workers == s.workers
    decreases |jobs|
  {
    if jobs == [] then s
    else
      var work := if jobs[0].fiber.Some? then S.FiberWork(jobs[0].fiber.value)
                  else S.CbWork(if jobs[0].cb.Some? then jobs[0].cb.value else 0);
      Hand(S.Push(s, work, S.ANY), jobs[1..])
  }

  /** They go to its end, in their order, each as its fiber or else its callback, for any thread. */
  lemma {:induction false} HandQueues(s: S.State, jobs: seq<Job>)
    ensures var s' := Hand(s, jobs);
            && |s'.queue| == |s.queue| + |jobs| && s'.queue[..|s.queue|] == s.queue
            && (forall k :: |s.queue| <= k < |s'.queue| ==>
                  var task, job := s'.queue[k], jobs[k - |s.queue|];
                  && task.id == s.nextId + k - |s.queue| && task.thread == S.ANY
                  && (job.fiber.Some? ==> task.work == S.FiberWork(job.fiber.value))
                  && (job.fiber.None? && job.cb.Some? ==> task.work == S.CbWork(job.cb.value)))
            && s'.active == s.active && s'.done == s.done && s'.nextId == s.nextId + |jobs|
    decreases |jobs|
  {
    if jobs == [] {
      assert s.queue[..|s.queue|] == s.queue;
    } else {
      var work := if jobs[0].fiber.Some? then S.FiberWork(jobs[0].fiber.value)
                  else S.CbWork(if jobs[0].cb.Some? then jobs[0].cb.value else 0);
      var s1 := S.Push(s, work, S.ANY);
      HandQueues(s1, jobs[1..]);
      var q := Hand(s, jobs).queue;
      assert q[..|s.queue|] == q[..|s1.queue|][..|s.queue|];
      assert q[|s.queue|] == q[..|s1.queue|][|s.queue|];
    }
  }

  /** Callbacks as tasks. */
  function Callbacks(cbs: seq<Option<nat>>): (jobs: seq<Job>)
    ensures |jobs| == |cbs| && forall k :: 0 <= k < |cbs| ==> jobs[k] == Job(0, None, cbs[k], 0)
  {
    if cbs == [] then [] else [Job(0, None, cbs[0], 0)] + Callbacks(cbs[1..])
  }

  function AfterTimer(tm: T.State, op: TimerOp): T.State
    requires T.Consistent(tm) && (!op.AddTimer? ==> op.a in tm.heap)
  {
    var e := match op
             case AddTimer(a, ms, cb, recurring, created) => T.AddTimer(tm, a, ms, cb, recurring, created)
             case CancelTimer(a) => T.Cancel(tm, a)
             case RefreshTimer(a, now) => T.Refresh(tm, a, now)
             case ResetTimer(a, ms, fromNow, now) => T.Reset(tm, a, ms, fromNow, now);
    if e.Effect? then e.st else tm
  }

  ghost function Make(b: Whole, m: Move): Whole
    requires CanMove(b, m)
  {
    match m
    case Work(step) => b.(sch := S.Next(b.sch, step), peeked := b.peeked - Past(m), looked := b.looked - Past(m))
    case Peek(t, now) =>
      b.(tm := T.GetNext(b.tm, now).0, peeked := if b.tm.order == [] then b.peeked + {t} else b.peeked - {t},
         looked := b.looked - {t})
    case Look(t) => b.(peeked := b.peeked - {t}, looked := if b.io.pending == 0 then b.looked + {t} else b.looked - {t})
    case Fire(t, now, probe) =>
      var (tm, cbs) := T.ListExpired(b.tm, now, probe);
      b.(sch := Hand(b.sch, Callbacks(cbs)), tm := tm, peeked := b.peeked - Past(m), looked := b.looked - Past(m))
    case Timers(op) => b.(tm := AfterTimer(b.tm, op))
    case Root(t, leaves) => b.(sch := b.sch.(workers := S.Moved(b.sch, t, if leaves then S.Exited else S.Scanning)))
    case Io(_, step) =>
      var io := Next(b.io, step).st;
      Whole(Hand(b.sch, if |b.io.jobs| <= |io.jobs| then io.jobs[|b.io.jobs|..] else []), io, b.tm,
           b.peeked - Past(m), b.looked - Past(m))
  }

  /** What an I/O step hands over goes to the end of the queue, in that order, and nothing else does. */
  lemma HandedReachQueue(b: Whole, t: int, step: Step)
    requires Inv(b.io) && CanMove(b, Io(t, step))
    ensures var b' := Make(b, Io(t, step));
            var q, n := b'.sch.queue, |b.sch.queue|;
            && |b.io.jobs| <= |b'.io.jobs| && b'.io.jobs[..|b.io.jobs|] == b.io.jobs
            && |q| == n + |b'.io.jobs| - |b.io.jobs| && q[..n] == b.sch.queue
            && (forall k :: n <= k < |q| ==>
                  var job := b'.io.jobs[|b.io.jobs| + k - n];
                  && q[k].thread == S.ANY
                  && (job.fiber.Some? ==> q[k].work == S.FiberWork(job.fiber.value))
                  && (job.fiber.None? && job.cb.Some? ==> q[k].work == S.CbWork(job.cb.value)))
  {
    hide Inv, Next, Enabled, Hand;
    var io := Next(b.io, step).st;
    D.EvolvesStep(b.io, step);
    HandQueues(b.sch, io.jobs[|b.io.jobs|..]);
  }

  // ---------- What becomes of a registration ----------

  /** A step that ends the wait for event e of descriptor fd. */
  predicate Withdraws(step: Step, fd: nat, e: Event) {
    step == Del(fd, e, false) || step == Cancel(fd, e, false) || step == CancelEvery(fd, false)
  }

  predicate Answers(s: State, step: Step, fd: nat, e: Event) {
    && step.Reported? && step.fd == fd && !step.fails && fd < |s.fds|
    && Answered(s.fds[fd].events, step.reported, step.err).Has(e)
  }

  /** A registered event stays, with its context, unless it is withdrawn or answered. */
  lemma BitStep(s: State, step: Step, fd: nat, e: Event)
    requires Inv(s) && Enabled(s, step) && Next(s, step).Done? && fd < |s.fds| && s.fds[fd].events.Has(e)
    ensures var s' := Next(s, step).st;
            && fd < |s'.fds|
            && (s'.fds[fd].events.Has(e) <==> !Withdraws(step, fd, e) && !Answers(s, step, fd, e))
            && (s'.fds[fd].events.Has(e) ==> s'.fds[fd].Ctx(e) == s.fds[fd].Ctx(e))
  {
    hide Inv, Table, AddEvent, DelEvent, CancelEvent, CancelAll, Report;
    match step
    case Add(g, e', cb, me, fails) =>
      AddEventKeeps(s, g, e', cb, me, fails);
      TableRight(s, g);
    case Del(g, e', fails) => DelEventKeeps(s, g, e', fails);
    case Cancel(g, e', fails) => CancelEventKeeps(s, g, e', fails);
    case CancelEvery(g, fails) => CancelAllKeeps(s, g, fails);
    case Reported(g, reported, err, fails) => ReportKeeps(s, g, reported, err, fails);
  }

  /** A waiting registration goes on waiting unless it is withdrawn or answered. */
  lemma WaitStep(s: State, step: Step, fd: nat, e: Event, r: nat)
    requires Inv(s) && Enabled(s, step) && Next(s, step).Done? && LiveAt(s.fds, fd, e, r)
    ensures LiveAt(Next(s, step).st.fds, fd, e, r) <==> !Withdraws(step, fd, e) && !Answers(s, step, fd, e)
  {
    hide Inv, Next, Enabled, Withdraws, Answers;
    BitStep(s, step, fd, e);
  }

  lemma {:induction false} BitsPositive(fds: seq<Fd>, fd: nat, e: Event)
    requires fd < |fds| && fds[fd].events.Has(e)
    ensures Bits(fds) >= 1
    decreases |fds|
  {
    if fd < |fds| - 1 {
      BitsPositive(fds[..|fds| - 1], fd, e);
    }
  }

  /** A registration that no longer waits never waits again. */
  lemma NoReturn(s: State, step: Step, fd: nat, e: Event, r: nat)
    requires Inv(s) && Enabled(s, step) && Next(s, step).Done? && r < s.nextReg && !LiveAt(s.fds, fd, e, r)
    ensures !LiveAt(Next(s, step).st.fds, fd, e, r)
  {
    hide Inv, Next, Enabled, RegsRight, D.Evolves, LiveAt;
    StepKeeps(s, step);
    D.EvolvesStep(s, step);
    InvParts(s);
    InvParts(Next(s, step).st);
    NotBack(s, Next(s, step).st, fd, e, r);
  }

  lemma NotBack(s: State, s': State, fd: nat, e: Event, r: nat)
    requires D.Evolves(s, s') && RegsRight(s) && RegsRight(s') && r < s.nextReg && !LiveAt(s.fds, fd, e, r)
    ensures !LiveAt(s'.fds, fd, e, r)
  {
    assert Somewhere(s, r);
    OnePlace(s', r);
    hide RegsRight;
    var p :| Is(s, r, p);
    assert LiveAt(s'.fds, fd, e, r) ==> Is(s', r, Waiting(fd, e));
    if p.HandedOver? {
      assert s'.jobs[p.i] == s'.jobs[..|s.jobs|][p.i];
      assert Is(s', r, p);
    } else if p.Deleted? {
      assert s'.deleted[p.i] == s'.deleted[..|s.deleted|][p.i];
      assert Is(s', r, p);
    } else {
      MovedOn(s, s', p.fd, p.e, r);
    }
  }

  lemma MovedOn(s: State, s': State, g: nat, e: Event, r: nat)
    requires D.Evolves(s, s') && RegsRight(s') && LiveAt(s.fds, g, e, r)
    ensures forall fd: nat, e' :: Is(s', r, Waiting(fd, e')) ==> fd == g && e' == e
  {
    hide RegsRight;
    if D.Kept(s, s', g, e) {
      assert Is(s', r, Waiting(g, e));
    } else if D.Handed(s, s', g, e) {
      var i :| D.HandedAt(s, s', g, e, i);
      assert Is(s', r, HandedOver(i));
    } else {
      var i: nat :| DeletedAt(s', i, s.fds[g].Ctx(e).reg);
      assert Is(s', r, Deleted(i));
    }
    OnePlace(s', r);
  }

  // ---------- Workers that cannot leave ----------

  /** Idle fibers are entered only while they have not ended. */
  ghost predicate IdleRight(b: Whole) {
    forall t <- b.sch.workers :: b.sch.workers[t].pc.Idling? ==> !b.sch.workers[t].idleDone
  }

  /** The worker runs, and its idle fiber has not ended and has another look to make before it does. */
  predicate Staying(b: Whole, t: int) {
    && t in b.sch.workers && !b.sch.workers[t].idleDone && t !in b.looked
    && !b.sch.workers[t].pc.Exited? && !b.sch.workers[t].pc.NotStarted?
  }

  lemma MoveKeeps(b: Whole, m: Move)
    requires Inv(b.io) && IdleRight(b) && CanMove(b, m)
    ensures Inv(Make(b, m).io) && IdleRight(Make(b, m)) && b.io.nextReg <= Make(b, m).io.nextReg
  {
    hide Inv, Next, Enabled, S.FirstEligible, S.Without, D.Evolves, T.ListExpired, T.GetNext, Hand, AfterTimer, Callbacks;
    if m.Io? {
      StepKeeps(b.io, m.io);
      D.EvolvesStep(b.io, m.io);
      D.NumbersGrow(b.io, Next(b.io, m.io).st);
    }
  }

  /** A look that finds something pending, or anything but a look, leaves the worker staying. */
  lemma StayStep(b: Whole, m: Move, t: int)
    requires CanMove(b, m) && Staying(b, t) && (m == Look(t) ==> b.io.pending != 0)
    ensures Staying(Make(b, m), t)
  {
    hide Next, Enabled, S.FirstEligible, S.Without, T.ListExpired, T.GetNext, Hand, AfterTimer, Callbacks;
  }

  // ---------- Runs ----------

  ghost predicate Leads(b: Whole, moves: seq<Move>, b': Whole)
    decreases |moves|
  {
    if moves == [] then b' == b else CanMove(b, moves[0]) && Leads(Make(b, moves[0]), moves[1..], b')
  }

  ghost predicate Gone(b: Whole) {
    forall t :: !L.Live(b.sch, t)
  }

  /** Nobody looks at the count of pending events, and the event is not withdrawn. */
  predicate Quiet(moves: seq<Move>, fd: nat, e: Event) {
    forall k :: 0 <= k < |moves| ==> !moves[k].Look? && !(moves[k].Io? && Withdraws(moves[k].io, fd, e))
  }

  lemma {:induction false} LeadsKeeps(b: Whole, moves: seq<Move>, b': Whole)
    requires Inv(b.io) && IdleRight(b) && Leads(b, moves, b')
    ensures Inv(b'.io) && IdleRight(b')
    decreases |moves|
  {
    hide Inv, IdleRight, CanMove, Make;
    if moves != [] {
      MoveKeeps(b, moves[0]);
      LeadsKeeps(Make(b, moves[0]), moves[1..], b');
    }
  }

  lemma {:induction false} StaysWithoutLook(b: Whole, moves: seq<Move>, b': Whole, t: int)
    requires Leads(b, moves, b') && Staying(b, t) && forall k :: 0 <= k < |moves| ==> !moves[k].Look?
    ensures L.Live(b'.sch, t)
    decreases |moves|
  {
    hide CanMove, Make;
    if moves != [] {
      StayStep(b, moves[0], t);
      StaysWithoutLook(Make(b, moves[0]), moves[1..], b', t);
    }
  }

  lemma NotBackMove(b: Whole, m: Move, fd: nat, e: Event, r: nat)
    requires Inv(b.io) && CanMove(b, m) && r < b.io.nextReg && LiveAt(Make(b, m).io.fds, fd, e, r)
    ensures LiveAt(b.io.fds, fd, e, r)
  {
    hide Inv, Next, Enabled, LiveAt;
    if m.Io? && !LiveAt(b.io.fds, fd, e, r) {
      NoReturn(b.io, m.io, fd, e, r);
    }
  }

  /** What waits at the end has waited all along. */
  lemma {:induction false} WaitedBefore(b: Whole, moves: seq<Move>, b': Whole, fd: nat, e: Event, r: nat)
    requires Inv(b.io) && IdleRight(b) && Leads(b, moves, b') && r < b.io.nextReg && LiveAt(b'.io.fds, fd, e, r)
    ensures LiveAt(b.io.fds, fd, e, r)
    decreases |moves|
  {
    hide Inv, IdleRight, CanMove, Make, LiveAt;
    if moves != [] {
      MoveKeeps(b, moves[0]);
      WaitedBefore(Make(b, moves[0]), moves[1..], b', fd, e, r);
      NotBackMove(b, moves[0], fd, e, r);
    }
  }

  lemma SomethingPending(s: State, fd: nat, e: Event, r: nat)
    requires Inv(s) && LiveAt(s.fds, fd, e, r)
    ensures s.pending >= 1
  {
    BitsPositive(s.fds, fd, e);
  }

  /** While the event waits, every look finds it. */
  lemma {:induction false} StaysWhilePending(b: Whole, moves: seq<Move>, b': Whole, t: int, fd: nat, e: Event, r: nat)
    requires Inv(b.io) && IdleRight(b) && Leads(b, moves, b') && Staying(b, t)
    requires r < b.io.nextReg && LiveAt(b'.io.fds, fd, e, r)
    ensures L.Live(b'.sch, t)
    decreases |moves|
  {
    hide Inv, IdleRight, CanMove, Make, LiveAt;
    if moves != [] {
      WaitedBefore(b, moves, b', fd, e, r);
      SomethingPending(b.io, fd, e, r);
      MoveKeeps(b, moves[0]);
      StayStep(b, moves[0], t);
      StaysWhilePending(Make(b, moves[0]), moves[1..], b', t, fd, e, r);
    }
  }

  // ---------- Events that outlive the workers ----------

  lemma SurvivesMove(b: Whole, m: Move, fd: nat, e: Event, r: nat)
    requires Inv(b.io) && IdleRight(b) && CanMove(b, m) && LiveAt(b.io.fds, fd, e, r)
    requires !(m.Io? && Withdraws(m.io, fd, e))
    ensures LiveAt(Make(b, m).io.fds, fd, e, r) || (m.Io? && Staying(Make(b, m), m.t))
  {
    hide Inv, Next, LiveAt;
    if m.Io? {
      WaitStep(b.io, m.io, fd, e, r);
    }
  }

  lemma {:induction false} Survives(b: Whole, moves: seq<Move>, b': Whole, fd: nat, e: Event, r: nat)
    requires Inv(b.io) && IdleRight(b) && Leads(b, moves, b') && Gone(b')
    requires LiveAt(b.io.fds, fd, e, r) && Quiet(moves, fd, e)
    ensures LiveAt(b'.io.fds, fd, e, r)
    decreases |moves|
  {
    hide Inv, IdleRight, CanMove, Make, LiveAt, L.Live;
    if moves != [] {
      var b1 := Make(b, moves[0]);
      MoveKeeps(b, moves[0]);
      SurvivesMove(b, moves[0], fd, e, r);
      if LiveAt(b1.io.fds, fd, e, r) {
        Survives(b1, moves[1..], b', fd, e, r);
      } else {
        StaysWithoutLook(b1, moves[1..], b', moves[0].t);
      }
    }
  }

  lemma DisturbedMove(b: Whole, m: Move, fd: nat, e: Event, r: nat)
    requires Inv(b.io) && IdleRight(b) && CanMove(b, m) && LiveAt(b.io.fds, fd, e, r) && LiveAt(Make(b, m).io.fds, fd, e, r)
    ensures !(m.Io? && Withdraws(m.io, fd, e))
    ensures m.Look? ==> Staying(Make(b, m), m.t)
  {
    hide Inv, Next, LiveAt, Withdraws;
    if m.Io? {
      WaitStep(b.io, m.io, fd, e, r);
    }
    SomethingPending(b.io, fd, e, r);
  }

  lemma {:induction false} WasQuiet(b: Whole, moves: seq<Move>, b': Whole, fd: nat, e: Event, r: nat)
    requires Inv(b.io) && IdleRight(b) && Leads(b, moves, b') && Gone(b')
    requires r < b.io.nextReg && LiveAt(b'.io.fds, fd, e, r)
    ensures Quiet(moves, fd, e)
    decreases |moves|
  {
    hide Inv, IdleRight, CanMove, Make, LiveAt, L.Live, Withdraws;
    if moves != [] {
      var b1 := Make(b, moves[0]);
      WaitedBefore(b, moves, b', fd, e, r);
      MoveKeeps(b, moves[0]);
      WaitedBefore(b1, moves[1..], b', fd, e, r);
      DisturbedMove(b, moves[0], fd, e, r);
      WasQuiet(b1, moves[1..], b', fd, e, r);
      if moves[0].Look? {
        StaysWhilePending(b1, moves[1..], b', moves[0].t, fd, e, r);
      }
      assert forall k :: 1 <= k < |moves| ==> moves[k] == moves[1..][k - 1];
    }
  }

  ghost predicate Begins(b: Whole) {
    S.Initial(b.sch) && b.io == START && b.tm.heap == map[] && b.tm.order == [] && b.peeked == {} && b.looked == {}
  }

  /**
   Once the last worker has left, a registered event is still waiting exactly if, after it was
   registered, no idle fiber looked at the count of pending events and nobody withdrew it.
   */
  lemma OutlivesExactly(b0: Whole, before: seq<Move>, b: Whole, t: int, fd: nat, e: Event, cb: Option<nat>, me: Caller,
                        after: seq<Move>, b': Whole)
    requires Begins(b0) && Leads(b0, before, b)
    requires CanMove(b, Io(t, Add(fd, e, cb, me, false)))
    requires Leads(Make(b, Io(t, Add(fd, e, cb, me, false))), after, b') && Gone(b')
    ensures LiveAt(b'.io.fds, fd, e, b.io.nextReg) <==> Quiet(after, fd, e)
  {
    assert Inv(b0.io) && IdleRight(b0) by { StartInv(); }
    hide Inv, IdleRight, Leads, CanMove, Make, LiveAt, Gone, Quiet, Begins;
    LeadsKeeps(b0, before, b);
    var m := Io(t, Add(fd, e, cb, me, false));
    var b1 := Make(b, m);
    MoveKeeps(b, m);
    Registered(b, t, fd, e, cb, me);
    if Quiet(after, fd, e) {
      Survives(b1, after, b', fd, e, b.io.nextReg);
    }
    if LiveAt(b'.io.fds, fd, e, b.io.nextReg) {
      WasQuiet(b1, after, b', fd, e, b.io.nextReg);
    }
  }

  lemma Registered(b: Whole, t: int, fd: nat, e: Event, cb: Option<nat>, me: Caller)
    requires Inv(b.io) && CanMove(b, Io(t, Add(fd, e, cb, me, false)))
    ensures var io := Make(b, Io(t, Add(fd, e, cb, me, false))).io;
            LiveAt(io.fds, fd, e, b.io.nextReg) && b.io.nextReg < io.nextReg
  {
    hide AddEvent, Table;
    AddEventKeeps(b.io, fd, e, cb, me, false);
  }

  // ---------- A run that leaves an event behind ----------

  lemma {:induction false} LeadsThen(b: Whole, moves: seq<Move>, b1: Whole, m: Move)
    requires Leads(b, moves, b1) && CanMove(b1, m)
    ensures Leads(b, moves + [m], Make(b1, m))
    decreases |moves|
  {
    hide CanMove, Make;
    var more := moves + [m];
    if moves == [] {
      assert more[1..] == [];
    } else {
      assert more[1..] == moves[1..] + [m];
      LeadsThen(Make(b, moves[0]), moves[1..], b1, m);
    }
  }

  const NO_TIMERS: T.State := T.State(map[], [], false, 0)

  const FIRST: Whole := Whole(L.FIRST, START, NO_TIMERS, {}, {})

  lemma Continue(moves: seq<Move>, b: Whole, m: Move) returns (moves': seq<Move>, b': Whole)
    requires Leads(FIRST, moves, b) && CanMove(b, m)
    ensures Leads(FIRST, moves', b') && b' == Make(b, m)
  {
    LeadsThen(FIRST, moves, b, m);
    moves', b' := moves + [m], Make(b, m);
  }

  /** A step of the scheduler that ends no idle fiber, while nobody is between its looks. */
  lemma WorkMove(moves: seq<Move>, b: Whole, step: S.Step) returns (moves': seq<Move>, b': Whole)
    requires Leads(FIRST, moves, b) && b.peeked == {} && b.looked == {} && S.Enabled(b.sch, step)
    requires !step.RootEnter? && !step.IdleReturn? && !step.ScheduleInside?
    ensures Leads(FIRST, moves', b') && b' == b.(sch := S.Next(b.sch, step))
  {
    hide S.Enabled, S.Next;
    moves', b' := Continue(moves, b, Work(step));
  }

  /** The idle fiber of worker t finds no timers and then no events. */
  lemma LooksTwice(moves: seq<Move>, b: Whole, t: int) returns (moves': seq<Move>, b': Whole)
    requires Leads(FIRST, moves, b) && b.peeked == {} && b.looked == {} && b.tm == NO_TIMERS && b.io.pending == 0 && Idles(b, t)
    ensures Leads(FIRST, moves', b') && b' == b.(looked := {t})
  {
    hide Leads;
    moves', b' := Continue(moves, b, Peek(t, 0));
    moves', b' := Continue(moves', b', Look(t));
  }

  /** It looks at timers, events and tasks, finds nothing, and ends. */
  lemma IdleEnds(moves: seq<Move>, b: Whole, t: int) returns (moves': seq<Move>, b': Whole)
    requires Leads(FIRST, moves, b) && b.peeked == {} && b.looked == {} && b.tm == NO_TIMERS && b.io.pending == 0 && Idles(b, t)
    requires S.StopCondition(b.sch)
    ensures Leads(FIRST, moves', b') && b' == b.(sch := S.Next(b.sch, S.IdleReturn(t, true)))
  {
    hide Leads, S.Next, S.StopCondition;
    moves', b' := LooksTwice(moves, b, t);
    moves', b' := Continue(moves', b', Work(S.IdleReturn(t, true)));
  }

  lemma NoMoves(b: Whole)
    ensures Leads(b, [], b)
  {
  }

  lemma OneHasTask() returns (moves: seq<Move>, b: Whole)
    ensures Leads(FIRST, moves, b)
    ensures b == Whole(L.Two([], S.Picked(S.Task(0, S.FiberWork(0), S.ANY)), false, S.Scanning, false, map[0 := S.INIT], 1, false, 1, {}), START, NO_TIMERS, {}, {})
  {
    NoMoves(FIRST);
    hide Leads, START, CanMove, Make;
    moves, b := WorkMove([], FIRST, S.ScheduleOutside(S.FiberWork(0), S.ANY));
    moves, b := WorkMove(moves, b, S.Scan(1));
  }

  /** Fiber 0 is scheduled before stop() and run by worker 1; worker 2 is idle. */
  lemma OneRuns() returns (moves: seq<Move>, b: Whole)
    ensures Leads(FIRST, moves, b)
    ensures b == Whole(L.Two([], S.Running(S.Task(0, S.FiberWork(0), S.ANY), 0), false, S.Idling, false, map[0 := S.EXEC], 1, true, 1, {}), START, NO_TIMERS, {}, {})
  {
    hide Leads, START, CanMove, Make;
    moves, b := OneHasTask();
    moves, b := WorkMove(moves, b, S.SwapIn(1, 0));
    moves, b := WorkMove(moves, b, S.Scan(2));
    moves, b := WorkMove(moves, b, S.SetAutoStop);
    moves, b := WorkMove(moves, b, S.SetStopping);
  }

  lemma NothingPending()
    ensures START.pending == 0
  {
  }

  /** The fiber yields; in the gap the idle fiber of worker 2 ends. Then worker 2 runs the fiber. */
  lemma OneIdle() returns (moves: seq<Move>, b: Whole)
    ensures Leads(FIRST, moves, b)
    ensures b == Whole(L.Two([], S.Scanning, false, S.Running(S.Task(1, S.FiberWork(0), S.ANY), 0), true, map[0 := S.EXEC], 1, true, 2, {0}), START, NO_TIMERS, {}, {})
  {
    NothingPending();
    hide Leads, START, CanMove, Make;
    moves, b := OneRuns();
    moves, b := WorkMove(moves, b, S.SliceEnd(1, S.READY));
    moves, b := IdleEnds(moves, b, 2);
    moves, b := WorkMove(moves, b, S.Requeue(1));
    moves, b := WorkMove(moves, b, S.Scan(2));
    moves, b := WorkMove(moves, b, S.SwapIn(2, 0));
  }

  /** It yields again; in the gap the idle fiber of worker 1 ends too. */
  lemma NoneIdle() returns (moves: seq<Move>, b: Whole)
    ensures Leads(FIRST, moves, b)
    ensures b == Whole(L.Two([], S.Scanning, true, S.Back(S.Task(1, S.FiberWork(0), S.ANY), 0), true, map[0 := S.READY], 0, true, 2, {0}), START, NO_TIMERS, {}, {})
  {
    NothingPending();
    hide Leads, START, CanMove, Make;
    moves, b := OneIdle();
    moves, b := WorkMove(moves, b, S.Scan(1));
    moves, b := WorkMove(moves, b, S.SliceEnd(2, S.READY));
    moves, b := IdleEnds(moves, b, 1);
  }

  /** Worker 1 leaves; worker 2 queues the fiber again and runs it. */
  lemma LastOne() returns (moves: seq<Move>, b: Whole)
    ensures Leads(FIRST, moves, b)
    ensures b == Whole(L.Two([], S.Exited, true, S.Running(S.Task(2, S.FiberWork(0), S.ANY), 0), true, map[0 := S.EXEC], 1, true, 3, {0, 1}), START, NO_TIMERS, {}, {})
  {
    hide Leads, START, CanMove, Make;
    moves, b := NoneIdle();
    moves, b := WorkMove(moves, b, S.Scan(1));
    moves, b := WorkMove(moves, b, S.Requeue(2));
    moves, b := WorkMove(moves, b, S.Scan(2));
    moves, b := WorkMove(moves, b, S.SwapIn(2, 0));
  }

  lemma LastRegisters(me: Caller) returns (moves: seq<Move>, b: Whole)
    ensures Leads(FIRST, moves, b) && LiveAt(b.io.fds, 3, READ, 0) && b.io.pending == 1
    ensures b == Whole(L.Two([], S.Exited, true, S.Running(S.Task(2, S.FiberWork(0), S.ANY), 0), true, map[0 := S.EXEC], 1, true, 3, {0, 1}), b.io, NO_TIMERS, {}, {})
  {
    FirstEvent(me);
    hide Leads, START, AddEvent, Table, LiveAt;
    moves, b := LastOne();
    moves, b := Continue(moves, b, Io(2, Add(3, READ, None, me, false)));
  }

  /** The fiber registers for READ and parks; its worker, the last one, leaves with the event pending. */
  lemma EventLeftBehind(me: Caller)
    ensures Begins(FIRST)
    ensures exists moves, b :: Leads(FIRST, moves, b) && Gone(b) && LiveAt(b.io.fds, 3, READ, 0) && b.io.pending == 1
  {
    assert Begins(FIRST) by { assert S.At(L.FIRST, 1); }
    hide Leads, START, Make, CanMove, LiveAt, Begins;
    var moves, b := LastRegisters(me);
    moves, b := WorkMove(moves, b, S.SliceEnd(2, S.HOLD));
    moves, b := WorkMove(moves, b, S.Scan(2));
  }

  lemma FirstEvent(me: Caller)
    ensures 3 < |Table(START.fds, 3)|
    ensures var r := AddEvent(START, 3, READ, None, me, false);
            r.Done? && LiveAt(r.st.fds, 3, READ, 0) && r.st.pending == 1 && r.st.jobs == START.jobs == []
  {
  }
}
