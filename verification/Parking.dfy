/**
 Fibers that register an event and park: scheduler, I/O manager and timers together, with
 clients that keep a simple rule. No fiber is ever queued twice, and no SwapIn aborts.
 */
module Parking {
  import opened Wrappers
  import S = SchedulerModel
  import L = SchedulerLaws
  import F = SchedulerFibers
  import opened IoModel
  import opened IoLaws
  import D = DoIo
  import H = Shutdown
  import T = TimerModel

  /** registered: the fibers that have registered an event in the slice they are running. */
  datatype World = World(b: H.Whole, registered: set<nat>)

  /**
   What the code in the fibers does: a fiber is scheduled only to be started; it registers
   itself, at most once in a slice, and then parks; callbacks run in fibers of their own.
   */
  ghost predicate StepRule(w: World, step: S.Step)
    requires S.Enabled(w.b.sch, step)
  {
    match step
    case ScheduleOutside(work, _) => work.FiberWork? ==> work.fiber !in w.b.sch.fibers
    case ScheduleInside(_, work, _) => work.FiberWork? ==> work.fiber !in w.b.sch.fibers
    case SliceEnd(t, st) => w.b.sch.workers[t].pc.fiber in w.registered ==> st == S.HOLD
    case SwapIn(t, f) => w.b.sch.workers[t].pc.task.work.CbWork? && f in w.b.sch.fibers ==> w.b.sch.fibers[f] != S.INIT
    case _ => true
  }

  ghost predicate Rule(w: World, m: H.Move)
    requires H.CanMove(w.b, m)
  {
    match m
    case Work(step) => StepRule(w, step)
    case Io(t, step) =>
      step.Add? && step.cb.None? ==> step.me.fiber == w.b.sch.workers[t].pc.fiber && step.me.fiber !in w.registered
    case _ => true
  }

  ghost function Make(w: World, m: H.Move): World
    requires H.CanMove(w.b, m)
  {
    World(H.Make(w.b, m),
          match m
          case Work(step) => if step.SliceEnd? then w.registered - {w.b.sch.workers[step.t].pc.fiber} else w.registered
          case Io(_, step) =>
            if step.Add? && step.cb.None? && Next(w.b.io, step).ok then w.registered + {step.me.fiber} else w.registered
          case _ => w.registered)
  }

  // ---------- One booking for each fiber ----------

  predicate Waits(s: State, fd: nat, e: Event, f: nat) {
    fd < |s.fds| && s.fds[fd].events.Has(e) && s.fds[fd].Ctx(e).fiber == Some(f)
  }

  ghost predicate Awaits(s: State, f: nat) {
    exists fd: nat, e :: Waits(s, fd, e, f)
  }

  predicate Alive(s: S.State, f: nat) {
    f in s.fibers && s.fibers[f] != S.TERM && s.fibers[f] != S.EXCEPT
  }

  ghost predicate WaitsOnce(s: State) {
    forall fd: nat, e, fd': nat, e', f :: Waits(s, fd, e, f) && Waits(s, fd', e', f) ==> fd == fd' && e == e'
  }

  /** A fiber waits for one event, or is claimed once, or neither; and it is alive if it does. */
  ghost predicate BookedRight(w: World, f: nat) {
    && (Awaits(w.b.io, f) ==> !F.Claimed(w.b.sch, f))
    && (Awaits(w.b.io, f) || F.Claimed(w.b.sch, f) ==> Alive(w.b.sch, f))
  }

  /** A fiber that runs and has not registered is booked nowhere. */
  ghost predicate RunsFree(w: World, t: int, f: nat) {
    L.Runs(w.b.sch, t, f) && f !in w.registered ==> !F.Claimed(w.b.sch, f) && !Awaits(w.b.io, f)
  }

  ghost predicate Right(w: World) {
    && F.ClaimsRight(w.b.sch) && L.ExecRight(w.b.sch) && WaitsOnce(w.b.io)
    && (forall f: nat :: BookedRight(w, f))
    && (forall t, f: nat :: RunsFree(w, t, f))
  }

  // ---------- Steps of the scheduler ----------

  lemma RuleIsOrderly(w: World, step: S.Step)
    requires Right(w) && S.Enabled(w.b.sch, step) && StepRule(w, step)
    ensures F.Orderly(w.b.sch, step)
  {
    hide F.ClaimsRight, WaitsOnce, F.Claimed, Awaits;
    match step
    case ScheduleOutside(work, _) => assert work.FiberWork? ==> BookedRight(w, work.fiber);
    case ScheduleInside(_, work, _) => assert work.FiberWork? ==> BookedRight(w, work.fiber);
    case SliceEnd(t, st) =>
      assert L.Runs(w.b.sch, t, w.b.sch.workers[t].pc.fiber);
      assert RunsFree(w, t, w.b.sch.workers[t].pc.fiber);
    case SwapIn(t, f) => assert BookedRight(w, f);
    case _ =>
  }

  /** The fiber whose slice ends READY had not registered, so it was booked nowhere. */
  lemma YieldsFree(w: World, t: int, st: S.FiberState)
    requires Right(w) && S.Enabled(w.b.sch, S.SliceEnd(t, st)) && StepRule(w, S.SliceEnd(t, st)) && st != S.HOLD
    ensures var f := w.b.sch.workers[t].pc.fiber; !F.Claimed(w.b.sch, f) && !Awaits(w.b.io, f)
  {
    hide F.ClaimsRight, WaitsOnce, F.Claimed, Awaits;
    var f := w.b.sch.workers[t].pc.fiber;
    assert L.Runs(w.b.sch, t, f);
    assert RunsFree(w, t, f);
  }

  lemma WorkBooked(w: World, step: S.Step, f: nat)
    requires Right(w) && S.Enabled(w.b.sch, step) && StepRule(w, step)
    ensures Awaits(w.b.io, f) ==> !F.Claimed(S.Next(w.b.sch, step), f)
    ensures Awaits(w.b.io, f) || F.Claimed(S.Next(w.b.sch, step), f) ==> Alive(S.Next(w.b.sch, step), f)
  {
    hide F.ClaimsRight, WaitsOnce, F.Claimed, Awaits, S.FirstEligible, S.Without;
    assert BookedRight(w, f);
    if F.Claimed(S.Next(w.b.sch, step), f) {
      F.ClaimedAfter(w.b.sch, step, f);
    }
    if step.SliceEnd? && step.st != S.HOLD {
      YieldsFree(w, step.t, step.st);
    }
  }

  lemma WorkRuns(w: World, step: S.Step, t: int, f: nat)
    requires Right(w) && S.Enabled(w.b.sch, step) && StepRule(w, step) && F.Orderly(w.b.sch, step)
    requires L.Runs(S.Next(w.b.sch, step), t, f)
    requires f !in w.registered || (step.SliceEnd? && w.b.sch.workers[step.t].pc.fiber == f)
    ensures !F.Claimed(S.Next(w.b.sch, step), f) && !Awaits(w.b.io, f)
  {
    hide F.ClaimsRight, WaitsOnce, F.Claimed, Awaits, S.FirstEligible, S.Without, L.ExecRight;
    var s, s' := w.b.sch, S.Next(w.b.sch, step);
    assert BookedRight(w, f);
    if L.Runs(s, t, f) {
      assert RunsFree(w, t, f);
      F.RunsOnce(s, t, f);
      assert step.SliceEnd? ==> L.Runs(s, step.t, s.workers[step.t].pc.fiber);
      if F.Claimed(s', f) {
        F.ClaimedAfter(s, step, f);
        RunsIsKnown(s, t, f);
      }
    } else {
      F.SwappedIn(s, t, f);
      if s.workers[t].pc.task.work.FiberWork? {
        assert F.InHand(s, t, f);
        HandClaims(s, t, f);
      }
    }
  }

  lemma RunsIsKnown(s: S.State, t: int, f: nat)
    requires L.ExecRight(s) && L.Runs(s, t, f)
    ensures f in s.fibers
  {
  }

  lemma HandClaims(s: S.State, t: int, f: nat)
    requires F.InHand(s, t, f)
    ensures F.Claimed(s, f)
  {
  }

  lemma WorkKeeps(w: World, step: S.Step)
    requires Right(w) && H.CanMove(w.b, H.Work(step)) && Rule(w, H.Work(step))
    ensures Right(Make(w, H.Work(step)))
  {
    hide F.ClaimsRight, L.ExecRight, WaitsOnce, F.Claimed, Awaits, S.Next, S.Enabled, StepRule, F.Orderly;
    var w' := Make(w, H.Work(step));
    RuleIsOrderly(w, step);
    F.ClaimsStep(w.b.sch, step);
    L.ExecKeeps(w.b.sch, step);
    forall f: nat
      ensures BookedRight(w', f)
    {
      WorkBooked(w, step, f);
    }
    forall t, f: nat
      ensures RunsFree(w', t, f)
    {
      if L.Runs(w'.b.sch, t, f) && f !in w'.registered {
        WorkRuns(w, step, t, f);
      }
    }
  }

  /** Looks, timers and the caller's thread change no booking. */
  lemma OtherKeeps(w: World, m: H.Move)
    requires Right(w) && H.CanMove(w.b, m) && !m.Work? && !m.Io? && !m.Fire?
    ensures Right(Make(w, m))
  {
    hide H.AfterTimer;
    var w' := Make(w, m);
    F.ClaimsLess(w.b.sch, w'.b.sch);
    assert forall t, f :: L.Runs(w'.b.sch, t, f) <==> L.Runs(w.b.sch, t, f);
    assert forall t, f :: F.InHand(w'.b.sch, t, f) <==> F.InHand(w.b.sch, t, f);
    assert forall f :: F.Claimed(w'.b.sch, f) <==> F.Claimed(w.b.sch, f);
    hide F.ClaimsRight, WaitsOnce, F.Claimed, Awaits;
    forall f: nat
      ensures BookedRight(w', f)
    {
      assert BookedRight(w, f);
    }
    forall t, f: nat
      ensures RunsFree(w', t, f)
    {
      assert RunsFree(w, t, f);
    }
  }

  // ---------- Steps of the I/O manager ----------

  /** A context that belongs to an earlier registration is as it was. */
  lemma OldWait(s: State, s': State, fd: nat, e: Event)
    requires D.Evolves(s, s') && RegsRight(s) && RegsRight(s')
    requires fd < |s'.fds| && s'.fds[fd].events.Has(e) && s'.fds[fd].Ctx(e).reg < s.nextReg
    ensures fd < |s.fds| && s.fds[fd].events.Has(e) && s.fds[fd].Ctx(e) == s'.fds[fd].Ctx(e)
  {
    hide RegsRight, D.Evolves;
    var r := s'.fds[fd].Ctx(e).reg;
    assert Is(s', r, Waiting(fd, e));
    if !LiveAt(s.fds, fd, e, r) {
      H.NotBack(s, s', fd, e, r);
    }
    var p := D.Fate(s, s', fd, e, r);
    OnePlace(s', r);
  }

  /** A task handed over is what waited for some event, which no longer waits. */
  lemma NewJob(s: State, s': State, i: nat) returns (fd: nat, e: Event)
    requires D.Evolves(s, s') && RegsRight(s) && RegsRight(s')
    requires |s.jobs| <= i < |s'.jobs| && s'.jobs[i].reg < s.nextReg
    ensures fd < |s.fds| && s.fds[fd].events.Has(e) && JobOf(s.fds[fd].Ctx(e)) == s'.jobs[i]
    ensures !LiveAt(s'.fds, fd, e, s'.jobs[i].reg)
  {
    var r := s'.jobs[i].reg;
    assert Somewhere(s, r);
    OnePlace(s', r);
    hide RegsRight, D.Evolves;
    assert Is(s', r, HandedOver(i));
    var p :| Is(s, r, p);
    if !p.Waiting? {
      D.Settled(s, s', r, p);
    }
    fd, e := p.fd, p.e;
    var q := D.Fate(s, s', fd, e, r);
    assert LiveAt(s'.fds, fd, e, r) ==> Is(s', r, Waiting(fd, e));
  }

  lemma SameNumbers(s: State, step: Step)
    requires Enabled(s, step) && Next(s, step).Done? && !step.Add?
    ensures Next(s, step).st.nextReg == s.nextReg
  {
  }

  predicate Hands(job: Job, f: nat) {
    job.fiber == Some(f)
  }

  /** The tasks of a step that registers nothing: fibers that waited and no longer do, each once. */
  ghost predicate HandsRight(s: State, s': State, jobs: seq<Job>) {
    && (forall f :: Awaits(s', f) ==> Awaits(s, f))
    && (forall k, f :: 0 <= k < |jobs| && Hands(jobs[k], f) ==> Awaits(s, f) && !Awaits(s', f))
    && (forall k, l, f :: 0 <= k < |jobs| && 0 <= l < |jobs| && Hands(jobs[k], f) && Hands(jobs[l], f) ==> k == l)
  }

  lemma StillWaits(s: State, s': State, fd: nat, e: Event, f: nat)
    requires D.Evolves(s, s') && RegsRight(s) && RegsRight(s') && s'.nextReg == s.nextReg && Waits(s', fd, e, f)
    ensures Waits(s, fd, e, f) && s.fds[fd].Ctx(e) == s'.fds[fd].Ctx(e)
  {
    assert Is(s', s'.fds[fd].Ctx(e).reg, Waiting(fd, e));
    hide D.Evolves, RegsRight;
    RegBelow(s', s'.fds[fd].Ctx(e).reg, Waiting(fd, e));
    OldWait(s, s', fd, e);
  }

  lemma RegBelow(s: State, r: nat, p: Place)
    requires RegsRight(s) && Is(s, r, p)
    ensures r < s.nextReg
  {
  }

  /** A fiber that is handed over waited for that event alone, and has stopped. */
  lemma HandedFiber(s: State, s': State, i: nat, f: nat) returns (fd: nat, e: Event)
    requires D.Evolves(s, s') && RegsRight(s) && RegsRight(s') && s'.nextReg == s.nextReg && WaitsOnce(s)
    requires |s.jobs| <= i < |s'.jobs| && Hands(s'.jobs[i], f)
    ensures Waits(s, fd, e, f) && s.fds[fd].Ctx(e).reg == s'.jobs[i].reg && !Awaits(s', f)
  {
    hide D.Evolves, RegsRight;
    assert Is(s', s'.jobs[i].reg, HandedOver(i));
    RegBelow(s', s'.jobs[i].reg, HandedOver(i));
    fd, e := NewJob(s, s', i);
    assert Waits(s, fd, e, f);
    forall fd': nat, e'
      ensures !Waits(s', fd', e', f)
    {
      if Waits(s', fd', e', f) {
        StillWaits(s, s', fd', e', f);
      }
    }
  }

  lemma TasksHand(s: State, s': State)
    requires D.Evolves(s, s') && RegsRight(s) && RegsRight(s') && s'.nextReg == s.nextReg && WaitsOnce(s)
    requires |s.jobs| <= |s'.jobs|
    ensures WaitsOnce(s') && HandsRight(s, s', s'.jobs[|s.jobs|..])
  {
    hide D.Evolves, RegsRight;
    var n, jobs := |s.jobs|, s'.jobs[|s.jobs|..];
    forall fd: nat, e, f | Waits(s', fd, e, f)
      ensures Waits(s, fd, e, f)
    {
      StillWaits(s, s', fd, e, f);
    }
    forall k, f | 0 <= k < |jobs| && Hands(jobs[k], f)
      ensures Awaits(s, f) && !Awaits(s', f)
    {
      var fd, e := HandedFiber(s, s', n + k, f);
    }
    forall k, l, f | 0 <= k < |jobs| && 0 <= l < |jobs| && Hands(jobs[k], f) && Hands(jobs[l], f)
      ensures k == l
    {
      HandedOnce(s, s', n + k, n + l, f);
    }
  }

  lemma HandedOnce(s: State, s': State, i: nat, j: nat, f: nat)
    requires D.Evolves(s, s') && RegsRight(s) && RegsRight(s') && s'.nextReg == s.nextReg && WaitsOnce(s)
    requires |s.jobs| <= i < |s'.jobs| && |s.jobs| <= j < |s'.jobs| && Hands(s'.jobs[i], f) && Hands(s'.jobs[j], f)
    ensures i == j
  {
    hide D.Evolves, RegsRight;
    var fd, e := HandedFiber(s, s', i, f);
    var fd', e' := HandedFiber(s, s', j, f);
    assert Is(s', s'.jobs[i].reg, HandedOver(i)) && Is(s', s'.jobs[j].reg, HandedOver(j));
    OnePlace(s', s'.jobs[i].reg);
  }

  lemma StepHands(s: State, step: Step)
    requires Inv(s) && WaitsOnce(s) && Enabled(s, step) && Next(s, step).Done? && !step.Add?
    ensures var s' := Next(s, step).st;
            && |s.jobs| <= |s'.jobs| && WaitsOnce(s') && HandsRight(s, s', s'.jobs[|s.jobs|..])
  {
    hide Next, Enabled, Inv, D.Evolves, RegsRight, WaitsOnce, HandsRight;
    var s' := Next(s, step).st;
    SameNumbers(s, step);
    StepKeeps(s, step);
    D.EvolvesStep(s, step);
    D.JobsGrow(s, s');
    InvParts(s);
    InvParts(s');
    TasksHand(s, s');
  }

  // ---------- The tasks go to the queue ----------

  ghost predicate Handed(jobs: seq<Job>, f: nat) {
    exists k :: 0 <= k < |jobs| && Hands(jobs[k], f)
  }

  lemma PushClaims(s: S.State, work: S.Work, f: nat)
    ensures F.Claimed(S.Push(s, work, S.ANY), f) <==> F.Claimed(s, f) || work == S.FiberWork(f)
  {
    F.QueuedPush(s.queue, S.Task(s.nextId, work, S.ANY), f);
    assert forall t :: F.InHand(S.Push(s, work, S.ANY), t, f) <==> F.InHand(s, t, f);
  }

  lemma PushExec(s: S.State, work: S.Work)
    requires L.ExecRight(s)
    ensures L.ExecRight(S.Push(s, work, S.ANY))
  {
    var s' := S.Push(s, work, S.ANY);
    assert forall t, f :: L.Runs(s', t, f) <==> L.Runs(s, t, f);
  }

  function WorkOf(job: Job): S.Work {
    if job.fiber.Some? then S.FiberWork(job.fiber.value) else S.CbWork(if job.cb.Some? then job.cb.value else 0)
  }

  lemma {:induction false} HandKeeps(s: S.State, jobs: seq<Job>)
    requires F.ClaimsRight(s) && L.ExecRight(s)
    requires forall k, f :: 0 <= k < |jobs| && Hands(jobs[k], f) ==> !F.Claimed(s, f) && f in s.fibers
    requires forall k, l, f :: 0 <= k < |jobs| && 0 <= l < |jobs| && Hands(jobs[k], f) && Hands(jobs[l], f) ==> k == l
    ensures F.ClaimsRight(H.Hand(s, jobs)) && L.ExecRight(H.Hand(s, jobs)) && H.Hand(s, jobs).fibers == s.fibers
    ensures forall f :: F.Claimed(H.Hand(s, jobs), f) <==> F.Claimed(s, f) || Handed(jobs, f)
    decreases |jobs|
  {
    hide F.ClaimsRight, L.ExecRight, F.Claimed;
    if jobs != [] {
      var s1 := S.Push(s, WorkOf(jobs[0]), S.ANY);
      var rest := jobs[1..];
      if jobs[0].fiber.Some? {
        assert Hands(jobs[0], jobs[0].fiber.value);
      }
      F.ClaimsPush(s, WorkOf(jobs[0]), S.ANY);
      PushExec(s, WorkOf(jobs[0]));
      forall f
        ensures F.Claimed(s1, f) <==> F.Claimed(s, f) || Hands(jobs[0], f)
      {
        PushClaims(s, WorkOf(jobs[0]), f);
      }
      forall k, f | 0 <= k < |rest| && Hands(rest[k], f)
        ensures !F.Claimed(s1, f) && f in s1.fibers
      {
        assert Hands(jobs[k + 1], f);
      }
      HandKeeps(s1, rest);
      forall f
        ensures Handed(jobs, f) <==> Hands(jobs[0], f) || Handed(rest, f)
      {
        if k :| 0 <= k < |rest| && Hands(rest[k], f) {
          assert Hands(jobs[k + 1], f);
        }
        if k :| 0 <= k < |jobs| && Hands(jobs[k], f) {
          assert k == 0 || Hands(rest[k - 1], f);
        }
      }
    }
  }

  /** Reports, cancellations and deletions: bookings move to the queue or end. */
  lemma TriggerKeeps(w: World, t: int, step: Step)
    requires Right(w) && Inv(w.b.io) && H.CanMove(w.b, H.Io(t, step)) && !step.Add?
    ensures Right(Make(w, H.Io(t, step)))
  {
    hide F.ClaimsRight, L.ExecRight, F.Claimed, Awaits, WaitsOnce, Inv, Next, Enabled;
    var io, sch := w.b.io, w.b.sch;
    StepHands(io, step);
    var w' := Make(w, H.Io(t, step));
    var jobs := w'.b.io.jobs[|io.jobs|..];
    forall k, f | 0 <= k < |jobs| && Hands(jobs[k], f)
      ensures !F.Claimed(sch, f) && f in sch.fibers
    {
      assert BookedRight(w, f);
    }
    HandKeeps(sch, jobs);
    forall f: nat
      ensures BookedRight(w', f)
    {
      assert BookedRight(w, f);
    }
    forall u, f: nat
      ensures RunsFree(w', u, f)
    {
      assert RunsFree(w, u, f);
      assert L.Runs(w'.b.sch, u, f) <==> L.Runs(sch, u, f);
    }
  }

  /** Callbacks of expired timers book no fiber. */
  lemma FireKeeps(w: World, t: int, now: nat, probe: T.Addr)
    requires Right(w) && H.CanMove(w.b, H.Fire(t, now, probe))
    ensures Right(Make(w, H.Fire(t, now, probe)))
  {
    hide F.ClaimsRight, L.ExecRight, F.Claimed, Awaits, WaitsOnce, T.ListExpired;
    var w' := Make(w, H.Fire(t, now, probe));
    var jobs := H.Callbacks(T.ListExpired(w.b.tm, now, probe).1);
    HandKeeps(w.b.sch, jobs);
    forall f: nat
      ensures BookedRight(w', f)
    {
      assert BookedRight(w, f);
    }
    forall u, f: nat
      ensures RunsFree(w', u, f)
    {
      assert RunsFree(w, u, f);
      assert L.Runs(w'.b.sch, u, f) <==> L.Runs(w.b.sch, u, f);
    }
  }

  /** A registration: every context but the new one is as it was. */
  lemma AddWaits(s: State, fd: nat, e: Event, cb: Option<nat>, me: Caller, fails: bool, g: nat, e': Event, f: nat)
    requires Inv(s) && fd < |Table(s.fds, fd)| && AddEvent(s, fd, e, cb, me, fails).Done?
    requires Waits(AddEvent(s, fd, e, cb, me, fails).st, g, e', f)
    ensures Waits(s, g, e', f) || (g == fd && e' == e && cb.None? && f == me.fiber && AddEvent(s, fd, e, cb, me, fails).ok)
  {
    TableRight(s, fd);
    hide Inv, Table;
  }

  lemma AddKeeps(w: World, t: int, fd: nat, e: Event, cb: Option<nat>, me: Caller, fails: bool)
    requires Right(w) && Inv(w.b.io)
    requires H.CanMove(w.b, H.Io(t, Add(fd, e, cb, me, fails))) && Rule(w, H.Io(t, Add(fd, e, cb, me, fails)))
    ensures Right(Make(w, H.Io(t, Add(fd, e, cb, me, fails))))
  {
    hide F.ClaimsRight, L.ExecRight, F.Claimed, Inv, AddEvent, Table, Waits;
    var io, sch := w.b.io, w.b.sch;
    AddEventKeeps(io, fd, e, cb, me, fails);
    var w' := Make(w, H.Io(t, Add(fd, e, cb, me, fails)));
    assert w'.b.sch == sch;
    assert L.Runs(sch, t, sch.workers[t].pc.fiber);
    RunsAlive(sch, t, sch.workers[t].pc.fiber);
    assert RunsFree(w, t, sch.workers[t].pc.fiber);
    forall g: nat, e', f | Waits(w'.b.io, g, e', f)
      ensures Waits(io, g, e', f) || (g == fd && e' == e && cb.None? && f == me.fiber && f in w'.registered)
    {
      AddWaits(io, fd, e, cb, me, fails, g, e', f);
    }
    forall f: nat
      ensures BookedRight(w', f)
    {
      assert BookedRight(w, f);
    }
    forall u, f: nat
      ensures RunsFree(w', u, f)
    {
      assert RunsFree(w, u, f);
    }
  }

  lemma RunsAlive(s: S.State, t: int, f: nat)
    requires L.ExecRight(s) && L.Runs(s, t, f)
    ensures Alive(s, f)
  {
  }

  // ---------- Runs ----------

  ghost predicate Leads(w: World, moves: seq<H.Move>, w': World)
    decreases |moves|
  {
    if moves == [] then w' == w
    else H.CanMove(w.b, moves[0]) && Rule(w, moves[0]) && Leads(Make(w, moves[0]), moves[1..], w')
  }

  lemma MoveKeeps(w: World, m: H.Move)
    requires Right(w) && Inv(w.b.io) && H.IdleRight(w.b) && H.CanMove(w.b, m) && Rule(w, m)
    ensures Right(Make(w, m)) && Inv(Make(w, m).b.io) && H.IdleRight(Make(w, m).b)
  {
    H.MoveKeeps(w.b, m);
    hide Right, Inv, H.IdleRight;
    match m
    case Work(step) => WorkKeeps(w, step);
    case Io(t, step) =>
      if step.Add? { AddKeeps(w, t, step.fd, step.e, step.cb, step.me, step.fails); } else { TriggerKeeps(w, t, step); }
    case Fire(t, now, probe) => FireKeeps(w, t, now, probe);
    case _ => OtherKeeps(w, m);
  }

  lemma {:induction false} LeadsKeeps(w: World, moves: seq<H.Move>, w': World)
    requires Right(w) && Inv(w.b.io) && H.IdleRight(w.b) && Leads(w, moves, w')
    ensures Right(w') && Inv(w'.b.io)
    decreases |moves|
  {
    hide Right, Inv, H.IdleRight, H.CanMove, Rule, Make;
    if moves != [] {
      MoveKeeps(w, moves[0]);
      LeadsKeeps(Make(w, moves[0]), moves[1..], w');
    }
  }

  lemma BeginRight(w: World)
    requires H.Begins(w.b) && w.registered == {}
    ensures Right(w) && Inv(w.b.io) && H.IdleRight(w.b)
  {
    StartInv();
    hide Inv;
    assert forall fd: nat, e, f :: !Waits(w.b.io, fd, e, f);
    forall f: nat
      ensures BookedRight(w, f)
    {
    }
    forall t, f: nat
      ensures RunsFree(w, t, f)
    {
    }
  }

  /**
   If fibers keep the rule, then in every run of scheduler and I/O manager no fiber is queued
   or picked twice, none is queued while it waits, and no step that can be tried aborts.
   */
  lemma ParkingNeverAborts(w0: World, moves: seq<H.Move>, w: World, step: S.Step)
    requires H.Begins(w0.b) && w0.registered == {} && Leads(w0, moves, w)
    ensures F.ClaimsRight(w.b.sch) && forall f: nat :: Awaits(w.b.io, f) ==> !F.Claimed(w.b.sch, f)
    ensures S.Callable(w.b.sch, step) ==> S.Take(w.b.sch, step).Done?
  {
    BeginRight(w0);
    LeadsKeeps(w0, moves, w);
    hide Leads, Inv;
    forall f: nat
      ensures Awaits(w.b.io, f) ==> !F.Claimed(w.b.sch, f)
    {
      assert BookedRight(w, f);
    }
    if S.Callable(w.b.sch, step) && step.SwapIn? {
      assert w.b.sch.workers[step.t].pc.task.work.FiberWork? ==> F.InHand(w.b.sch, step.t, step.fiber);
    }
  }

  // ---------- A fiber that registers twice ----------

  /** Descriptor 3 waits for READ and WRITE with fiber 0, and nothing else waits. */
  ghost predicate BothWait(s: State) {
    && Inv(s) && 3 < |s.fds| && s.fds[3].events == Mask(true, true) && s.jobs == []
    && s.fds[3].read.fiber == Some(0) && s.fds[3].write.fiber == Some(0)
    && (forall g :: 0 <= g < |s.fds| && g != 3 ==> s.fds[g].events == NONE)
  }

  lemma TwoEvents(me: Caller) returns (s1: State, s2: State)
    requires me.fiber == 0
    ensures Enabled(START, Add(3, READ, None, me, false)) && Next(START, Add(3, READ, None, me, false)) == Done(s1, true)
    ensures Enabled(s1, Add(3, WRITE, None, me, false)) && Next(s1, Add(3, WRITE, None, me, false)) == Done(s2, true)
    ensures s1.jobs == [] && BothWait(s2)
  {
    StartInv();
    hide Inv, AddEvent, Table;
    AddEventKeeps(START, 3, READ, None, me, false);
    TableSame(START.fds, 3);
    s1 := AddEvent(START, 3, READ, None, me, false).st;
    TableSame(s1.fds, 3);
    AddEventKeeps(s1, 3, WRITE, None, me, false);
    s2 := AddEvent(s1, 3, WRITE, None, me, false).st;
    assert s2.fds[3].Ctx(READ) == s1.fds[3].Ctx(READ) == Entry(me, None, START.nextReg);
    assert s2.fds[3].Ctx(WRITE) == Entry(me, None, s1.nextReg);
  }

  lemma TableSame(fds: seq<Fd>, fd: nat)
    ensures fd < |fds| ==> Table(fds, fd) == fds
  {
  }

  /** A report of both hands the fiber over twice. */
  lemma BothHanded(s: State)
    requires BothWait(s)
    ensures Enabled(s, Reported(3, Mask(true, true), false, false)) && Next(s, Reported(3, Mask(true, true), false, false)).Done?
    ensures var jobs := Next(s, Reported(3, Mask(true, true), false, false)).st.jobs;
            s.jobs == [] && |jobs| == 2 && Hands(jobs[0], 0) && Hands(jobs[1], 0)
  {
    var step := Reported(3, Mask(true, true), false, false);
    ReportKeeps(s, 3, Mask(true, true), false, false);
    var s' := Next(s, step).st;
    SameNumbers(s, step);
    D.EvolvesStep(s, step);
    InvParts(s);
    InvParts(s');
    hide Inv, Next, D.Evolves, RegsRight, Report;
    forall i: nat | i < 2
      ensures Hands(s'.jobs[i], 0)
    {
      assert Is(s', s'.jobs[i].reg, HandedOver(i));
      RegBelow(s', s'.jobs[i].reg, HandedOver(i));
      var fd, e := NewJob(s, s', i);
      assert fd == 3;
    }
  }

  /** A registration by the fiber that worker t runs. */
  lemma AddMove(moves: seq<H.Move>, b: H.Whole, t: int, step: Step) returns (moves': seq<H.Move>, b': H.Whole)
    requires H.Leads(H.FIRST, moves, b) && b.peeked == {} && b.looked == {} && step.Add? && Enabled(b.io, step) && Next(b.io, step).Done?
    requires t in b.sch.workers && b.sch.workers[t].pc.Running? && Next(b.io, step).st.jobs == b.io.jobs
    ensures H.Leads(H.FIRST, moves', b') && b' == b.(io := Next(b.io, step).st)
  {
    hide Next, Enabled, H.Leads;
    moves', b' := H.Continue(moves, b, H.Io(t, step));
  }

  lemma RegisteredTwice(me: Caller) returns (moves: seq<H.Move>, b: H.Whole)
    requires me.fiber == 0
    ensures H.Leads(H.FIRST, moves, b) && BothWait(b.io)
    ensures b == H.Whole(L.Two([], S.Running(S.Task(0, S.FiberWork(0), S.ANY), 0), false, S.Scanning, false, map[0 := S.EXEC], 1, false, 1, {}), b.io, H.NO_TIMERS, {}, {})
  {
    var s1, s2 := TwoEvents(me);
    assert START.jobs == s1.jobs == s2.jobs;
    hide H.Leads, START, Inv, Next, Enabled, BothWait, H.CanMove, H.Make;
    moves, b := H.OneHasTask();
    moves, b := H.WorkMove(moves, b, S.SwapIn(1, 0));
    moves, b := AddMove(moves, b, 1, Add(3, READ, None, me, false));
    moves, b := AddMove(moves, b, 1, Add(3, WRITE, None, me, false));
  }

  /** Fiber 0 has registered for READ and WRITE in one slice and parked; worker 2 idles. */
  lemma ParkedTwice(me: Caller) returns (moves: seq<H.Move>, b: H.Whole)
    requires me.fiber == 0
    ensures H.Leads(H.FIRST, moves, b) && BothWait(b.io)
    ensures b == H.Whole(L.Two([], S.Scanning, false, S.Idling, false, map[0 := S.HOLD], 0, false, 1, {0}), b.io, H.NO_TIMERS, {}, {})
  {
    hide H.Leads, BothWait, H.CanMove, H.Make;
    moves, b := RegisteredTwice(me);
    moves, b := H.WorkMove(moves, b, S.SliceEnd(1, S.HOLD));
    moves, b := H.WorkMove(moves, b, S.Scan(2));
  }

  lemma HandTwo(s: S.State, jobs: seq<Job>)
    requires |jobs| == 2 && Hands(jobs[0], 0) && Hands(jobs[1], 0) && 0 in s.fibers
    ensures H.Hand(s, jobs) == s.(queue := s.queue + [S.Task(s.nextId, S.FiberWork(0), S.ANY), S.Task(s.nextId + 1, S.FiberWork(0), S.ANY)],
                                  nextId := s.nextId + 2)
  {
    assert jobs[1..] == [jobs[1]] && jobs[1..][1..] == [];
    var s1 := S.Push(s, S.FiberWork(0), S.ANY);
    assert H.Hand(s, jobs) == H.Hand(s1, jobs[1..]) == S.Push(s1, S.FiberWork(0), S.ANY);
  }

  /** The idle fiber of worker t handles a report and goes back. */
  lemma ReportMove(moves: seq<H.Move>, b: H.Whole, t: int, step: Step) returns (moves': seq<H.Move>, b': H.Whole)
    requires H.Leads(H.FIRST, moves, b) && b.peeked == {} && b.looked == {} && step.Reported? && Enabled(b.io, step) && Next(b.io, step).Done?
    requires H.Idles(b, t) && b.io.jobs == []
    ensures H.Leads(H.FIRST, moves', b') && H.Idles(b.(sch := H.Hand(b.sch, Next(b.io, step).st.jobs)), t)
    ensures b' == H.Whole(S.Next(H.Hand(b.sch, Next(b.io, step).st.jobs), S.IdleReturn(t, false)), Next(b.io, step).st, b.tm, {}, {})
  {
    hide Next, Enabled, H.Leads, H.Hand;
    assert Next(b.io, step).st.jobs[0..] == Next(b.io, step).st.jobs;
    moves', b' := H.Continue(moves, b, H.Io(t, step));
    moves', b' := H.Continue(moves', b', H.Work(S.IdleReturn(t, false)));
  }

  /** Worker 2 handles the report of both events: the fiber is queued twice. */
  lemma QueuedTwice(me: Caller) returns (moves: seq<H.Move>, b: H.Whole)
    requires me.fiber == 0
    ensures H.Leads(H.FIRST, moves, b)
    ensures b == H.Whole(L.Two([S.Task(1, S.FiberWork(0), S.ANY), S.Task(2, S.FiberWork(0), S.ANY)], S.Scanning, false,
                              S.Scanning, false, map[0 := S.HOLD], 0, false, 3, {0}), b.io, H.NO_TIMERS, {}, {})
  {
    hide H.Leads, H.CanMove, H.Make, BothWait, Inv, Next, Enabled, H.Hand, Hands;
    moves, b := ParkedTwice(me);
    var step := Reported(3, Mask(true, true), false, false);
    BothHanded(b.io);
    HandTwo(b.sch, Next(b.io, step).st.jobs);
    moves, b := ReportMove(moves, b, 2, step);
  }

  /** Whole workers pick it, and the second to swap it in aborts: the rule is needed. */
  lemma TwoEventsAbort(me: Caller)
    requires me.fiber == 0
    ensures exists moves, b :: H.Leads(H.FIRST, moves, b) && S.Callable(b.sch, S.SwapIn(2, 0)) && S.Take(b.sch, S.SwapIn(2, 0)) == S.AbortExec
  {
    hide H.Leads, H.CanMove, H.Make;
    var moves, b := QueuedTwice(me);
    moves, b := H.WorkMove(moves, b, S.Scan(1));
    moves, b := H.WorkMove(moves, b, S.Scan(2));
    moves, b := H.WorkMove(moves, b, S.SwapIn(1, 0));
  }
}
