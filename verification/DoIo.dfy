/**
 The client protocol of sylar/hook.cc's do_io: a call that would block arms a timer, registers
 its fiber for the event, parks, and is resumed by whatever consumes the registration: a
 report, its timer's callback, or a cancellation from elsewhere.
 */
module DoIo {
  import opened Wrappers
  import opened IoModel
  import opened IoLaws

  // ---------- What I/O steps do to registrations ----------

  /** What waited for event e of descriptor fd is among the tasks handed over since. */
  ghost predicate Handed(s: State, s': State, fd: nat, e: Event)
    requires fd < |s.fds|
  {
    exists i :: HandedAt(s, s', fd, e, i)
  }

  predicate HandedAt(s: State, s': State, fd: nat, e: Event, i: int)
    requires fd < |s.fds|
  {
    |s.jobs| <= i < |s'.jobs| && s'.jobs[i] == JobOf(s.fds[fd].Ctx(e))
  }

  predicate Kept(s: State, s': State, fd: nat, e: Event)
    requires fd < |s.fds|
  {
    fd < |s'.fds| && s'.fds[fd].events.Has(e) && s'.fds[fd].Ctx(e) == s.fds[fd].Ctx(e)
  }

  ghost predicate Dropped(s: State, s': State, fd: nat, e: Event)
    requires fd < |s.fds|
  {
    exists i: nat :: DeletedAt(s', i, s.fds[fd].Ctx(e).reg)
  }

  /** A registered event stays as it is, is handed over, or is deleted; the logs only grow. */
  ghost predicate Evolves(s: State, s': State) {
    && s.nextReg <= s'.nextReg
    && |s.jobs| <= |s'.jobs| && s'.jobs[..|s.jobs|] == s.jobs
    && |s.deleted| <= |s'.deleted| && s'.deleted[..|s.deleted|] == s.deleted
    && (forall fd: nat, e :: fd < |s.fds| && s.fds[fd].events.Has(e) ==>
          Kept(s, s', fd, e) || Handed(s, s', fd, e) || Dropped(s, s', fd, e))
  }

  lemma EvolvesTrigger(s: State, fd: nat, e: Event)
    requires ContextsRight(s) && RegsRight(s) && fd < |s.fds| && s.fds[fd].events.Has(e)
    ensures Trigger(s, fd, e).Some? && Evolves(s, Trigger(s, fd, e).value)
  {
    hide ContextsRight, RegsRight, Trigger, JobOf;
    TriggerSpec(s, fd, e);
    var s' := Trigger(s, fd, e).value;
    assert HandedAt(s, s', fd, e, |s.jobs|);
    forall g: nat, e' | g < |s.fds| && s.fds[g].events.Has(e')
      ensures Kept(s, s', g, e') || Handed(s, s', g, e')
    {
    }
  }

  lemma EvolvesThen(s: State, s1: State, s2: State)
    requires Evolves(s, s1) && Evolves(s1, s2)
    ensures Evolves(s, s2)
  {
    hide JobOf;
    assert s2.jobs[..|s.jobs|] == s2.jobs[..|s1.jobs|][..|s.jobs|];
    assert s2.deleted[..|s.deleted|] == s2.deleted[..|s1.deleted|][..|s.deleted|];
    forall fd: nat, e | fd < |s.fds| && s.fds[fd].events.Has(e)
      ensures Kept(s, s2, fd, e) || Handed(s, s2, fd, e) || Dropped(s, s2, fd, e)
    {
      if Kept(s, s1, fd, e) {
        if Handed(s1, s2, fd, e) {
          var i :| HandedAt(s1, s2, fd, e, i);
          assert HandedAt(s, s2, fd, e, i);
        }
      } else if Handed(s, s1, fd, e) {
        var i :| HandedAt(s, s1, fd, e, i);
        assert s2.jobs[i] == s2.jobs[..|s1.jobs|][i];
        assert HandedAt(s, s2, fd, e, i);
      } else {
        var i: nat :| DeletedAt(s1, i, s.fds[fd].Ctx(e).reg);
        assert s2.deleted[i] == s2.deleted[..|s1.deleted|][i];
        assert DeletedAt(s2, i, s.fds[fd].Ctx(e).reg);
      }
    }
  }

  /** States that differ in the count and the kernel's masks only. */
  lemma EvolvesSame(s: State, s': State)
    requires s' == s.(epoll := s'.epoll, pending := s'.pending)
    ensures Evolves(s, s')
  {
    assert s'.jobs[..|s.jobs|] == s.jobs && s'.deleted[..|s.deleted|] == s.deleted;
    assert forall fd: nat, e :: fd < |s.fds| && s.fds[fd].events.Has(e) ==> Kept(s, s', fd, e);
  }

  lemma EvolvesCounted(s: State, fd: nat, e: Event)
    requires ContextsRight(s) && RegsRight(s) && fd < |s.fds| && s.fds[fd].events.Has(e)
    ensures CountedTrigger(s, fd, e).Some? && Evolves(s, CountedTrigger(s, fd, e).value)
  {
    hide Evolves, Trigger, ContextsRight, RegsRight;
    EvolvesTrigger(s, fd, e);
    EvolvesSame(Trigger(s, fd, e).value, CountedTrigger(s, fd, e).value);
    EvolvesThen(s, Trigger(s, fd, e).value, CountedTrigger(s, fd, e).value);
  }

  lemma EvolvesTriggerAll(s: State, fd: nat, mask: Mask)
    requires ContextsRight(s) && RegsRight(s) && CountRight(s) && fd < |s.fds|
    requires mask.AndNot(s.fds[fd].events).Empty()
    ensures TriggerAll(s, fd, mask).Some? && Evolves(s, TriggerAll(s, fd, mask).value)
  {
    hide Evolves, Trigger, ContextsRight, RegsRight, CountRight, JobOf;
    EvolvesSame(s, s);
    var s1 := s;
    if mask.read {
      EvolvesCounted(s, fd, READ);
      TriggerSpec(s, fd, READ);
      s1 := CountedTrigger(s, fd, READ).value;
      PendingFree(Trigger(s, fd, READ).value, s1);
    }
    if mask.write {
      EvolvesCounted(s1, fd, WRITE);
      EvolvesThen(s, s1, CountedTrigger(s1, fd, WRITE).value);
    }
  }

  lemma EvolvesCancel(s: State, fd: nat, e: Event, fails: bool)
    requires Inv(s)
    ensures CancelEvent(s, fd, e, fails).Done? && Evolves(s, CancelEvent(s, fd, e, fails).st)
  {
    hide Evolves, Trigger, ContextsRight, RegsRight, CountRight, EpollRight;
    EvolvesSame(s, s);
    CancelEventKeeps(s, fd, e, fails);
    if CancelEvent(s, fd, e, fails).ok {
      var left := s.fds[fd].events.Minus(e);
      var m := s.(epoll := EpollCtl(s.epoll, DropOp(left), fd, left, fails).value);
      EvolvesSame(s, m);
      EpollFree(s, m);
      EvolvesCounted(m, fd, e);
      EvolvesThen(s, m, CancelEvent(s, fd, e, fails).st);
    }
  }

  lemma EvolvesStep(s: State, step: Step)
    requires Inv(s) && Enabled(s, step) && Next(s, step).Done?
    ensures Evolves(s, Next(s, step).st)
  {
    hide Evolves, TriggerAll, ContextsRight, RegsRight, CountRight, EpollRight, Table;
    EvolvesSame(s, s);
    var s' := Next(s, step).st;
    match step
    case Add(fd, e, cb, me, fails) => EvolvesAdd(s, fd, e, cb, me, fails);
    case Del(fd, e, fails) => EvolvesDel(s, fd, e, fails);
    case Cancel(fd, e, fails) => EvolvesCancel(s, fd, e, fails);
    case CancelEvery(fd, fails) =>
      if CancelAll(s, fd, fails).ok {
        var m := s.(epoll := EpollCtl(s.epoll, CTL_DEL, fd, NONE, fails).value);
        EvolvesSame(s, m);
        EpollFree(s, m);
        EvolvesTriggerAll(m, fd, s.fds[fd].events);
        EvolvesThen(s, m, s');
      }
    case Reported(fd, reported, err, fails) =>
      if Report(s, fd, reported, err, fails).ok {
        var actual := RealEvents(s.fds[fd], reported, err);
        var left := s.fds[fd].events.AndNot(actual);
        var m := s.(epoll := EpollCtl(s.epoll, DropOp(left), fd, left, fails).value);
        EvolvesSame(s, m);
        EpollFree(s, m);
        ReportKeeps(s, fd, reported, err, fails);
        EvolvesTriggerAll(m, fd, actual);
        EvolvesThen(s, m, s');
      }
  }

  lemma EvolvesAdd(s: State, fd: nat, e: Event, cb: Option<nat>, me: Caller, fails: bool)
    requires Inv(s) && fd < |Table(s.fds, fd)| && AddEvent(s, fd, e, cb, me, fails).Done?
    ensures Evolves(s, AddEvent(s, fd, e, cb, me, fails).st)
  {
    TableRight(s, fd);
    hide Inv, Table;
    var s' := AddEvent(s, fd, e, cb, me, fails).st;
    assert s'.jobs[..|s.jobs|] == s.jobs && s'.deleted[..|s.deleted|] == s.deleted;
    forall g: nat, e' | g < |s.fds| && s.fds[g].events.Has(e')
      ensures Kept(s, s', g, e')
    {
    }
  }

  lemma EvolvesDel(s: State, fd: nat, e: Event, fails: bool)
    requires Inv(s)
    ensures DelEvent(s, fd, e, fails).Done? && Evolves(s, DelEvent(s, fd, e, fails).st)
  {
    hide Inv;
    DelEventKeeps(s, fd, e, fails);
    var s' := DelEvent(s, fd, e, fails).st;
    assert s'.jobs[..|s.jobs|] == s.jobs;
    if DelEvent(s, fd, e, fails).ok {
      assert DeletedAt(s', |s.deleted|, s.fds[fd].Ctx(e).reg);
    } else {
      assert s'.deleted[..|s.deleted|] == s.deleted;
    }
    forall g: nat, e' | g < |s.fds| && s.fds[g].events.Has(e')
      ensures Kept(s, s', g, e') || Dropped(s, s', g, e')
    {
    }
  }

  /** What becomes of a registration that waits. */
  lemma Fate(s: State, s': State, fd: nat, e: Event, r: nat) returns (p: Place)
    requires Evolves(s, s') && LiveAt(s.fds, fd, e, r)
    ensures Is(s', r, p)
    ensures p.Waiting? ==> p == Waiting(fd, e) && s'.fds[fd].Ctx(e) == s.fds[fd].Ctx(e)
    ensures p.HandedOver? ==> s'.jobs[p.i] == JobOf(s.fds[fd].Ctx(e))
  {
    if Kept(s, s', fd, e) {
      p := Waiting(fd, e);
    } else if Handed(s, s', fd, e) {
      var i :| HandedAt(s, s', fd, e, i);
      p := HandedOver(i);
    } else {
      var i: nat :| DeletedAt(s', i, s.fds[fd].Ctx(e).reg);
      p := Deleted(i);
    }
  }

  /** What has been handed over or deleted stays so. */
  lemma Settled(s: State, s': State, r: nat, p: Place)
    requires Evolves(s, s') && Is(s, r, p) && !p.Waiting?
    ensures Is(s', r, p)
  {
    if p.HandedOver? {
      assert s'.jobs[p.i] == s'.jobs[..|s.jobs|][p.i];
    } else {
      assert s'.deleted[p.i] == s'.deleted[..|s.deleted|][p.i];
    }
  }

  /** Registration r is what addEvent was called with: it waits as that, or was handed over as that. */
  ghost predicate AsMade(s: State, r: nat, cb: Option<nat>, me: Caller) {
    && (forall fd: nat, e :: LiveAt(s.fds, fd, e, r) ==>
          s.fds[fd].Ctx(e) == Context(Some(me.scheduler), if cb.Some? then None else Some(me.fiber), cb, r))
    && (forall i: nat :: JobAt(s, i, r) ==>
          s.jobs[i] == Job(me.scheduler, if cb.Some? then None else Some(me.fiber), cb, r))
  }

  lemma AsMadeStep(s: State, s': State, r: nat, cb: Option<nat>, me: Caller)
    requires RegsRight(s) && RegsRight(s') && Evolves(s, s') && r < s.nextReg && AsMade(s, r, cb, me)
    ensures AsMade(s', r, cb, me)
  {
    assert Somewhere(s, r);
    OnePlace(s', r);
    hide RegsRight, Evolves;
    var p :| Is(s, r, p);
    var q := p;
    if p.Waiting? {
      q := Fate(s, s', p.fd, p.e, r);
    } else {
      Settled(s, s', r, p);
      if p.HandedOver? {
        JobKept(s, s', p.i);
      }
    }
    assert forall fd: nat, e :: LiveAt(s'.fds, fd, e, r) ==> Is(s', r, Waiting(fd, e));
    assert forall i: nat :: JobAt(s', i, r) ==> Is(s', r, HandedOver(i));
  }

  lemma JobKept(s: State, s': State, i: nat)
    requires Evolves(s, s') && i < |s.jobs|
    ensures i < |s'.jobs| && s'.jobs[i] == s.jobs[i]
  {
    assert s'.jobs[..|s.jobs|][i] == s.jobs[i];
  }

  lemma {:induction false} AsMadeRun(s: State, steps: seq<Step>, s': State, r: nat, cb: Option<nat>, me: Caller)
    requires Inv(s) && Reaches(s, steps, s') && r < s.nextReg && AsMade(s, r, cb, me)
    ensures AsMade(s', r, cb, me)
    decreases |steps|
  {
    hide Inv, Next, Enabled, AsMade, Evolves;
    if steps != [] {
      var s1 := Next(s, steps[0]).st;
      StepKeeps(s, steps[0]);
      EvolvesStep(s, steps[0]);
      InvParts(s);
      InvParts(s1);
      AsMadeStep(s, s1, r, cb, me);
      NumbersGrow(s, s1);
      AsMadeRun(s1, steps[1..], s', r, cb, me);
    }
  }

  lemma NumbersGrow(s: State, s': State)
    requires Evolves(s, s')
    ensures s.nextReg <= s'.nextReg
  {
  }

  lemma JustMade(s: State, fd: nat, e: Event, cb: Option<nat>, me: Caller)
    requires Inv(s) && fd < |Table(s.fds, fd)| && AddEvent(s, fd, e, cb, me, false).Done?
    ensures var s1 := AddEvent(s, fd, e, cb, me, false).st;
            Inv(s1) && s1.nextReg == s.nextReg + 1 && AsMade(s1, s.nextReg, cb, me)
  {
    AddEventKeeps(s, fd, e, cb, me, false);
    var s1 := AddEvent(s, fd, e, cb, me, false).st;
    assert s1.nextReg == s.nextReg + 1;
    InvParts(s1);
    hide AddEvent, Table, Inv;
    OnePlace(s1, s.nextReg);
    assert forall g: nat, e' :: LiveAt(s1.fds, g, e', s.nextReg) ==> Is(s1, s.nextReg, Waiting(g, e'));
    assert forall i: nat :: JobAt(s1, i, s.nextReg) ==> Is(s1, s.nextReg, HandedOver(i));
  }

  /**
   Whatever happens between: what is handed over for a registration is the callback, or else
   the fiber, of the addEvent that made it, and it goes to the scheduler that called.
   */
  lemma HandedAsMade(before: seq<Step>, s: State, fd: nat, e: Event, cb: Option<nat>, me: Caller, after: seq<Step>, s': State)
    requires Reaches(START, before, s) && fd < |Table(s.fds, fd)| && AddEvent(s, fd, e, cb, me, false).Done?
    requires Reaches(AddEvent(s, fd, e, cb, me, false).st, after, s')
    ensures forall i: nat :: JobAt(s', i, s.nextReg) ==>
              s'.jobs[i] == Job(me.scheduler, if cb.Some? then None else Some(me.fiber), cb, s.nextReg)
  {
    hide Inv, Reaches, AddEvent, Table;
    StartInv();
    RunKeeps(START, before, s);
    JustMade(s, fd, e, cb, me);
    AsMadeRun(AddEvent(s, fd, e, cb, me, false).st, after, s', s.nextReg, cb, me);
  }

  // ---------- The calls ----------

  datatype How =
    | Transferred   // the transfer went through
    | TimedOut      // -1 with ETIMEDOUT
    | Refused       // -1: the transfer failed, or the event could not be added

  datatype Phase =
    | Trying                // about to call the original function
    | Registering           // it would block; the timer, if any, is armed
    | Parked(reg: nat)      // the fiber has yielded
    | Returned(how: How)

  /** A call and its timer_info; `timer` is the timer of the current attempt. */
  datatype Call = Call(fd: nat, e: Event, me: Caller, timeout: bool, phase: Phase, cancelled: bool, timer: Option<nat>)

  /** Expired: the manager has taken the callback, which waits to run. */
  datatype TimerState = Armed(call: nat) | Expired(call: nat) | Fired(call: nat) | Over

  /** resumed: positions of the tasks that have been run. */
  datatype World = World(io: State, calls: map<nat, Call>, timers: seq<TimerState>, resumed: set<nat>)

  datatype Act =
    | Begin(c: nat, fd: nat, e: Event, me: Caller, timeout: bool)
    | Attempt(c: nat, blocks: bool, ok: bool)
    | Register(c: nat, fails: bool)
    | Expire(t: nat)
    | Callback(t: nat, fails: bool)
    | Resume(c: nat, i: nat)
    | Other(step: Step)     // reports, cancelAll on close, and all other users of the manager

  ghost predicate CanAct(w: World, a: Act) {
    match a
    case Begin(c, _, _, _, _) => c !in w.calls
    case Attempt(c, _, _) => c in w.calls && w.calls[c].phase.Trying?
    case Register(c, fails) =>
      && c in w.calls && w.calls[c].phase.Registering?
      && var call := w.calls[c];
      && call.fd < |Table(w.io.fds, call.fd)|
      && AddEvent(w.io, call.fd, call.e, None, call.me, fails).Done?
    case Expire(t) => t < |w.timers| && w.timers[t].Armed?
    case Callback(t, _) => t < |w.timers| && w.timers[t].Expired?
    case Resume(c, i) =>
      && c in w.calls && w.calls[c].phase.Parked? && i !in w.resumed
      && i < |w.io.jobs| && w.io.jobs[i].reg == w.calls[c].phase.reg
    case Other(step) => Enabled(w.io, step) && Next(w.io, step).Done?
  }

  function SetCall(w: World, c: nat, call: Call): World {
    w.(calls := w.calls[c := call])
  }

  /** timer->cancel(): a timer that has not expired is gone; one that has is left to its callback. */
  function CancelTimer(timers: seq<TimerState>, t: Option<nat>): seq<TimerState> {
    if t.Some? && t.value < |timers| && timers[t.value].Armed? then timers[t.value := Over] else timers
  }

  function AfterAttempt(w: World, c: nat, blocks: bool, ok: bool): World
    requires c in w.calls
  {
    var call := w.calls[c];
    if !blocks then SetCall(w, c, call.(phase := Returned(if ok then Transferred else Refused)))
    else if call.timeout then
      SetCall(w, c, call.(phase := Registering, timer := Some(|w.timers|))).(timers := w.timers + [Armed(c)])
    else SetCall(w, c, call.(phase := Registering, timer := None))
  }

  function AfterRegister(w: World, c: nat, r: Result): World
    requires c in w.calls && r.Done?
  {
    var call := w.calls[c];
    if r.ok then SetCall(w, c, call.(phase := Parked(w.io.nextReg))).(io := r.st)
    else SetCall(w, c, call.(phase := Returned(Refused))).(io := r.st, timers := CancelTimer(w.timers, call.timer))
  }

  /** The callback looks at the call only while it runs and has not been cancelled yet. */
  function AfterCallback(w: World, t: nat, fails: bool): World
    requires t < |w.timers| && w.timers[t].Expired?
  {
    var c := w.timers[t].call;
    if c !in w.calls || w.calls[c].phase.Returned? || w.calls[c].cancelled then w.(timers := w.timers[t := Over])
    else
      var call := w.calls[c];
      var r := CancelEvent(w.io, call.fd, call.e, fails);
      SetCall(w, c, call.(cancelled := true)).(io := if r.Done? then r.st else w.io, timers := w.timers[t := Fired(c)])
  }

  function AfterResume(w: World, c: nat, i: nat): World
    requires c in w.calls
  {
    var call := w.calls[c];
    SetCall(w, c, call.(phase := if call.cancelled then Returned(TimedOut) else Trying))
    .(timers := CancelTimer(w.timers, call.timer), resumed := w.resumed + {i})
  }

  ghost function Do(w: World, a: Act): World
    requires CanAct(w, a)
  {
    match a
    case Begin(c, fd, e, me, timeout) => SetCall(w, c, Call(fd, e, me, timeout, Trying, false, None))
    case Attempt(c, blocks, ok) => AfterAttempt(w, c, blocks, ok)
    case Register(c, fails) =>
      AfterRegister(w, c, AddEvent(w.io, w.calls[c].fd, w.calls[c].e, None, w.calls[c].me, fails))
    case Expire(t) => w.(timers := w.timers[t := Expired(w.timers[t].call)])
    case Callback(t, fails) => AfterCallback(w, t, fails)
    case Resume(c, i) => AfterResume(w, c, i)
    case Other(step) => w.(io := Next(w.io, step).st)
  }

  // ---------- What every interleaving keeps ----------

  predicate IsParked(w: World, c: nat, r: nat) {
    c in w.calls && w.calls[c].phase == Parked(r)
  }

  predicate WaitsFor(s: State, call: Call, r: nat) {
    && LiveAt(s.fds, call.fd, call.e, r)
    && s.fds[call.fd].Ctx(call.e) == Entry(call.me, None, r)
  }

  predicate TaskOf(s: State, call: Call, r: nat, i: nat) {
    i < |s.jobs| && s.jobs[i] == Job(call.me.scheduler, Some(call.me.fiber), None, r)
  }

  ghost predicate HasTask(s: State, call: Call, r: nat) {
    exists i: nat :: TaskOf(s, call, r, i)
  }

  ghost predicate Gone(s: State, r: nat) {
    exists i: nat :: DeletedAt(s, i, r)
  }

  /** The fiber waits for its event, or is queued on its scheduler, or its event was deleted. */
  ghost predicate NotLost(w: World, c: nat, r: nat)
    requires c in w.calls
  {
    && r < w.io.nextReg
    && (WaitsFor(w.io, w.calls[c], r) || HasTask(w.io, w.calls[c], r) || Gone(w.io, r))
    && (forall i <- w.resumed :: !JobAt(w.io, i, r))
  }

  ghost predicate ParkedRight(w: World) {
    && (forall c, r: nat :: IsParked(w, c, r) ==> NotLost(w, c, r))
    && (forall c, c', r: nat :: IsParked(w, c, r) && IsParked(w, c', r) ==> c == c')
    && (forall i <- w.resumed :: i < |w.io.jobs|)
  }

  predicate FiredFor(w: World, t: nat, c: nat) {
    t < |w.timers| && w.timers[t] == Fired(c)
  }

  /** A call is marked as timed out only by the callback of one of its own timers. */
  ghost predicate TimeoutsRight(w: World) {
    forall c <- w.calls :: w.calls[c].cancelled || w.calls[c].phase == Returned(TimedOut) ==> exists t :: FiredFor(w, t, c)
  }

  predicate Pending(w: World, t: nat, c: nat) {
    t < |w.timers| && (w.timers[t] == Armed(c) || w.timers[t] == Expired(c))
  }

  /** From arming its timer until it is resumed, a call that is not marked has its timer pending. */
  predicate DeadlineAt(w: World, c: nat)
    requires c in w.calls
  {
    var call := w.calls[c];
    && (call.timer.Some? ==> call.timer.value < |w.timers| && (w.timers[call.timer.value].Over? || w.timers[call.timer.value].call == c))
    && (call.timeout && (call.phase.Registering? || call.phase.Parked?) && !call.cancelled ==>
          call.timer.Some? && Pending(w, call.timer.value, c))
  }

  /** An armed timer is the timer of the current attempt of a call that waits or is about to. */
  predicate ArmedRight(w: World, t: nat) {
    t < |w.timers| && w.timers[t].Armed? ==>
      && w.timers[t].call in w.calls
      && var call := w.calls[w.timers[t].call];
      && call.timer == Some(t) && (call.phase.Registering? || call.phase.Parked?)
  }

  ghost predicate DeadlinesRight(w: World) {
    (forall c <- w.calls :: DeadlineAt(w, c)) && (forall t: nat :: ArmedRight(w, t))
  }

  ghost predicate WInv(w: World) {
    Inv(w.io) && ParkedRight(w) && TimeoutsRight(w)
  }

  /** A parked call that is itself untouched stays right when the manager makes a step. */
  lemma NotLostEvolves(w: World, w': World, c: nat, r: nat)
    requires c in w.calls && c in w'.calls && NotLost(w, c, r)
    requires w'.calls[c].fd == w.calls[c].fd && w'.calls[c].e == w.calls[c].e && w'.calls[c].me == w.calls[c].me
    requires Evolves(w.io, w'.io) && Inv(w'.io) && w'.resumed == w.resumed
    requires forall i <- w.resumed :: i < |w.io.jobs|
    ensures NotLost(w', c, r)
  {
    hide Inv;
    var s, s', call := w.io, w'.io, w'.calls[c];
    if WaitsFor(s, w.calls[c], r) {
      var fd, e := call.fd, call.e;
      if Handed(s, s', fd, e) {
        var i :| HandedAt(s, s', fd, e, i);
        assert TaskOf(s', call, r, i);
      }
    } else if HasTask(s, w.calls[c], r) {
      var i: nat :| TaskOf(s, w.calls[c], r, i);
      assert s'.jobs[i] == s'.jobs[..|s.jobs|][i];
      assert TaskOf(s', call, r, i);
    } else {
      var i: nat :| DeletedAt(s, i, r);
      assert s'.deleted[i] == s'.deleted[..|s.deleted|][i];
      assert DeletedAt(s', i, r);
    }
    forall i <- w'.resumed
      ensures !JobAt(s', i, r)
    {
      assert s'.jobs[i] == s'.jobs[..|s.jobs|][i];
      assert !JobAt(s, i, r);
    }
  }

  /** When the manager makes a step and no call moves, everybody parked stays right. */
  lemma ParkedEvolves(w: World, w': World)
    requires ParkedRight(w) && Evolves(w.io, w'.io) && Inv(w'.io) && w'.resumed == w.resumed
    requires w'.calls.Keys == w.calls.Keys
    requires forall c <- w.calls :: w'.calls[c] == w.calls[c].(cancelled := w'.calls[c].cancelled)
    ensures ParkedRight(w')
  {
    hide Inv, NotLost, Evolves;
    forall c, r: nat | IsParked(w', c, r)
      ensures NotLost(w', c, r)
    {
      assert IsParked(w, c, r);
      NotLostEvolves(w, w', c, r);
    }
    assert forall c, r: nat :: IsParked(w', c, r) ==> IsParked(w, c, r);
    JobsGrow(w.io, w'.io);
  }

  lemma JobsGrow(s: State, s': State)
    requires Evolves(s, s')
    ensures |s.jobs| <= |s'.jobs|
  {
  }

  /** Timers that fired stay on record, and calls keep their marks, or were marked by a timer. */
  lemma TimeoutsKept(w: World, w': World)
    requires TimeoutsRight(w) && |w.timers| <= |w'.timers|
    requires forall t :: 0 <= t < |w.timers| && w.timers[t].Fired? ==> w'.timers[t] == w.timers[t]
    requires forall c <- w'.calls :: w'.calls[c].cancelled || w'.calls[c].phase == Returned(TimedOut) ==>
               (c in w.calls && (w.calls[c].cancelled || w.calls[c].phase == Returned(TimedOut)))
               || exists t :: FiredFor(w', t, c)
    ensures TimeoutsRight(w')
  {
    forall c <- w'.calls | w'.calls[c].cancelled || w'.calls[c].phase == Returned(TimedOut)
      ensures exists t :: FiredFor(w', t, c)
    {
      if !exists t :: FiredFor(w', t, c) {
        var t :| FiredFor(w, t, c);
        assert FiredFor(w', t, c);
      }
    }
  }

  lemma OtherKeeps(w: World, step: Step)
    requires WInv(w) && CanAct(w, Other(step))
    ensures WInv(Do(w, Other(step)))
  {
    hide Inv, ParkedRight, Evolves, Next, Enabled;
    StepKeeps(w.io, step);
    EvolvesStep(w.io, step);
    ParkedEvolves(w, Do(w, Other(step)));
    TimeoutsKept(w, Do(w, Other(step)));
  }

  lemma CallbackKeeps(w: World, t: nat, fails: bool)
    requires WInv(w) && CanAct(w, Callback(t, fails))
    ensures WInv(Do(w, Callback(t, fails)))
  {
    hide Inv, ParkedRight, Evolves, CancelEvent;
    var w', c := AfterCallback(w, t, fails), w.timers[t].call;
    EvolvesSame(w.io, w.io);
    if w'.timers[t].Fired? {
      CancelEventKeeps(w.io, w.calls[c].fd, w.calls[c].e, fails);
      EvolvesCancel(w.io, w.calls[c].fd, w.calls[c].e, fails);
      assert FiredFor(w', t, c);
    }
    ParkedEvolves(w, w');
    TimeoutsKept(w, w');
  }

  /** Calls that are not parked, before and after, do not matter to those that are. */
  lemma ParkedAside(w: World, w': World, c: nat)
    requires ParkedRight(w) && w'.io == w.io && w'.resumed == w.resumed
    requires forall d :: d != c ==> (d in w'.calls <==> d in w.calls)
    requires forall d <- w.calls :: d != c ==> w'.calls[d] == w.calls[d]
    requires c in w'.calls && !w'.calls[c].phase.Parked?
    ensures ParkedRight(w')
  {
    hide WaitsFor, TaskOf, DeletedAt, JobAt;
    assert forall d, r: nat :: IsParked(w', d, r) ==> IsParked(w, d, r) && d != c;
    forall d, r: nat | IsParked(w', d, r)
      ensures NotLost(w', d, r)
    {
      assert NotLost(w, d, r);
    }
  }

  lemma AttemptKeeps(w: World, c: nat, blocks: bool, ok: bool)
    requires WInv(w) && CanAct(w, Attempt(c, blocks, ok))
    ensures WInv(Do(w, Attempt(c, blocks, ok)))
  {
    hide Inv, ParkedRight;
    var w' := AfterAttempt(w, c, blocks, ok);
    ParkedAside(w, w', c);
    TimeoutsKept(w, w');
  }

  lemma RegisterKeeps(w: World, c: nat, fails: bool)
    requires WInv(w) && CanAct(w, Register(c, fails))
    ensures WInv(Do(w, Register(c, fails)))
  {
    hide Inv, ParkedRight, Evolves, AddEvent, Table;
    var call := w.calls[c];
    AddEventKeeps(w.io, call.fd, call.e, None, call.me, fails);
    EvolvesAdd(w.io, call.fd, call.e, None, call.me, fails);
    var r := AddEvent(w.io, call.fd, call.e, None, call.me, fails);
    var w1 := w.(io := r.st);
    var w' := AfterRegister(w, c, r);
    ParkedEvolves(w, w1);
    ParkedBelow(w);
    if r.ok {
      assert RegsRight(r.st) by { InvParts(r.st); }
      assert forall d, q: nat :: IsParked(w1, d, q) ==> IsParked(w, d, q);
      NewlyParked(w1, w', c, w.io.nextReg);
    } else {
      ParkedAside(w1, w', c);
    }
    TimeoutsKept(w, w');
  }

  lemma ParkedBelow(w: World)
    requires ParkedRight(w)
    ensures forall d, q: nat :: IsParked(w, d, q) ==> q < w.io.nextReg
  {
  }

  lemma NewlyParked(w: World, w': World, c: nat, r: nat)
    requires Inv(w.io) && ParkedRight(w) && c in w.calls && !w.calls[c].phase.Parked?
    requires w' == SetCall(w, c, w.calls[c].(phase := Parked(r)))
    requires r < w.io.nextReg && WaitsFor(w.io, w.calls[c], r)
    requires forall d, q: nat :: IsParked(w, d, q) ==> q != r
    ensures ParkedRight(w')
  {
    assert Is(w.io, r, Waiting(w.calls[c].fd, w.calls[c].e));
    assert forall i: nat :: !Is(w.io, r, HandedOver(i));
    assert forall i: nat :: !JobAt(w.io, i, r) by {
      forall i: nat ensures !JobAt(w.io, i, r) { assert !Is(w.io, r, HandedOver(i)); }
    }
    assert forall d, q: nat :: IsParked(w', d, q) ==> (IsParked(w, d, q) && d != c) || (d == c && q == r);
    forall d, q: nat | IsParked(w', d, q)
      ensures NotLost(w', d, q)
    {
      if d != c {
        assert NotLost(w, d, q);
      }
    }
  }

  lemma ResumeKeeps(w: World, c: nat, i: nat)
    requires WInv(w) && CanAct(w, Resume(c, i))
    ensures WInv(Do(w, Resume(c, i)))
  {
    hide Inv, WaitsFor, TaskOf, DeletedAt;
    var w' := AfterResume(w, c, i);
    var r := w.calls[c].phase.reg;
    assert IsParked(w, c, r);
    assert forall d, q: nat :: IsParked(w', d, q) ==> IsParked(w, d, q) && d != c;
    forall d, q: nat | IsParked(w', d, q)
      ensures NotLost(w', d, q)
    {
      assert NotLost(w, d, q) && q != r;
    }
    TimeoutsKept(w, w');
  }

  lemma ActKeeps(w: World, a: Act)
    requires WInv(w) && CanAct(w, a)
    ensures WInv(Do(w, a))
  {
    match a
    case Begin(c, fd, e, me, timeout) =>
      hide Inv, ParkedRight;
      ParkedAside(w, Do(w, a), c);
      TimeoutsKept(w, Do(w, a));
    case Attempt(c, blocks, ok) => AttemptKeeps(w, c, blocks, ok);
    case Register(c, fails) => RegisterKeeps(w, c, fails);
    case Expire(t) =>
      hide Inv, Evolves;
      EvolvesSame(w.io, w.io);
      ParkedEvolves(w, Do(w, a));
      TimeoutsKept(w, Do(w, a));
    case Callback(t, fails) => CallbackKeeps(w, t, fails);
    case Resume(c, i) => ResumeKeeps(w, c, i);
    case Other(step) => OtherKeeps(w, step);
  }

  lemma DeadlineKept(w: World, a: Act, c: nat)
    requires DeadlinesRight(w) && CanAct(w, a) && c in Do(w, a).calls
    ensures DeadlineAt(Do(w, a), c)
  {
    hide AddEvent, CancelEvent, Next, Enabled, Table, ArmedRight;
    assert c in w.calls ==> DeadlineAt(w, c);
  }

  lemma ArmedKept(w: World, a: Act, t: nat)
    requires DeadlinesRight(w) && CanAct(w, a)
    ensures ArmedRight(Do(w, a), t)
  {
    hide AddEvent, CancelEvent, Next, Enabled, Table, DeadlineAt;
    assert ArmedRight(w, t);
  }

  /** Whatever moves, the calls that are waiting with a deadline keep it. */
  lemma DeadlinesKept(w: World, a: Act)
    requires DeadlinesRight(w) && CanAct(w, a)
    ensures DeadlinesRight(Do(w, a))
  {
    hide Do, CanAct, DeadlineAt, ArmedRight;
    forall c <- Do(w, a).calls
      ensures DeadlineAt(Do(w, a), c)
    {
      DeadlineKept(w, a, c);
    }
    forall t: nat
      ensures ArmedRight(Do(w, a), t)
    {
      ArmedKept(w, a, t);
    }
  }

  // ---------- One call ----------

  /**
   How a call returns: with the transfer exactly when an attempt goes through, with a timeout
   exactly when it is resumed after it was marked, and refused exactly when an attempt fails or
   its event cannot be added.
   */
  lemma ReturnsExactly(w: World, a: Act, c: nat)
    requires Inv(w.io) && CanAct(w, a) && c in w.calls && !w.calls[c].phase.Returned?
    ensures c in Do(w, a).calls
    ensures var phase := Do(w, a).calls[c].phase;
            && (phase == Returned(Transferred) <==> a == Attempt(c, false, true))
            && (phase == Returned(TimedOut) <==> a.Resume? && a.c == c && w.calls[c].cancelled)
            && (phase == Returned(Refused) <==> a == Attempt(c, false, false) || a == Register(c, true))
  {
    hide AddEvent, CancelEvent, Next, Enabled, Table, Inv;
    if a.Register? {
      var call := w.calls[a.c];
      AddEventKeeps(w.io, call.fd, call.e, None, call.me, a.fails);
    }
  }

  /** What a call was begun with stays, and once it has returned nothing about it changes. */
  lemma CallStep(w: World, a: Act, c: nat)
    requires CanAct(w, a) && c in w.calls
    ensures c in Do(w, a).calls
    ensures var call, call' := w.calls[c], Do(w, a).calls[c];
            && call'.fd == call.fd && call'.e == call.e && call'.me == call.me && call'.timeout == call.timeout
            && (call.phase.Returned? ==> call' == call)
  {
    hide AddEvent, CancelEvent, Next, Enabled, Table;
  }

  /** A call is marked exactly by the callback of one of its timers that finds it running. */
  lemma MarkedExactly(w: World, a: Act, c: nat)
    requires CanAct(w, a) && c in w.calls
    ensures c in Do(w, a).calls
    ensures Do(w, a).calls[c].cancelled <==>
              w.calls[c].cancelled || (a.Callback? && w.timers[a.t].call == c && !w.calls[c].phase.Returned?)
  {
    hide AddEvent, CancelEvent, Next, Enabled, Table;
  }

  /**
   The callback of a timer whose call has returned, or is marked already, does nothing: no
   event is cancelled and no call changes.
   */
  lemma DeadCallback(w: World, t: nat, fails: bool)
    requires CanAct(w, Callback(t, fails))
    requires var c := w.timers[t].call; c in w.calls ==> w.calls[c].phase.Returned? || w.calls[c].cancelled
    ensures var w' := Do(w, Callback(t, fails));
            w'.io == w.io && w'.calls == w.calls && w'.resumed == w.resumed
  {
  }

  /** A callback changes the manager only for a call that runs and is not marked, and there only its own event. */
  lemma CallbackTouches(w: World, t: nat, fails: bool, fd: nat, e: Event)
    requires Inv(w.io) && CanAct(w, Callback(t, fails))
    requires fd < |w.io.fds| && w.io.fds[fd].events.Has(e) && !Kept(w.io, Do(w, Callback(t, fails)).io, fd, e)
    ensures !fails && w.timers[t].call in w.calls
    ensures var call := w.calls[w.timers[t].call];
            !call.phase.Returned? && !call.cancelled && call.fd == fd && call.e == e
  {
    hide Inv, CancelEvent;
    var c := w.timers[t].call;
    if c in w.calls {
      CancelEventKeeps(w.io, w.calls[c].fd, w.calls[c].e, fails);
    }
  }

  /** A call that is not waiting can go on, and a waiting one as soon as it is queued; timers run down by themselves. */
  lemma CanGoOn(w: World, c: nat, blocks: bool, ok: bool, fails: bool, r: nat, t: nat)
    requires WInv(w) && c in w.calls
    ensures t < |w.timers| ==> (w.timers[t].Armed? ==> CanAct(w, Expire(t))) && (w.timers[t].Expired? ==> CanAct(w, Callback(t, fails)))
    ensures w.calls[c].phase.Trying? ==> CanAct(w, Attempt(c, blocks, ok))
    ensures w.calls[c].phase.Registering? && !(w.calls[c].fd < |w.io.fds| && w.io.fds[w.calls[c].fd].events.Has(w.calls[c].e)) ==>
              CanAct(w, Register(c, fails))
    ensures IsParked(w, c, r) && HasTask(w.io, w.calls[c], r) ==> exists i: nat :: CanAct(w, Resume(c, i))
  {
    hide AddEvent, Table, TimeoutsRight;
    var call := w.calls[c];
    AddEventKeeps(w.io, call.fd, call.e, None, call.me, fails);
    hide Inv;
    if IsParked(w, c, r) && HasTask(w.io, call, r) {
      assert NotLost(w, c, r);
      var i: nat :| TaskOf(w.io, call, r, i);
      assert JobAt(w.io, i, r);
      assert CanAct(w, Resume(c, i));
    }
  }

  /** Timers belong to calls that have a timeout. */
  ghost predicate TimersRight(w: World) {
    forall t :: 0 <= t < |w.timers| && !w.timers[t].Over? ==> w.timers[t].call in w.calls && w.calls[w.timers[t].call].timeout
  }

  lemma TimersKept(w: World, a: Act)
    requires TimersRight(w) && CanAct(w, a)
    ensures TimersRight(Do(w, a))
  {
    hide AddEvent, CancelEvent, Next, Enabled, Table;
  }

  // ---------- Runs ----------

  const BEGIN: World := World(START, map[], [], {})

  ghost predicate Leads(w: World, acts: seq<Act>, w': World)
    decreases |acts|
  {
    if acts == [] then w' == w else CanAct(w, acts[0]) && Leads(Do(w, acts[0]), acts[1..], w')
  }

  lemma {:induction false} LeadsKeeps(w: World, acts: seq<Act>, w': World)
    requires WInv(w) && DeadlinesRight(w) && Leads(w, acts, w')
    ensures WInv(w') && DeadlinesRight(w')
    decreases |acts|
  {
    hide WInv, DeadlinesRight, CanAct, Do;
    if acts != [] {
      ActKeeps(w, acts[0]);
      DeadlinesKept(w, acts[0]);
      LeadsKeeps(Do(w, acts[0]), acts[1..], w');
    }
  }

  /**
   In any interleaving of calls, timers, reports and cancellations: the fiber of a parked call
   waits for its event or is queued on its own scheduler (unless somebody deleted the event);
   it is queued at most once, and that task has not been run; if it has a timeout and is not
   marked, its timer is still pending; and a call reports a timeout only after one of its
   timers fired.
   */
  lemma EveryInterleaving(acts: seq<Act>, w: World, c: nat, r: nat)
    requires Leads(BEGIN, acts, w)
    ensures IsParked(w, c, r) ==>
              && (WaitsFor(w.io, w.calls[c], r) || HasTask(w.io, w.calls[c], r) || Gone(w.io, r))
              && (forall i, j: nat :: JobAt(w.io, i, r) && JobAt(w.io, j, r) ==> i == j)
              && (forall i: nat :: JobAt(w.io, i, r) ==> i !in w.resumed)
              && (w.calls[c].timeout && !w.calls[c].cancelled ==> exists t :: Pending(w, t, c))
    ensures c in w.calls && w.calls[c].phase == Returned(TimedOut) ==> exists t :: FiredFor(w, t, c)
  {
    StartInv();
    assert WInv(BEGIN) by { hide Inv; }
    LeadsKeeps(BEGIN, acts, w);
    hide Leads, WaitsFor, HasTask, Gone;
    if IsParked(w, c, r) {
      assert NotLost(w, c, r) && DeadlineAt(w, c);
      forall i, j: nat | JobAt(w.io, i, r) && JobAt(w.io, j, r)
        ensures i == j
      {
        assert Is(w.io, r, HandedOver(i)) && Is(w.io, r, HandedOver(j));
      }
    }
  }

  lemma {:induction false} CallRun(w: World, acts: seq<Act>, w': World, c: nat)
    requires Leads(w, acts, w') && c in w.calls
    ensures c in w'.calls
    ensures var call, call' := w.calls[c], w'.calls[c];
            && call'.fd == call.fd && call'.e == call.e && call'.me == call.me && call'.timeout == call.timeout
            && (call.phase.Returned? ==> call' == call)
    decreases |acts|
  {
    hide CanAct, Do;
    if acts != [] {
      CallStep(w, acts[0], c);
      CallRun(Do(w, acts[0]), acts[1..], w', c);
    }
  }

  lemma ResumedStep(w: World, a: Act)
    requires CanAct(w, a)
    ensures Do(w, a).resumed == if a.Resume? then w.resumed + {a.i} else w.resumed
    ensures a.Resume? ==> a.i !in w.resumed
  {
    hide AddEvent, CancelEvent, Next, Enabled, Table;
  }

  lemma {:induction false} ResumedRun(w: World, acts: seq<Act>, w': World)
    requires Leads(w, acts, w')
    ensures w.resumed <= w'.resumed
    ensures forall k :: 0 <= k < |acts| && acts[k].Resume? ==> acts[k].i !in w.resumed
    ensures forall j, k :: 0 <= j < k < |acts| && acts[j].Resume? && acts[k].Resume? ==> acts[j].i != acts[k].i
    decreases |acts|
  {
    hide CanAct, Do;
    if acts != [] {
      ResumedStep(w, acts[0]);
      ResumedRun(Do(w, acts[0]), acts[1..], w');
      assert forall k :: 1 <= k < |acts| ==> acts[k] == acts[1..][k - 1];
    }
  }

  /** In every interleaving each task that was handed over is run at most once. */
  lemma TasksRunOnce(acts: seq<Act>, w: World)
    requires Leads(BEGIN, acts, w)
    ensures forall j, k :: 0 <= j < k < |acts| && acts[j].Resume? && acts[k].Resume? ==> acts[j].i != acts[k].i
  {
    hide Leads;
    ResumedRun(BEGIN, acts, w);
  }

  lemma {:induction false} TimersRun(w: World, acts: seq<Act>, w': World)
    requires TimersRight(w) && Leads(w, acts, w')
    ensures TimersRight(w')
    decreases |acts|
  {
    hide CanAct, Do, TimersRight;
    if acts != [] {
      TimersKept(w, acts[0]);
      TimersRun(Do(w, acts[0]), acts[1..], w');
    }
  }

  /**
   In every interleaving a call keeps what it was begun with, and once it has returned nothing
   changes it any more; a call that was begun without a timeout never reports one.
   */
  lemma CallsKeepTerms(before: seq<Act>, w: World, c: nat, fd: nat, e: Event, me: Caller, timeout: bool, after: seq<Act>, w': World)
    requires Leads(BEGIN, before, w) && CanAct(w, Begin(c, fd, e, me, timeout))
    requires Leads(Do(w, Begin(c, fd, e, me, timeout)), after, w')
    ensures c in w'.calls
    ensures var call := w'.calls[c];
            && call.fd == fd && call.e == e && call.me == me && call.timeout == timeout
            && (!timeout ==> !call.cancelled && call.phase != Returned(TimedOut))
  {
    var w1 := Do(w, Begin(c, fd, e, me, timeout));
    StartInv();
    assert WInv(BEGIN) by { hide Inv; }
    assert WInv(w') && TimersRight(w') by {
      hide WInv;
      LeadsKeeps(BEGIN, before, w);
      ActKeeps(w, Begin(c, fd, e, me, timeout));
      DeadlinesKept(w, Begin(c, fd, e, me, timeout));
      LeadsKeeps(w1, after, w');
      TimersRun(BEGIN, before, w);
      TimersKept(w, Begin(c, fd, e, me, timeout));
      TimersRun(w1, after, w');
    }
    CallRun(w1, after, w', c);
    hide Leads, Inv, ParkedRight;
    if w'.calls[c].cancelled || w'.calls[c].phase == Returned(TimedOut) {
      var t :| FiredFor(w', t, c);
    }
  }

  // ---------- Timeouts ----------

  /** Cancelling a live event queues what waited for it. */
  lemma CancelHands(s: State, fd: nat, e: Event)
    requires Inv(s) && fd < |s.fds| && s.fds[fd].events.Has(e)
    ensures CancelEvent(s, fd, e, false).Done?
    ensures var s' := CancelEvent(s, fd, e, false).st;
            && s'.jobs == s.jobs + [JobOf(s.fds[fd].Ctx(e))]
            && fd < |s'.fds| && !s'.fds[fd].events.Has(e)
            && s'.pending == s.pending - 1
  {
    hide ContextsRight, RegsRight, CountRight, EpollRight, Trigger, JobOf;
    CancelEventKeeps(s, fd, e, false);
    var left := s.fds[fd].events.Minus(e);
    var m := s.(epoll := EpollCtl(s.epoll, DropOp(left), fd, left, false).value);
    EpollFree(s, m);
    TriggerSpec(m, fd, e);
  }

  /** A callback that finds its call waiting queues the fiber, exactly when epoll_ctl succeeds. */
  lemma DeadlineWakes(w: World, t: nat, fails: bool, c: nat, r: nat)
    requires WInv(w) && CanAct(w, Callback(t, fails)) && w.timers[t].call == c
    requires IsParked(w, c, r) && WaitsFor(w.io, w.calls[c], r) && !w.calls[c].cancelled
    ensures var w' := Do(w, Callback(t, fails));
            && IsParked(w', c, r) && w'.calls[c].cancelled
            && (HasTask(w'.io, w.calls[c], r) <==> !fails)
            && (WaitsFor(w'.io, w.calls[c], r) <==> fails)
  {
    var call := w.calls[c];
    var w' := Do(w, Callback(t, fails));
    InvParts(w.io);
    hide ParkedRight, TimeoutsRight, Inv;
    CancelEventKeeps(w.io, call.fd, call.e, fails);
    if fails {
      assert w'.io == w.io;
      forall i: nat ensures !TaskOf(w.io, call, r, i) {
        assert Is(w.io, r, Waiting(call.fd, call.e));
        assert !Is(w.io, r, HandedOver(i));
      }
    } else {
      CancelHands(w.io, call.fd, call.e);
      assert TaskOf(w'.io, call, r, |w.io.jobs|);
    }
  }

  lemma LeadsThen(w: World, acts: seq<Act>, w1: World, a: Act)
    requires Leads(w, acts, w1) && CanAct(w1, a)
    ensures Leads(w, acts + [a], Do(w1, a))
    decreases |acts|
  {
    hide CanAct, Do;
    var more := acts + [a];
    if acts == [] {
      assert more[1..] == [];
    } else {
      assert more[1..] == acts[1..] + [a];
      LeadsThen(Do(w, acts[0]), acts[1..], w1, a);
    }
  }

  const FD: nat := 3

  /** A world of one call, call 0, that reads from FD with a timeout. */
  function One(io: State, me: Caller, phase: Phase, cancelled: bool, timer: Option<nat>, timers: seq<TimerState>, resumed: set<nat>): World {
    World(io, map[0 := Call(FD, READ, me, true, phase, cancelled, timer)], timers, resumed)
  }

  lemma StartIs()
    ensures Inv(START) && START.nextReg == 0 && START.jobs == [] && |START.fds| == 32 && START.fds[FD] == FRESH
  {
    StartInv();
  }

  lemma FirstAttempt(me: Caller) returns (acts: seq<Act>, w: World)
    ensures Expire(1) !in acts
    ensures Leads(BEGIN, acts, w) && w == One(START, me, Registering, false, Some(0), [Armed(0)], {})
  {
    hide START;
    LeadsThen(BEGIN, [], BEGIN, Begin(0, FD, READ, me, true));
    LeadsThen(BEGIN, [] + [Begin(0, FD, READ, me, true)], Do(BEGIN, Begin(0, FD, READ, me, true)), Attempt(0, true, false));
    acts := [] + [Begin(0, FD, READ, me, true)] + [Attempt(0, true, false)];
    w := Do(Do(BEGIN, Begin(0, FD, READ, me, true)), Attempt(0, true, false));
  }

  /** Extends a run by one act. */
  lemma Continue(acts: seq<Act>, w: World, a: Act) returns (acts': seq<Act>, w': World)
    requires Leads(BEGIN, acts, w) && CanAct(w, a)
    ensures Leads(BEGIN, acts', w') && w' == Do(w, a) && acts' == acts + [a]
  {
    LeadsThen(BEGIN, acts, w, a);
    acts', w' := acts + [a], Do(w, a);
  }

  /**
   The deadline can be missed: when the callback comes before the registration, it marks the
   call but finds nothing to cancel, and the call then parks with no timer left.
   */
  lemma MissedDeadline(me: Caller)
    ensures exists acts, w :: Leads(BEGIN, acts, w) && IsParked(w, 0, 0) && w.calls[0].timeout
                           && WaitsFor(w.io, w.calls[0], 0) && (forall t :: !Pending(w, t, 0))
  {
    StartIs();
    hide START, Inv, Leads, Table, AddEvent, CancelEvent;
    var acts, w := FirstAttempt(me);
    acts, w := Continue(acts, w, Expire(0));
    assert CancelEvent(START, FD, READ, false) == Done(START, false) by { NothingToCancel(START); }
    acts, w := Continue(acts, w, Callback(0, false));
    AddEventKeeps(START, FD, READ, None, me, false);
    acts, w := Continue(acts, w, Register(0, false));
  }

  lemma NothingToCancel(s: State)
    requires FD < |s.fds| && s.fds[FD] == FRESH
    ensures CancelEvent(s, FD, READ, false) == Done(s, false)
  {
  }

  /** After a report on the one descriptor, registered for READ alone, the fiber is queued. */
  lemma ReportHands(s: State)
    requires Inv(s) && FD < |s.fds| && s.fds[FD].events == Mask(true, false)
    ensures Report(s, FD, Mask(true, false), false, false).Done?
    ensures var s' := Report(s, FD, Mask(true, false), false, false).st;
            && Inv(s') && FD < |s'.fds| && s'.fds[FD].events == NONE && s'.nextReg == s.nextReg
            && s'.jobs == s.jobs + [JobOf(s.fds[FD].Ctx(READ))]
  {
    hide RegsRight, ContextsRight, CountRight, EpollRight, Trigger, JobOf;
    ReportKeeps(s, FD, Mask(true, false), false, false);
    DropApplies(s, FD, NONE);
    var m := s.(epoll := EpollCtl(s.epoll, CTL_DEL, FD, NONE, false).value);
    EpollFree(s, m);
    TriggerSpec(m, FD, READ);
  }

  /** A pending callback that will find its call running and not marked. */
  predicate WillAct(w: World, t: nat, c: nat) {
    Pending(w, t, c) && c in w.calls && !w.calls[c].phase.Returned? && !w.calls[c].cancelled
  }

  /** A call with a timeout parks with its deadline ahead exactly when it was not marked before. */
  lemma DeadlineAhead(w: World, c: nat)
    requires WInv(w) && DeadlinesRight(w) && CanAct(w, Register(c, false)) && w.calls[c].timeout
    ensures var w' := Do(w, Register(c, false));
            && IsParked(w', c, w.io.nextReg) && WaitsFor(w'.io, w'.calls[c], w.io.nextReg)
            && ((exists t :: WillAct(w', t, c)) <==> !w.calls[c].cancelled)
  {
    hide AddEvent, Inv, ParkedRight, TimeoutsRight;
    var call := w.calls[c];
    AddEventKeeps(w.io, call.fd, call.e, None, call.me, false);
    assert DeadlineAt(w, c);
    assert !call.cancelled ==> WillAct(Do(w, Register(c, false)), call.timer.value, c);
  }

  predicate Taken(w: World, t: nat, c: nat) {
    t < |w.timers| && w.timers[t] == Expired(c)
  }

  /** A resumed call still has a timeout coming exactly when a taken callback has not run yet. */
  lemma StaleExactly(w: World, c: nat, i: nat)
    requires DeadlinesRight(w) && CanAct(w, Resume(c, i)) && !w.calls[c].cancelled
    ensures (exists t :: WillAct(Do(w, Resume(c, i)), t, c)) <==> (exists t :: Taken(w, t, c))
  {
    var w' := Do(w, Resume(c, i));
    forall t: nat
      ensures WillAct(w', t, c) <==> Taken(w, t, c)
    {
      assert ArmedRight(w, t);
    }
    if t: nat :| Taken(w, t, c) {
      assert WillAct(w', t, c);
    }
  }

  /** Call 0 is parked with its first timer armed. */
  lemma FirstPark(me: Caller) returns (acts: seq<Act>, w: World)
    ensures Expire(1) !in acts
    ensures Leads(BEGIN, acts, w) && Inv(w.io) && w == One(w.io, me, Parked(0), false, Some(0), [Armed(0)], {})
    ensures w.io.nextReg == 1 && w.io.jobs == [] && WaitsFor(w.io, w.calls[0], 0) && w.io.fds[FD].events == Mask(true, false)
  {
    StartIs();
    hide START, Inv, Leads, Table, AddEvent;
    acts, w := FirstAttempt(me);
    AddEventKeeps(START, FD, READ, None, me, false);
    assert AddEvent(START, FD, READ, None, me, false).st.nextReg == 1
        && AddEvent(START, FD, READ, None, me, false).st.fds[FD].events == Mask(true, false) by { FirstAdd(START, me); }
    acts, w := Continue(acts, w, Register(0, false));
  }

  lemma FirstAdd(s: State, me: Caller)
    requires Inv(s) && FD < |s.fds| && s.fds[FD].events == NONE
    ensures FD < |Table(s.fds, FD)|
    ensures var r := AddEvent(s, FD, READ, None, me, false);
            r.Done? && r.st.nextReg == s.nextReg + 1 && FD < |r.st.fds| && r.st.fds[FD].events == Mask(true, false)
  {
    hide Inv;
    AddEventKeeps(s, FD, READ, None, me, false);
  }

  /** Resumed by a report, with its timer expired but the callback not run, the call blocks again. */
  lemma SecondPark(me: Caller) returns (acts: seq<Act>, w: World)
    ensures Expire(1) !in acts
    ensures Leads(BEGIN, acts, w) && Inv(w.io) && w == One(w.io, me, Parked(1), false, Some(1), [Expired(0), Armed(0)], {0})
    ensures |w.io.jobs| == 1 && WaitsFor(w.io, w.calls[0], 1)
  {
    hide Inv, Leads, Table, AddEvent, Report, START;
    acts, w := FirstPark(me);
    var step := Reported(FD, Mask(true, false), false, false);
    ReportHands(w.io);
    acts, w := Continue(acts, w, Other(step));
    acts, w := Continue(acts, w, Expire(0));
    acts, w := Continue(acts, w, Resume(0, 0));
    acts, w := Continue(acts, w, Attempt(0, true, false));
    AddEventKeeps(w.io, FD, READ, None, me, false);
    FirstAdd(w.io, me);
    acts, w := Continue(acts, w, Register(0, false));
  }

  /**
   The timer of an earlier attempt can time out a later one: its callback, taken before the
   call was resumed, ends the second wait although the second timer never expired.
   */
  lemma StaleTimer(me: Caller)
    ensures exists acts, w :: Leads(BEGIN, acts, w) && 0 in w.calls && w.calls[0].phase == Returned(TimedOut)
                           && w.timers == [Fired(0), Over] && w.calls[0].timer == Some(1) && Expire(1) !in acts
  {
    hide Inv, Leads, Table, AddEvent, CancelEvent, START;
    var acts, w := SecondPark(me);
    CancelHands(w.io, FD, READ);
    acts, w := Continue(acts, w, Callback(0, false));
    acts, w := Continue(acts, w, Resume(0, 1));
  }
}
