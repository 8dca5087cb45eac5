/**
 What every run of the I/O manager keeps: contexts agree with event bits, the pending count
 with their number, the kernel's registrations with the masks, and every registration is
 consumed at most once.
 */
module IoLaws {
  import opened Wrappers
  import opened IoModel

  // ---------- Contexts ----------

  /** A scheduler and exactly one of fiber and callback. */
  predicate Occupied(c: Context) {
    c.scheduler.Some? && (c.fiber.Some? <==> c.cb.None?)
  }

  predicate FdRight(f: Fd) {
    && (if f.events.read then Occupied(f.read) else Vacant(f.read))
    && (if f.events.write then Occupied(f.write) else Vacant(f.write))
  }

  /** An event bit is set exactly when its context waits for it; otherwise the context is empty. */
  predicate ContextsRight(s: State) {
    forall fd :: 0 <= fd < |s.fds| ==> FdRight(s.fds[fd])
  }

  // ---------- The pending count ----------

  function Bits(fds: seq<Fd>): nat {
    if fds == [] then 0 else Bits(fds[..|fds| - 1]) + fds[|fds| - 1].events.Count()
  }

  predicate CountRight(s: State) {
    s.pending == Bits(s.fds)
  }

  lemma {:induction false} BitsUpdate(fds: seq<Fd>, fd: nat, f: Fd)
    requires fd < |fds|
    ensures Bits(fds[fd := f]) == Bits(fds) + f.events.Count() - fds[fd].events.Count()
    decreases |fds|
  {
    var n := |fds| - 1;
    if fd < n {
      BitsUpdate(fds[..n], fd, f);
      assert fds[fd := f][..n] == fds[..n][fd := f];
    } else {
      assert fds[fd := f][..n] == fds[..n];
    }
  }

  lemma {:induction false} BitsFresh(fds: seq<Fd>, n: nat)
    ensures Bits(fds + FreshFds(n)) == Bits(fds)
    decreases n
  {
    if n == 0 {
      assert fds + FreshFds(0) == fds;
    } else {
      BitsFresh(fds, n - 1);
      assert fds + FreshFds(n) == (fds + FreshFds(n - 1)) + [FRESH];
      BitsSnoc(fds + FreshFds(n - 1), FRESH);
    }
  }

  lemma BitsSnoc(fds: seq<Fd>, f: Fd)
    ensures Bits(fds + [f]) == Bits(fds) + f.events.Count()
  {
    assert (fds + [f])[..|fds|] == fds;
  }

  // ---------- The kernel's registrations ----------

  /** The registered mask is the software mask, and descriptors without events are not registered. */
  predicate EpollAt(s: State, fd: nat) {
    && (fd in s.epoll <==> fd < |s.fds| && !s.fds[fd].events.Empty())
    && (fd in s.epoll ==> s.epoll[fd] == s.fds[fd].events)
  }

  ghost predicate EpollRight(s: State) {
    forall fd: nat :: EpollAt(s, fd)
  }

  // ---------- Registrations ----------

  predicate LiveAt(fds: seq<Fd>, fd: nat, e: Event, r: nat) {
    fd < |fds| && fds[fd].events.Has(e) && fds[fd].Ctx(e).reg == r
  }

  predicate JobAt(s: State, i: nat, r: nat) {
    i < |s.jobs| && s.jobs[i].reg == r
  }

  predicate DeletedAt(s: State, i: nat, r: nat) {
    i < |s.deleted| && s.deleted[i] == r
  }

  /** Where a registration is: waiting on a descriptor, handed to a scheduler, or deleted. */
  datatype Place = Waiting(fd: nat, e: Event) | HandedOver(i: nat) | Deleted(i: nat)

  predicate Is(s: State, r: nat, p: Place) {
    match p
    case Waiting(fd, e) => LiveAt(s.fds, fd, e, r)
    case HandedOver(i) => JobAt(s, i, r)
    case Deleted(i) => DeletedAt(s, i, r)
  }

  ghost predicate Somewhere(s: State, r: nat) {
    exists p :: Is(s, r, p)
  }

  /** Every registration made so far is in exactly one place. */
  ghost predicate RegsRight(s: State) {
    && (forall r: nat, p, p' :: Is(s, r, p) && Is(s, r, p') ==> p == p')
    && (forall r: nat, p :: Is(s, r, p) ==> r < s.nextReg)
    && (forall r: nat :: r < s.nextReg ==> Somewhere(s, r))
  }

  ghost predicate Inv(s: State) {
    ContextsRight(s) && CountRight(s) && EpollRight(s) && RegsRight(s) && |s.fds| >= 32
  }

  lemma OnePlace(s: State, r: nat)
    requires RegsRight(s)
    ensures forall p, p' :: Is(s, r, p) && Is(s, r, p') ==> p == p'
  {
  }

  /** A place moves from waiting to another one; all other places stay. */
  lemma RegsMove(s: State, s': State, fd: nat, e: Event, r: nat, to: Place)
    requires RegsRight(s) && s'.nextReg == s.nextReg
    requires Is(s, r, Waiting(fd, e)) && Is(s', r, to)
    requires forall q: nat, p :: Is(s', q, p) ==> (Is(s, q, p) && p != Waiting(fd, e)) || (p == to && q == r)
    requires forall q: nat, p :: Is(s, q, p) ==> Is(s', q, p) || p == Waiting(fd, e)
    requires forall q: nat :: !Is(s, q, to)
    requires forall q: nat :: Is(s, q, Waiting(fd, e)) ==> q == r
    ensures RegsRight(s')
  {
    hide Is;
    forall q: nat | q < s'.nextReg
      ensures Somewhere(s', q)
    {
      assert Somewhere(s, q);
      var p :| Is(s, q, p);
      assert Is(s', q, p) || Is(s', q, to);
    }
  }

  /** A new registration starts waiting; all other places stay. */
  lemma RegsAdd(s: State, s': State, fd: nat, e: Event)
    requires RegsRight(s) && s'.nextReg == s.nextReg + 1
    requires Is(s', s.nextReg, Waiting(fd, e)) && forall q: nat :: !Is(s, q, Waiting(fd, e))
    requires forall q: nat, p :: Is(s', q, p) <==> Is(s, q, p) || (p == Waiting(fd, e) && q == s.nextReg)
    ensures RegsRight(s')
  {
    hide Is;
    forall q: nat | q < s'.nextReg
      ensures Somewhere(s', q)
    {
      if q < s.nextReg {
        assert Somewhere(s, q);
        var p :| Is(s, q, p);
        assert Is(s', q, p);
      }
    }
  }

  lemma RegsSame(s: State, s': State)
    requires RegsRight(s) && s'.nextReg == s.nextReg
    requires forall q: nat, p :: Is(s', q, p) <==> Is(s, q, p)
    ensures RegsRight(s')
  {
    hide Is;
    forall q: nat | q < s'.nextReg
      ensures Somewhere(s', q)
    {
      assert Somewhere(s, q);
      var p :| Is(s, q, p);
      assert Is(s', q, p);
    }
  }

  // ---------- Ending a registration ----------

  /** Only descriptor fd changed, its events to `left`. */
  predicate OnlyEvents(s: State, s': State, fd: nat, left: Mask) {
    && |s'.fds| == |s.fds| && fd < |s.fds| && s'.fds[fd].events == left
    && (forall g :: 0 <= g < |s.fds| && g != fd ==> s'.fds[g] == s.fds[g])
  }

  /** The contexts of the events in the mask are as they were. */
  predicate Spared(s: State, s': State, fd: nat, mask: Mask) {
    fd < |s.fds| && fd < |s'.fds| && forall e :: mask.Has(e) ==> s'.fds[fd].Ctx(e) == s.fds[fd].Ctx(e)
  }

  /** Triggering a registered event hands over exactly what waited for it, once. */
  lemma TriggerSpec(s: State, fd: nat, e: Event)
    requires ContextsRight(s) && RegsRight(s) && fd < |s.fds| && s.fds[fd].events.Has(e)
    ensures Trigger(s, fd, e).Some?
    ensures var s1 := Trigger(s, fd, e).value;
            && s1 == s.(fds := s1.fds, jobs := s1.jobs)
            && OnlyEvents(s, s1, fd, s.fds[fd].events.Minus(e))
            && ContextsRight(s1) && RegsRight(s1) && Bits(s1.fds) == Bits(s.fds) - 1
            && (forall e' :: e' != e ==> s1.fds[fd].Ctx(e') == s.fds[fd].Ctx(e'))
            && s1.jobs == s.jobs + [JobOf(s.fds[fd].Ctx(e))]
  {
    hide RegsRight;
    assert FdRight(s.fds[fd]);
    var s1 := Trigger(s, fd, e).value;
    var c := s.fds[fd].Ctx(e);
    BitsUpdate(s.fds, fd, s1.fds[fd]);
    TriggerRegs(s, s1, fd, e);
  }

  /** The task that a waiting context becomes. */
  function JobOf(c: Context): Job {
    Job(if c.scheduler.Some? then c.scheduler.value else 0, c.fiber, c.cb, c.reg)
  }

  /** The tasks of the events in the mask, READ before WRITE. */
  function JobsOf(f: Fd, mask: Mask): (jobs: seq<Job>)
    ensures |jobs| == mask.Count()
  {
    (if mask.read then [JobOf(f.read)] else []) + (if mask.write then [JobOf(f.write)] else [])
  }

  lemma TriggerRegs(s: State, s1: State, fd: nat, e: Event)
    requires RegsRight(s) && fd < |s.fds| && s.fds[fd].events.Has(e)
    requires OnlyEvents(s, s1, fd, s.fds[fd].events.Minus(e)) && s1 == s.(fds := s1.fds, jobs := s1.jobs)
    requires forall e' :: e' != e ==> s1.fds[fd].Ctx(e') == s.fds[fd].Ctx(e')
    requires |s1.jobs| == |s.jobs| + 1 && s1.jobs[..|s.jobs|] == s.jobs
    requires s1.jobs[|s.jobs|].reg == s.fds[fd].Ctx(e).reg
    ensures RegsRight(s1)
  {
    var r, to := s.fds[fd].Ctx(e).reg, HandedOver(|s.jobs|);
    forall q: nat, p
      ensures Is(s1, q, p) <==> (Is(s, q, p) && p != Waiting(fd, e)) || (p == to && q == r)
    {
      match p
      case Waiting(g, e') =>
      case HandedOver(i) =>
        assert i < |s.jobs| ==> s1.jobs[i] == s1.jobs[..|s.jobs|][i];
      case Deleted(i) =>
    }
    RegsMove(s, s1, fd, e, r, to);
  }

  /** Triggering a set of registered events: each once, and the count goes down with them. */
  lemma TriggerAllSpec(s: State, fd: nat, mask: Mask)
    requires ContextsRight(s) && RegsRight(s) && CountRight(s) && fd < |s.fds|
    requires mask.AndNot(s.fds[fd].events).Empty()
    ensures TriggerAll(s, fd, mask).Some?
    ensures var s1 := TriggerAll(s, fd, mask).value;
            && s1 == s.(fds := s1.fds, jobs := s1.jobs, pending := s1.pending)
            && OnlyEvents(s, s1, fd, s.fds[fd].events.AndNot(mask))
            && ContextsRight(s1) && RegsRight(s1) && CountRight(s1)
            && s1.jobs == s.jobs + JobsOf(s.fds[fd], mask)
            && Spared(s, s1, fd, s.fds[fd].events.AndNot(mask))
  {
    hide RegsRight, ContextsRight, Trigger, Bits, JobOf;
    var s1 := s;
    if mask.read {
      TriggerSpec(s, fd, READ);
      s1 := CountedTrigger(s, fd, READ).value;
      PendingFree(Trigger(s, fd, READ).value, s1);
    }
    if mask.write {
      TriggerSpec(s1, fd, WRITE);
      PendingFree(Trigger(s1, fd, WRITE).value, CountedTrigger(s1, fd, WRITE).value);
    }
  }

  lemma PendingFree(s: State, s': State)
    requires s' == s.(pending := s'.pending)
    ensures ContextsRight(s) ==> ContextsRight(s')
    ensures RegsRight(s) ==> RegsRight(s')
  {
    if RegsRight(s) {
      assert forall q: nat, p :: Is(s', q, p) <==> Is(s, q, p);
      RegsSame(s, s');
    }
  }

  /** Dropping events from a registered descriptor is never refused for being out of place. */
  lemma DropApplies(s: State, fd: nat, left: Mask)
    requires EpollRight(s) && fd < |s.fds| && !s.fds[fd].events.Empty()
    ensures Applicable(s.epoll, DropOp(left), fd) && Applicable(s.epoll, CTL_DEL, fd)
  {
    assert EpollAt(s, fd);
  }

  lemma DropEpoll(s: State, s': State, fd: nat, left: Mask)
    requires EpollRight(s) && OnlyEvents(s, s', fd, left) && !s.fds[fd].events.Empty()
    requires s'.epoll == if left.Empty() then s.epoll - {fd} else s.epoll[fd := left]
    ensures EpollRight(s')
  {
    forall g: nat
      ensures EpollAt(s', g)
    {
      assert EpollAt(s, g) && EpollAt(s, fd);
    }
  }

  // ---------- Operations keep the invariant ----------

  lemma CancelEventKeeps(s: State, fd: nat, e: Event, fails: bool)
    requires Inv(s)
    ensures CancelEvent(s, fd, e, fails).Done? && Inv(CancelEvent(s, fd, e, fails).st)
    ensures CancelEvent(s, fd, e, fails).ok <==> fd < |s.fds| && s.fds[fd].events.Has(e) && !fails
    ensures var r := CancelEvent(s, fd, e, fails);
            if r.ok then OnlyEvents(s, r.st, fd, s.fds[fd].events.Minus(e)) && Spared(s, r.st, fd, s.fds[fd].events.Minus(e))
            else r.st == s
  {
    hide RegsRight, ContextsRight, Trigger, Bits, EpollRight;
    if fd < |s.fds| && s.fds[fd].events.Has(e) {
      var left := s.fds[fd].events.Minus(e);
      DropApplies(s, fd, left);
      if !fails {
        var m := s.(epoll := EpollCtl(s.epoll, DropOp(left), fd, left, fails).value);
        EpollFree(s, m);
        TriggerSpec(m, fd, e);
        var s' := CancelEvent(s, fd, e, fails).st;
        PendingFree(Trigger(m, fd, e).value, s');
        DropEpoll(s, s', fd, left);
      }
    }
  }

  lemma EpollFree(s: State, s': State)
    requires s' == s.(epoll := s'.epoll)
    ensures ContextsRight(s) ==> ContextsRight(s')
    ensures RegsRight(s) ==> RegsRight(s')
    ensures CountRight(s) ==> CountRight(s')
  {
    if RegsRight(s) {
      assert forall q: nat, p :: Is(s', q, p) <==> Is(s, q, p);
      RegsSame(s, s');
    }
  }

  lemma CancelAllKeeps(s: State, fd: nat, fails: bool)
    requires Inv(s)
    ensures CancelAll(s, fd, fails).Done? && Inv(CancelAll(s, fd, fails).st)
    ensures CancelAll(s, fd, fails).ok <==> fd < |s.fds| && !s.fds[fd].events.Empty() && !fails
    ensures var r := CancelAll(s, fd, fails);
            if r.ok then OnlyEvents(s, r.st, fd, NONE) && r.st.jobs == s.jobs + JobsOf(s.fds[fd], s.fds[fd].events)
            else r.st == s
  {
    hide RegsRight, ContextsRight, TriggerAll, Bits, EpollRight;
    if fd < |s.fds| && !s.fds[fd].events.Empty() {
      DropApplies(s, fd, NONE);
      if !fails {
        var m := s.(epoll := s.epoll - {fd});
        EpollFree(s, m);
        TriggerAllSpec(m, fd, s.fds[fd].events);
        DropEpoll(s, CancelAll(s, fd, fails).st, fd, NONE);
      }
    }
  }

  /** The registered events a report is about: those it names, or all if it tells of an error or a hang-up. */
  function Answered(events: Mask, reported: Mask, err: bool): Mask {
    Mask(events.read && (err || reported.read), events.write && (err || reported.write))
  }

  function Unanswered(events: Mask, reported: Mask, err: bool): Mask {
    Mask(events.read && !err && !reported.read, events.write && !err && !reported.write)
  }

  /** The report is about a registered event, and names one that is not registered. */
  predicate WiderReal(s: State, fd: nat, reported: Mask, err: bool)
    requires fd < |s.fds|
  {
    var events := s.fds[fd].events;
    && Answered(events, reported, err) != NONE
    && ((reported.read && !events.read) || (reported.write && !events.write))
  }

  /**
   A report is dealt with, and the invariant kept, exactly unless it names an event that is
   not registered together with one that is; then the trigger's assertion ends the program.
   */
  lemma ReportKeeps(s: State, fd: nat, reported: Mask, err: bool, fails: bool)
    requires Inv(s) && fd < |s.fds|
    ensures var r := Report(s, fd, reported, err, fails);
            && (r.Done? || r.AbortTrigger?)
            && (r.AbortTrigger? <==> !fails && WiderReal(s, fd, reported, err))
            && (r.Done? ==> Inv(r.st))
            && var taken, left := Answered(s.fds[fd].events, reported, err), Unanswered(s.fds[fd].events, reported, err);
            && (r.Done? ==> (r.ok <==> !fails && taken != NONE))
            && (r.Done? && !r.ok ==> r.st == s)
            && (r.Done? && r.ok ==>
                  && OnlyEvents(s, r.st, fd, left) && Spared(s, r.st, fd, left)
                  && r.st.jobs == s.jobs + JobsOf(s.fds[fd], taken))
  {
    hide RegsRight, ContextsRight, Bits, EpollRight, Trigger, JobOf;
    var f := s.fds[fd];
    var actual := RealEvents(f, reported, err);
    if !f.events.And(actual).Empty() {
      var left := f.events.AndNot(actual);
      DropApplies(s, fd, left);
      if !fails {
        var m := s.(epoll := EpollCtl(s.epoll, DropOp(left), fd, left, fails).value);
        EpollFree(s, m);
        if actual.AndNot(f.events).Empty() {
          assert actual == Answered(f.events, reported, err);
          TriggerAllSpec(m, fd, actual);
          DropEpoll(s, Report(s, fd, reported, err, fails).st, fd, left);
        } else {
          TriggerAllAborts(m, fd, actual);
        }
      }
    }
  }

  /** An error or a hang-up wakes everybody who waits on the descriptor, READ before WRITE. */
  lemma HangupWakesAll(s: State, fd: nat, reported: Mask)
    requires Inv(s) && fd < |s.fds| && s.fds[fd].events != NONE
    requires (reported.read ==> s.fds[fd].events.read) && (reported.write ==> s.fds[fd].events.write)
    ensures var r, f := Report(s, fd, reported, true, false), s.fds[fd];
            && r.Done? && r.ok && fd < |r.st.fds| && r.st.fds[fd].events == NONE && fd !in r.st.epoll
            && r.st.jobs == s.jobs + (if f.events.read then [JobOf(f.read)] else []) + (if f.events.write then [JobOf(f.write)] else [])
            && r.st.pending == s.pending - f.events.Count()
  {
    hide RegsRight, ContextsRight, Report, JobOf;
    ReportKeeps(s, fd, reported, true, false);
    var s' := Report(s, fd, reported, true, false).st;
    assert EpollAt(s', fd);
    assert s'.fds == s.fds[fd := s'.fds[fd]];
    BitsUpdate(s.fds, fd, s'.fds[fd]);
  }

  lemma TriggerAllAborts(s: State, fd: nat, mask: Mask)
    requires ContextsRight(s) && RegsRight(s) && fd < |s.fds|
    requires !mask.AndNot(s.fds[fd].events).Empty()
    ensures TriggerAll(s, fd, mask).None?
  {
    hide RegsRight, ContextsRight, Bits;
    if mask.read && s.fds[fd].events.read {
      TriggerSpec(s, fd, READ);
    }
  }

  lemma DelEventKeeps(s: State, fd: nat, e: Event, fails: bool)
    requires Inv(s)
    ensures DelEvent(s, fd, e, fails).Done? && Inv(DelEvent(s, fd, e, fails).st)
    ensures DelEvent(s, fd, e, fails).st.jobs == s.jobs
    ensures var r := DelEvent(s, fd, e, fails);
            && (r.ok <==> fd < |s.fds| && s.fds[fd].events.Has(e) && !fails)
            && (if r.ok then OnlyEvents(s, r.st, fd, s.fds[fd].events.Minus(e)) && Spared(s, r.st, fd, s.fds[fd].events.Minus(e))
                else r.st == s)
  {
    hide RegsRight, Bits, EpollRight;
    if fd < |s.fds| && s.fds[fd].events.Has(e) {
      var left := s.fds[fd].events.Minus(e);
      DropApplies(s, fd, left);
      if !fails {
        assert FdRight(s.fds[fd]);
        var s' := DelEvent(s, fd, e, fails).st;
        BitsUpdate(s.fds, fd, s'.fds[fd]);
        DropEpoll(s, s', fd, left);
        DeleteRegs(s, s', fd, e);
      }
    }
  }

  lemma DeleteRegs(s: State, s1: State, fd: nat, e: Event)
    requires RegsRight(s) && fd < |s.fds| && s.fds[fd].events.Has(e)
    requires OnlyEvents(s, s1, fd, s.fds[fd].events.Minus(e)) && s1.jobs == s.jobs && s1.nextReg == s.nextReg
    requires forall e' :: e' != e ==> s1.fds[fd].Ctx(e') == s.fds[fd].Ctx(e')
    requires s1.deleted == s.deleted + [s.fds[fd].Ctx(e).reg]
    ensures RegsRight(s1)
  {
    var r, to := s.fds[fd].Ctx(e).reg, Deleted(|s.deleted|);
    forall q: nat, p
      ensures Is(s1, q, p) <==> (Is(s, q, p) && p != Waiting(fd, e)) || (p == to && q == r)
    {
    }
    RegsMove(s, s1, fd, e, r, to);
  }

  /** The table always reaches the descriptor, and extending it changes nothing that counts. */
  lemma TableRight(s: State, fd: nat)
    requires Inv(s)
    ensures fd < |Table(s.fds, fd)| && |s.fds| <= |Table(s.fds, fd)| && Inv(s.(fds := Table(s.fds, fd)))
    ensures forall g :: 0 <= g < |s.fds| ==> Table(s.fds, fd)[g] == s.fds[g]
    ensures fd >= |s.fds| ==> Table(s.fds, fd)[fd] == FRESH && |Table(s.fds, fd)| == fd + fd / 2
  {
    if |s.fds| <= fd {
      var n := fd * 3 / 2 - |s.fds|;
      BitsFresh(s.fds, n);
      var s' := s.(fds := Table(s.fds, fd));
      TableRegs(s, s');
      hide Bits, FreshFds;
      forall g: nat
        ensures EpollAt(s', g)
      {
        assert EpollAt(s, g);
      }
    }
  }

  lemma TableRegs(s: State, s': State)
    requires RegsRight(s) && s' == s.(fds := s'.fds) && |s'.fds| >= |s.fds|
    requires forall g :: 0 <= g < |s'.fds| ==> s'.fds[g] == if g < |s.fds| then s.fds[g] else FRESH
    ensures RegsRight(s')
  {
    assert forall q: nat, p :: Is(s', q, p) <==> Is(s, q, p);
    RegsSame(s, s');
  }

  /** An event can be added exactly when it is not registered yet; the new context is vacant. */
  lemma AddEventKeeps(s: State, fd: nat, e: Event, cb: Option<nat>, me: Caller, fails: bool)
    requires Inv(s)
    ensures fd < |Table(s.fds, fd)|
    ensures var r := AddEvent(s, fd, e, cb, me, fails);
            && (r.Done? || r.AbortDoubleAdd?)
            && (r.AbortDoubleAdd? <==> fd < |s.fds| && s.fds[fd].events.Has(e))
            && (r.Done? ==> Inv(r.st) && (r.ok <==> !fails) && r.st.jobs == s.jobs)
            && (r.Done? && r.ok ==> Is(r.st, s.nextReg, Waiting(fd, e)) && r.st.fds[fd].Ctx(e) == Entry(me, cb, s.nextReg))
            && (r.Done? && !r.ok ==> r.st == s.(fds := Table(s.fds, fd)))
            && (r.Done? && r.ok ==> OnlyEvents(s.(fds := Table(s.fds, fd)), r.st, fd, Table(s.fds, fd)[fd].events.With(e)))
            && (r.Done? && r.ok ==> Spared(s.(fds := Table(s.fds, fd)), r.st, fd, Table(s.fds, fd)[fd].events))
  {
    hide Table;
    TableRight(s, fd);
    var t := s.(fds := Table(s.fds, fd));
    var f := t.fds[fd];
    if !f.events.Has(e) {
      hide RegsRight, Bits, ContextsRight, EpollRight;
      AddApplies(t, fd, e);
      if !fails {
        var s' := AddEvent(s, fd, e, cb, me, fails).st;
        AddParts(t, s', fd, e, cb, me);
      }
    }
  }

  lemma AddApplies(t: State, fd: nat, e: Event)
    requires ContextsRight(t) && EpollRight(t) && fd < |t.fds| && !t.fds[fd].events.Has(e)
    ensures Applicable(t.epoll, AddOp(t.fds[fd].events), fd) && Vacant(t.fds[fd].Ctx(e))
  {
    assert EpollAt(t, fd) && FdRight(t.fds[fd]);
  }

  lemma AddParts(t: State, s': State, fd: nat, e: Event, cb: Option<nat>, me: Caller)
    requires Inv(t) && fd < |t.fds| && !t.fds[fd].events.Has(e)
    requires var f := t.fds[fd];
             s' == t.(fds := t.fds[fd := f.(events := f.events.With(e)).Put(e, Entry(me, cb, t.nextReg))],
                      epoll := t.epoll[fd := f.events.With(e)], pending := t.pending + 1, nextReg := t.nextReg + 1)
    ensures Inv(s')
  {
    hide Bits, RegsRight;
    assert FdRight(t.fds[fd]);
    BitsUpdate(t.fds, fd, s'.fds[fd]);
    forall g: nat
      ensures EpollAt(s', g)
    {
      assert EpollAt(t, g);
    }
    AddRegs(t, s', fd, e);
  }

  lemma AddRegs(s: State, s': State, fd: nat, e: Event)
    requires RegsRight(s) && fd < |s.fds| && !s.fds[fd].events.Has(e)
    requires OnlyEvents(s, s', fd, s.fds[fd].events.With(e)) && s'.fds[fd].Ctx(e).reg == s.nextReg
    requires forall e' :: e' != e ==> s'.fds[fd].Ctx(e') == s.fds[fd].Ctx(e')
    requires s'.jobs == s.jobs && s'.deleted == s.deleted && s'.nextReg == s.nextReg + 1
    ensures RegsRight(s')
  {
    forall q: nat, p
      ensures Is(s', q, p) <==> Is(s, q, p) || (p == Waiting(fd, e) && q == s.nextReg)
    {
    }
    RegsAdd(s, s', fd, e);
  }

  // ---------- Runs ----------

  datatype Step =
    | Add(fd: nat, e: Event, cb: Option<nat>, me: Caller, fails: bool)
    | Del(fd: nat, e: Event, fails: bool)
    | Cancel(fd: nat, e: Event, fails: bool)
    | CancelEvery(fd: nat, fails: bool)
    | Reported(fd: nat, reported: Mask, err: bool, fails: bool)

  /** A report is about a descriptor that has a context. */
  predicate Enabled(s: State, step: Step) {
    match step
    case Add(fd, _, _, _, _) => fd < |Table(s.fds, fd)|
    case Reported(fd, _, _, _) => fd < |s.fds|
    case _ => true
  }

  function Next(s: State, step: Step): Result
    requires Enabled(s, step)
  {
    match step
    case Add(fd, e, cb, me, fails) => AddEvent(s, fd, e, cb, me, fails)
    case Del(fd, e, fails) => DelEvent(s, fd, e, fails)
    case Cancel(fd, e, fails) => CancelEvent(s, fd, e, fails)
    case CancelEvery(fd, fails) => CancelAll(s, fd, fails)
    case Reported(fd, m, err, fails) => Report(s, fd, m, err, fails)
  }

  /**
   Every step keeps the invariant or ends the program, and it ends it in two cases only: an
   event added twice, and a report wider than the registration. The assertions on the context
   of a new event and on the events left by cancelAll never fail.
   */
  lemma StepKeeps(s: State, step: Step)
    requires Inv(s)
    ensures Enabled(s, step) <==> (step.Reported? ==> step.fd < |s.fds|)
    ensures Enabled(s, step) ==>
              var r := Next(s, step);
              && (r.Done? ==> Inv(r.st))
              && !r.AbortContext? && !r.AbortLeftover?
              && (r.AbortDoubleAdd? <==> step.Add? && step.fd < |s.fds| && s.fds[step.fd].events.Has(step.e))
              && (r.AbortTrigger? <==> step.Reported? && !step.fails && WiderReal(s, step.fd, step.reported, step.err))
  {
    hide Inv, Table, AddEvent, DelEvent, CancelEvent, CancelAll, Report, WiderReal;
    match step
    case Add(fd, e, cb, me, fails) => AddEventKeeps(s, fd, e, cb, me, fails);
    case Del(fd, e, fails) => DelEventKeeps(s, fd, e, fails);
    case Cancel(fd, e, fails) => CancelEventKeeps(s, fd, e, fails);
    case CancelEvery(fd, fails) => CancelAllKeeps(s, fd, fails);
    case Reported(fd, m, err, fails) =>
      if fd < |s.fds| {
        ReportKeeps(s, fd, m, err, fails);
      }
  }

  const START: State := State(FreshFds(32), map[], 0, [], [], 0)

  lemma StartInv()
    ensures Inv(START)
  {
    BitsFresh([], 32);
    assert [] + FreshFds(32) == FreshFds(32);
    hide Bits;
    forall fd: nat
      ensures EpollAt(START, fd)
    {
    }
  }

  /** A run in which no assertion has ended the program. */
  ghost predicate Reaches(s: State, steps: seq<Step>, s': State)
    decreases |steps|
  {
    if steps == [] then s' == s
    else Enabled(s, steps[0]) && Next(s, steps[0]).Done? && Reaches(Next(s, steps[0]).st, steps[1..], s')
  }

  lemma {:induction false} RunKeeps(s: State, steps: seq<Step>, s': State)
    requires Inv(s) && Reaches(s, steps, s')
    ensures Inv(s')
    decreases |steps|
  {
    hide Inv, Next, Enabled;
    if steps != [] {
      StepKeeps(s, steps[0]);
      RunKeeps(Next(s, steps[0]).st, steps[1..], s');
    }
  }

  /** In every reachable state contexts, count and kernel masks agree with the event bits. */
  lemma EveryRun(steps: seq<Step>, s: State)
    requires Reaches(START, steps, s)
    ensures ContextsRight(s) && s.pending == Bits(s.fds) && EpollRight(s)
  {
    hide Bits, EpollRight, ContextsRight, RegsRight, Reaches;
    StartInv();
    RunKeeps(START, steps, s);
  }

  /**
   Whatever the interleaving of reports, cancellations and deletions: a registration is handed
   to a scheduler at most once, never after it was deleted, and not while it still waits.
   */
  lemma ConsumedOnce(steps: seq<Step>, s: State, r: nat)
    requires Reaches(START, steps, s) && r < s.nextReg
    ensures exists p :: Is(s, r, p) && forall p' :: Is(s, r, p') ==> p' == p
    ensures forall i, j :: 0 <= i < j < |s.jobs| ==> s.jobs[i].reg != s.jobs[j].reg
  {
    StartInv();
    RunKeeps(START, steps, s);
    hide Reaches, Inv;
    assert Inv(s) ==> RegsRight(s) by { InvParts(s); }
    assert Somewhere(s, r);
    var p :| Is(s, r, p);
    forall i, j | 0 <= i < j < |s.jobs|
      ensures s.jobs[i].reg != s.jobs[j].reg
    {
      assert Is(s, s.jobs[i].reg, HandedOver(i));
      assert Is(s, s.jobs[j].reg, HandedOver(j));
    }
  }

  lemma InvParts(s: State)
    ensures Inv(s) ==> RegsRight(s)
  {
  }

  lemma {:induction false} ReachesSnoc(s: State, steps: seq<Step>, s1: State, step: Step)
    requires Reaches(s, steps, s1) && Enabled(s1, step) && Next(s1, step).Done?
    ensures Reaches(s, steps + [step], Next(s1, step).st)
    decreases |steps|
  {
    hide Next, Enabled;
    if steps == [] {
      assert [step][1..] == [];
    } else {
      ReachesSnoc(Next(s, steps[0]).st, steps[1..], s1, step);
      assert (steps + [step])[1..] == steps[1..] + [step];
    }
  }

  lemma NoSteps(s: State)
    ensures Reaches(s, [], s)
  {
  }

  lemma MaskOf(s: State, fd: nat)
    requires Inv(s) && fd < |s.fds| && !s.fds[fd].events.Empty()
    ensures fd in s.epoll && s.epoll[fd] == s.fds[fd].events
  {
    assert EpollAt(s, fd);
  }

  /** Descriptor 3 registered for READ, then for WRITE. */
  lemma BothEvents(me: Caller, other: Caller) returns (steps: seq<Step>, s: State)
    ensures Reaches(START, steps, s) && Inv(s) && 3 < |s.fds| && s.fds[3].events == Mask(true, true)
  {
    StartInv();
    hide Inv, AddEvent, Table, Reaches;
    AddEventKeeps(START, 3, READ, None, me, false);
    NoSteps(START);
    ReachesSnoc(START, [], START, Add(3, READ, None, me, false));
    steps, s := [] + [Add(3, READ, None, me, false)], AddEvent(START, 3, READ, None, me, false).st;
    TableRight(START, 3);
    TableRight(s, 3);
    AddEventKeeps(s, 3, WRITE, None, other, false);
    ReachesSnoc(START, steps, s, Add(3, WRITE, None, other, false));
    steps, s := steps + [Add(3, WRITE, None, other, false)], AddEvent(s, 3, WRITE, None, other, false).st;
  }

  /**
   A report can be wider than the registration when it is handled: taken while READ and WRITE
   are registered, it is within the kernel's mask; then WRITE is cancelled; then the report is
   handled, and ends the program.
   */
  lemma WideReportAborts(me: Caller, other: Caller)
    ensures exists steps, taken, s ::
              && Reaches(START, steps, taken) && 3 in taken.epoll && taken.epoll[3] == Mask(true, true)
              && Reaches(taken, [Cancel(3, WRITE, false)], s)
              && 3 < |s.fds| && Report(s, 3, Mask(true, true), false, false).AbortTrigger?
  {
    hide Inv, CancelEvent, Report;
    var steps, taken := BothEvents(me, other);
    MaskOf(taken, 3);
    CancelEventKeeps(taken, 3, WRITE, false);
    var s := CancelEvent(taken, 3, WRITE, false).st;
    assert [Cancel(3, WRITE, false)][1..] == [];
    assert Reaches(taken, [Cancel(3, WRITE, false)], s);
    ReportKeeps(s, 3, Mask(true, true), false, false);
  }
}
