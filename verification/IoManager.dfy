/**
 The I/O manager of sylar/iomanager.cc. The methods update the contexts, the count and the
 queues in place, with the kernel's registrations beside them; each is proved to take the step
 of `IoModel` that carries its name, and an assertion that fails ends it with `aborted`.
 */
module IoManagers {
  import opened Wrappers
  import opened IoModel
  import opened IoLaws
  import M = IoModel

  /** One entry of the array that epoll_wait fills. */
  datatype EpollEvent = EpollEvent(fd: nat, events: Mask, errorOrHangup: bool)

  class IoManager {
    var fdContexts: seq<Fd>
    var epoll: map<nat, Mask>
    var pendingEventCount: int
    var scheduled: seq<Job>
    var deleted: seq<nat>
    var registrations: nat

    ghost function St(): State
      reads this
    {
      State(fdContexts, epoll, pendingEventCount, scheduled, deleted, registrations)
    }

    ghost predicate Valid()
      reads this
    {
      Inv(St())
    }

    constructor ()
      ensures Valid() && St() == START
    {
      fdContexts, epoll, pendingEventCount := FreshFds(32), map[], 0;
      scheduled, deleted, registrations := [], [], 0;
      StartInv();
    }

    /** The kernel call; true is success. */
    method EpollCtl(op: CtlOp, fd: nat, mask: Mask, fails: bool) returns (ok: bool)
      modifies this`epoll
      ensures var r := M.EpollCtl(old(epoll), op, fd, mask, fails);
              (ok <==> r.Some?) && epoll == if ok then r.value else old(epoll)
    {
      if fails || !Applicable(epoll, op, fd) {
        return false;
      }
      epoll := if op == CTL_DEL then epoll - {fd} else epoll[fd := mask];
      return true;
    }

    method AddEvent(fd: nat, e: Event, cb: Option<nat>, me: Caller, fails: bool) returns (aborted: bool, rt: int)
      requires Valid()
      modifies this
      ensures fd < |Table(old(fdContexts), fd)|
      ensures aborted <==> fd < |old(fdContexts)| && old(fdContexts)[fd].events.Has(e)
      ensures !aborted ==> Valid() && M.AddEvent(old(St()), fd, e, cb, me, fails) == Done(St(), rt == 0)
      ensures !aborted ==> rt == 0 || rt == -1
    {
      hide Inv, Table;
      AddEventKeeps(St(), fd, e, cb, me, fails);
      fdContexts := Table(fdContexts, fd);
      var f := fdContexts[fd];
      if f.events.Has(e) {
        return true, -1;
      }
      var ok := EpollCtl(AddOp(f.events), fd, f.events.With(e), fails);
      if !ok {
        return false, -1;
      }
      pendingEventCount := pendingEventCount + 1;
      if !Vacant(f.Ctx(e)) {
        assert false;
      }
      fdContexts := fdContexts[fd := f.(events := f.events.With(e)).Put(e, Entry(me, cb, registrations))];
      registrations := registrations + 1;
      return false, 0;
    }

    method DelEvent(fd: nat, e: Event, fails: bool) returns (r: bool)
      requires Valid()
      modifies this
      ensures Valid() && M.DelEvent(old(St()), fd, e, fails) == Done(St(), r)
    {
      hide Inv;
      DelEventKeeps(St(), fd, e, fails);
      if |fdContexts| <= fd {
        return false;
      }
      var f := fdContexts[fd];
      if !f.events.Has(e) {
        return false;
      }
      var left := f.events.Minus(e);
      var ok := EpollCtl(DropOp(left), fd, left, fails);
      if !ok {
        return false;
      }
      pendingEventCount := pendingEventCount - 1;
      deleted := deleted + [f.Ctx(e).reg];
      fdContexts := fdContexts[fd := f.(events := left).Put(e, Context(None, None, None, 0))];
      return true;
    }

    /** Takes the event and hands what waits for it to its scheduler, leaving the context empty. */
    method TriggerEvent(fd: nat, e: Event) returns (aborted: bool)
      requires fd < |fdContexts|
      modifies this`fdContexts, this`scheduled
      ensures aborted <==> Trigger(old(St()), fd, e).None?
      ensures St() == if aborted then old(St()) else Trigger(old(St()), fd, e).value
    {
      var f := fdContexts[fd];
      var c := f.Ctx(e);
      if !f.events.Has(e) || c.scheduler.None? {
        return true;
      }
      f := f.(events := f.events.Minus(e));
      if c.cb.Some? {
        scheduled := scheduled + [Job(c.scheduler.value, None, c.cb, c.reg)];
        c := c.(cb := None);
      } else {
        scheduled := scheduled + [Job(c.scheduler.value, c.fiber, None, c.reg)];
        c := c.(fiber := None);
      }
      c := c.(scheduler := None);
      fdContexts := fdContexts[fd := f.Put(e, c)];
      return false;
    }

    method CancelEvent(fd: nat, e: Event, fails: bool) returns (r: bool)
      requires Valid()
      modifies this
      ensures Valid() && M.CancelEvent(old(St()), fd, e, fails) == Done(St(), r)
    {
      hide Inv, Trigger;
      CancelEventKeeps(St(), fd, e, fails);
      if |fdContexts| <= fd {
        return false;
      }
      if !fdContexts[fd].events.Has(e) {
        return false;
      }
      var left := fdContexts[fd].events.Minus(e);
      var ok := EpollCtl(DropOp(left), fd, left, fails);
      if !ok {
        return false;
      }
      var aborted := TriggerEvent(fd, e);
      pendingEventCount := pendingEventCount - 1;
      return true;
    }

    /** The triggers of cancelAll and of a report: READ first, then WRITE, each counted down. */
    method TriggerMask(fd: nat, mask: Mask) returns (aborted: bool)
      requires fd < |fdContexts|
      modifies this`fdContexts, this`scheduled, this`pendingEventCount
      ensures aborted <==> TriggerAll(old(St()), fd, mask).None?
      ensures !aborted ==> St() == TriggerAll(old(St()), fd, mask).value
    {
      aborted := false;
      if mask.Has(READ) {
        aborted := TriggerEvent(fd, READ);
        if aborted {
          return;
        }
        pendingEventCount := pendingEventCount - 1;
      }
      if mask.Has(WRITE) {
        aborted := TriggerEvent(fd, WRITE);
        if aborted {
          return;
        }
        pendingEventCount := pendingEventCount - 1;
      }
    }

    method CancelAll(fd: nat, fails: bool) returns (r: bool)
      requires Valid()
      modifies this
      ensures Valid() && M.CancelAll(old(St()), fd, fails) == Done(St(), r)
      ensures r <==> fd < |old(fdContexts)| && old(fdContexts)[fd].events != NONE && !fails
      ensures r ==> fd < |fdContexts| && fdContexts[fd].events == NONE
      ensures scheduled == old(scheduled) + (if r then JobsOf(old(fdContexts)[fd], old(fdContexts)[fd].events) else [])
    {
      hide Inv, TriggerAll;
      CancelAllKeeps(St(), fd, fails);
      if |fdContexts| <= fd {
        return false;
      }
      if fdContexts[fd].events.Empty() {
        return false;
      }
      var ok := EpollCtl(CTL_DEL, fd, NONE, fails);
      if !ok {
        return false;
      }
      var aborted := TriggerMask(fd, fdContexts[fd].events);
      return true;
    }

    /** One turn of the loop over the reports of epoll_wait. */
    method HandleReport(event: EpollEvent, fails: bool) returns (aborted: bool, ok: bool)
      requires Valid() && event.fd < |fdContexts|
      modifies this
      ensures aborted <==> !fails && WiderReal(old(St()), event.fd, event.events, event.errorOrHangup)
      ensures !aborted ==>
                Valid() && Report(old(St()), event.fd, event.events, event.errorOrHangup, fails) == Done(St(), ok)
      ensures !aborted ==>
                var events := old(fdContexts)[event.fd].events;
                var taken := Answered(events, event.events, event.errorOrHangup);
                && (ok <==> !fails && taken != NONE)
                && (ok ==> event.fd < |fdContexts| && fdContexts[event.fd].events == Unanswered(events, event.events, event.errorOrHangup))
                && scheduled == old(scheduled) + (if ok then JobsOf(old(fdContexts)[event.fd], taken) else [])
    {
      hide Inv, TriggerAll, WiderReal;
      ReportKeeps(St(), event.fd, event.events, event.errorOrHangup, fails);
      var fd, events := event.fd, event.events;
      if event.errorOrHangup {
        events := events.Or(fdContexts[fd].events);
      }
      if fdContexts[fd].events.And(events).Empty() {
        return false, false;
      }
      var left := fdContexts[fd].events.AndNot(events);
      ok := EpollCtl(DropOp(left), fd, left, fails);
      if !ok {
        return false, false;
      }
      aborted := TriggerMask(fd, events);
    }

    /** The loop itself; it stops where an assertion ends the program. */
    method HandleReports(events: seq<EpollEvent>, failing: seq<bool>) returns (aborted: bool)
      requires Valid() && |failing| == |events|
      requires forall i :: 0 <= i < |events| ==> events[i].fd < |fdContexts|
      modifies this
      ensures !aborted ==> Valid() && Reaches(old(St()), StepsOf(events, failing), St())
      ensures aborted ==> exists i, s :: StoppedAt(old(St()), events, failing, i, s)
    {
      hide Inv, Report, WiderReal;
      aborted := false;
      var i := 0;
      ghost var s0 := St();
      while i < |events|
        invariant i <= |events| && Valid() && |fdContexts| == |old(fdContexts)|
        invariant Reaches(s0, StepsOf(events[..i], failing[..i]), St())
      {
        ghost var s1 := St();
        var ok;
        aborted, ok := HandleReport(events[i], failing[i]);
        if aborted {
          assert StoppedAt(s0, events, failing, i, s1);
          return;
        }
        ReportSize(s1, events[i].fd, events[i].events, events[i].errorOrHangup, failing[i]);
        StepsSnoc(events, failing, i);
        ReachesSnoc(s0, StepsOf(events[..i], failing[..i]), s1, StepOf(events[i], failing[i]));
        i := i + 1;
      }
      assert events[..i] == events && failing[..i] == failing;
    }
  }

  /** The reports before number i led to s, and number i is wider than its registration there. */
  ghost predicate StoppedAt(s0: State, events: seq<EpollEvent>, failing: seq<bool>, i: int, s: State)
    requires |failing| == |events|
  {
    && 0 <= i < |events| && !failing[i]
    && Reaches(s0, StepsOf(events[..i], failing[..i]), s)
    && events[i].fd < |s.fds| && WiderReal(s, events[i].fd, events[i].events, events[i].errorOrHangup)
  }

  function StepOf(ev: EpollEvent, fails: bool): Step {
    Reported(ev.fd, ev.events, ev.errorOrHangup, fails)
  }

  function StepsOf(events: seq<EpollEvent>, failing: seq<bool>): seq<Step>
    requires |failing| == |events|
  {
    if events == [] then [] else [StepOf(events[0], failing[0])] + StepsOf(events[1..], failing[1..])
  }

  lemma {:induction false} StepsSnoc(events: seq<EpollEvent>, failing: seq<bool>, i: nat)
    requires |failing| == |events| && i < |events|
    ensures StepsOf(events[..i + 1], failing[..i + 1])
         == StepsOf(events[..i], failing[..i]) + [StepOf(events[i], failing[i])]
    decreases i
  {
    var e, f := events[..i + 1], failing[..i + 1];
    if i > 0 {
      StepsSnoc(events[1..], failing[1..], i - 1);
      assert e[1..] == events[1..][..i] && f[1..] == failing[1..][..i];
      assert events[..i][1..] == events[1..][..i - 1] && failing[..i][1..] == failing[1..][..i - 1];
    }
  }

  lemma ReportSize(s: State, fd: nat, m: Mask, err: bool, fails: bool)
    requires fd < |s.fds| && Report(s, fd, m, err, fails).Done?
    ensures |Report(s, fd, m, err, fails).st.fds| == |s.fds|
  {
  }
}
