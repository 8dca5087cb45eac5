/** The same question for timers: whether an armed timer can outlive the last worker. */
module ShutdownTimers {
  import opened Wrappers
  import opened Bits
  import opened Shutdown
  import S = SchedulerModel
  import L = SchedulerLaws
  import T = TimerModel
  import TL = TimerLaws
  import TE = TimerEffects
  import C = TimerClock
  import IoLaws

  // ---------- One timer ----------

  /** The listing takes a timer that is due and does not recur. */
  ghost predicate Ends(tm: T.State, m: Move, a: T.Addr)
    requires a in tm.heap
  {
    || m == Timers(CancelTimer(a))
    || (m.Fire? && TL.Due(tm, a, m.now) && !tm.heap[a].recurring)
  }

  lemma ArmedIs(tm: T.State)
    ensures TL.Armed(tm) ==> T.Consistent(tm) && T.Sorted(tm.heap, tm.order)
  {
  }

  lemma TimerArmed(tm: T.State, op: TimerOp)
    requires TL.Armed(tm) && T.Consistent(tm) && (if op.AddTimer? then op.a !in tm.heap else op.a in tm.heap)
    ensures TL.Armed(AfterTimer(tm, op))
  {
    hide TL.Armed, T.Sorted, T.AddTimer, T.Cancel, T.Refresh, T.Reset;
    match op
    case AddTimer(b, ms, cb, recurring, created) =>
      assert b !in tm.order;
      C.AddAnyClock(tm, None, b, ms, cb, recurring, created);
    case CancelTimer(b) => C.CancelAnyClock(tm, None, b);
    case RefreshTimer(b, now) => C.RefreshAnyClock(tm, None, b, now);
    case ResetTimer(b, ms, fromNow, now) => C.ResetAnyClock(tm, None, b, ms, fromNow, now);
  }

  /** An armed timer stays in the set unless it is cancelled or taken; one that left does not come back. */
  lemma TimerStep(tm: T.State, op: TimerOp, a: T.Addr)
    requires TL.Armed(tm) && T.Consistent(tm) && a in tm.heap
    requires if op.AddTimer? then op.a !in tm.heap else op.a in tm.heap
    ensures TL.Armed(AfterTimer(tm, op)) && a in AfterTimer(tm, op).heap
    ensures a in AfterTimer(tm, op).order <==> a in tm.order && op != CancelTimer(a)
    ensures var r, r' := tm.heap[a], AfterTimer(tm, op).heap[a];
            a in AfterTimer(tm, op).order ==>
              && r'.cb == r.cb && r'.recurring == r.recurring
              && (op.a != a ==> r' == r)
              && (op.RefreshTimer? && op.a == a ==> r'.ms == r.ms && r'.next == op.now + r.ms)
              && (op.ResetTimer? && op.a == a ==> r'.ms == op.ms && (op.fromNow ==> r'.next == op.now + op.ms))
  {
    ArmedIs(tm);
    hide TL.Armed, T.Sorted, T.AddTimer, T.Cancel, T.Refresh, T.Reset, Wrap;
    TimerArmed(tm, op);
    match op
    case AddTimer(b, ms, cb, recurring, created) =>
      assert b !in tm.order;
      TE.AddTimerEffect(tm, b, ms, cb, recurring, created);
    case CancelTimer(b) => TE.CancelEffect(tm, b);
    case RefreshTimer(b, now) => TE.RefreshEffect(tm, b, now);
    case ResetTimer(b, ms, fromNow, now) => TE.ResetChanges(tm, b, ms, fromNow, now);
  }

  lemma FireStep(tm: T.State, now: nat, probe: T.Addr, a: T.Addr)
    requires TL.Armed(tm) && T.Consistent(tm) && a in tm.heap
    ensures var tm' := T.ListExpired(tm, now, probe).0;
            && TL.Armed(tm') && a in tm'.heap
            && (a in tm'.order <==> a in tm.order && (TL.Due(tm, a, now) ==> tm.heap[a].recurring))
  {
    ArmedIs(tm);
    hide TL.Armed, T.Sorted, T.ListExpired, TL.Due;
    TL.ListExpiredSpec(tm, now, probe);
    C.ListAnyClock(tm, None, now, probe);
  }

  lemma MoveTimer(b: Whole, m: Move, a: T.Addr)
    requires TL.Armed(b.tm) && a in b.tm.heap && CanMove(b, m)
    ensures TL.Armed(Make(b, m).tm) && a in Make(b, m).tm.heap
    ensures a in Make(b, m).tm.order <==> a in b.tm.order && !Ends(b.tm, m, a)
  {
    hide TL.Armed, T.ListExpired, TL.Due, AfterTimer, Hand, S.Next, S.Enabled, IoLaws.Next, IoLaws.Enabled;
    match m
    case Timers(op) => TimerStep(b.tm, op, a);
    case Fire(t, now, probe) => FireStep(b.tm, now, probe, a);
    case Peek(t, now) => ArmedPeek(b.tm, now);
    case _ =>
  }

  lemma ArmedPeek(tm: T.State, now: nat)
    requires TL.Armed(tm) && T.Consistent(tm)
    ensures TL.Armed(T.GetNext(tm, now).0)
  {
  }

  /**
   A listing puts the callbacks of exactly the due timers, in the order of the set, at the end
   of the queue, for any thread.
   */
  lemma FiredReachQueue(b: Whole, t: int, now: nat, probe: T.Addr)
    requires TL.Armed(b.tm) && CanMove(b, Fire(t, now, probe))
    ensures var q, n, due := Make(b, Fire(t, now, probe)).sch.queue, |b.sch.queue|, b.tm.order;
            && n <= |q| <= n + |due| && q[..n] == b.sch.queue
            && (forall k :: 0 <= k < |due| ==> (k < |q| - n <==> TL.Due(b.tm, due[k], now)))
            && (forall k :: n <= k < |q| ==>
                  q[k].thread == S.ANY && b.tm.heap[due[k - n]].cb.Some? && q[k].work == S.CbWork(b.tm.heap[due[k - n]].cb.value))
  {
    ArmedIs(b.tm);
    TL.ListExpiredSpec(b.tm, now, probe);
    var cbs := T.ListExpired(b.tm, now, probe).1;
    assert forall k :: 0 <= k < |cbs| ==> b.tm.order[k] in b.tm.order;
    hide T.ListExpired, TL.Due, T.Sorted, Hand;
    HandQueues(b.sch, Callbacks(cbs));
  }

  // ---------- Workers that cannot leave ----------

  /** The worker runs, and its idle fiber has to look at the timers again before it ends. */
  predicate Waking(b: Whole, t: int) {
    Staying(b, t) && t !in b.peeked
  }

  lemma WakingStep(b: Whole, m: Move, t: int)
    requires CanMove(b, m) && Waking(b, t) && (m.Peek? && m.t == t ==> b.tm.order != [])
    ensures Waking(Make(b, m), t)
  {
    hide S.Next, S.Enabled, IoLaws.Next, IoLaws.Enabled, T.ListExpired, T.GetNext, Hand, AfterTimer, Callbacks, Staying;
    StayStep(b, m, t);
  }

  // ---------- Runs ----------

  /** No idle fiber looks at the timers, and the timer is not cancelled. */
  predicate Silent(moves: seq<Move>, a: T.Addr) {
    forall k :: 0 <= k < |moves| ==> !moves[k].Peek? && moves[k] != Timers(CancelTimer(a))
  }

  lemma {:induction false} WakingWithoutPeek(b: Whole, moves: seq<Move>, b': Whole, t: int)
    requires Leads(b, moves, b') && Waking(b, t) && forall k :: 0 <= k < |moves| ==> !moves[k].Peek?
    ensures L.Live(b'.sch, t)
    decreases |moves|
  {
    hide CanMove, Make;
    if moves != [] {
      WakingStep(b, moves[0], t);
      WakingWithoutPeek(Make(b, moves[0]), moves[1..], b', t);
    }
  }

  /** What is armed at the end has been armed all along. */
  lemma {:induction false} ArmedBefore(b: Whole, moves: seq<Move>, b': Whole, a: T.Addr)
    requires TL.Armed(b.tm) && a in b.tm.heap && Leads(b, moves, b') && a in b'.tm.order
    ensures a in b.tm.order
    decreases |moves|
  {
    hide TL.Armed, CanMove, Make, Ends;
    if moves != [] {
      MoveTimer(b, moves[0], a);
      ArmedBefore(Make(b, moves[0]), moves[1..], b', a);
    }
  }

  lemma {:induction false} WakingWhileArmed(b: Whole, moves: seq<Move>, b': Whole, t: int, a: T.Addr)
    requires TL.Armed(b.tm) && a in b.tm.heap && Leads(b, moves, b') && Waking(b, t) && a in b'.tm.order
    ensures L.Live(b'.sch, t)
    decreases |moves|
  {
    hide TL.Armed, CanMove, Make, Ends;
    if moves != [] {
      ArmedBefore(b, moves, b', a);
      MoveTimer(b, moves[0], a);
      WakingStep(b, moves[0], t);
      WakingWhileArmed(Make(b, moves[0]), moves[1..], b', t, a);
    }
  }

  lemma IdleKept(b: Whole, m: Move)
    requires IdleRight(b) && CanMove(b, m)
    ensures IdleRight(Make(b, m))
    ensures m.Fire? ==> Waking(Make(b, m), m.t)
  {
    hide IoLaws.Next, IoLaws.Enabled, S.FirstEligible, S.Without, T.ListExpired, T.GetNext, Hand, AfterTimer, Callbacks;
  }

  lemma {:induction false} StaysArmed(b: Whole, moves: seq<Move>, b': Whole, a: T.Addr)
    requires TL.Armed(b.tm) && IdleRight(b) && Leads(b, moves, b') && Gone(b')
    requires a in b.tm.order && a in b.tm.heap && Silent(moves, a)
    ensures a in b'.tm.order
    decreases |moves|
  {
    hide TL.Armed, IdleRight, CanMove, Make, L.Live, Waking;
    if moves != [] {
      var b1 := Make(b, moves[0]);
      IdleKept(b, moves[0]);
      MoveTimer(b, moves[0], a);
      if a in b1.tm.order {
        StaysArmed(b1, moves[1..], b', a);
      } else {
        WakingWithoutPeek(b1, moves[1..], b', moves[0].t);
      }
    }
  }

  lemma PeekFails(b: Whole, m: Move, a: T.Addr)
    requires CanMove(b, m) && IdleRight(b) && m.Peek? && a in b.tm.order
    ensures Waking(Make(b, m), m.t)
  {
  }

  lemma {:induction false} WasSilent(b: Whole, moves: seq<Move>, b': Whole, a: T.Addr)
    requires TL.Armed(b.tm) && IdleRight(b) && Leads(b, moves, b') && Gone(b')
    requires a in b.tm.heap && a in b'.tm.order
    ensures Silent(moves, a)
    decreases |moves|
  {
    hide TL.Armed, IdleRight, CanMove, Make, L.Live, Waking, TL.Due;
    if moves != [] {
      var b1 := Make(b, moves[0]);
      ArmedBefore(b, moves, b', a);
      IdleKept(b, moves[0]);
      MoveTimer(b, moves[0], a);
      ArmedBefore(b1, moves[1..], b', a);
      WasSilent(b1, moves[1..], b', a);
      if moves[0].Peek? {
        PeekFails(b, moves[0], a);
        WakingWhileArmed(b1, moves[1..], b', moves[0].t, a);
      }
      assert forall k :: 1 <= k < |moves| ==> moves[k] == moves[1..][k - 1];
    }
  }

  lemma {:induction false} LeadsRight(b: Whole, moves: seq<Move>, b': Whole)
    requires TL.Armed(b.tm) && IdleRight(b) && Leads(b, moves, b')
    ensures TL.Armed(b'.tm) && IdleRight(b')
    decreases |moves|
  {
    hide TL.Armed, IdleRight, CanMove, Make;
    if moves != [] {
      IdleKept(b, moves[0]);
      MoveArmed(b, moves[0]);
      LeadsRight(Make(b, moves[0]), moves[1..], b');
    }
  }

  lemma MoveArmed(b: Whole, m: Move)
    requires TL.Armed(b.tm) && CanMove(b, m)
    ensures TL.Armed(Make(b, m).tm)
  {
    hide TL.Armed, T.ListExpired, AfterTimer, Hand, S.Next, S.Enabled, IoLaws.Next, IoLaws.Enabled;
    match m
    case Timers(op) => TimerArmed(b.tm, op);
    case Fire(t, now, probe) => C.ListAnyClock(b.tm, None, now, probe);
    case Peek(t, now) => ArmedPeek(b.tm, now);
    case _ =>
  }

  /**
   Once the last worker has left, a timer is still armed exactly if, after it was armed, no
   idle fiber looked at the timers and nobody cancelled it.
   */
  lemma TimerOutlivesExactly(b0: Whole, before: seq<Move>, b: Whole, a: T.Addr, ms: nat, cb: nat, recurring: bool, created: nat,
                             after: seq<Move>, b': Whole)
    requires Begins(b0) && Leads(b0, before, b)
    requires CanMove(b, Timers(AddTimer(a, ms, cb, recurring, created)))
    requires Leads(Make(b, Timers(AddTimer(a, ms, cb, recurring, created))), after, b') && Gone(b')
    ensures a in b'.tm.order <==> Silent(after, a)
  {
    assert TL.Armed(b0.tm) && IdleRight(b0);
    hide IdleRight, Leads, CanMove, Gone, Silent, Begins;
    LeadsRight(b0, before, b);
    var m := Timers(AddTimer(a, ms, cb, recurring, created));
    Added(b, a, ms, cb, recurring, created);
    IdleKept(b, m);
    hide TL.Armed, Make;
    var b1 := Make(b, m);
    if Silent(after, a) {
      StaysArmed(b1, after, b', a);
    }
    if a in b'.tm.order {
      WasSilent(b1, after, b', a);
    }
  }

  lemma Added(b: Whole, a: T.Addr, ms: nat, cb: nat, recurring: bool, created: nat)
    requires TL.Armed(b.tm) && CanMove(b, Timers(AddTimer(a, ms, cb, recurring, created)))
    ensures var tm := Make(b, Timers(AddTimer(a, ms, cb, recurring, created))).tm;
            TL.Armed(tm) && a in tm.heap && a in tm.order
  {
    ArmedIs(b.tm);
    hide TL.Armed, T.Sorted, T.AddTimer;
    TimerArmed(b.tm, AddTimer(a, ms, cb, recurring, created));
    assert a !in b.tm.order;
    TE.AddTimerEffect(b.tm, a, ms, cb, recurring, created);
  }

  // ---------- A run that leaves a timer behind ----------

  lemma OneTimer(a: T.Addr, ms: nat, cb: nat)
    ensures var tm := AfterTimer(NO_TIMERS, AddTimer(a, ms, cb, false, 0));
            tm.order == [a] && a in tm.heap && tm.heap[a].cb == Some(cb)
  {
  }

  lemma LastArms(a: T.Addr, ms: nat, cb: nat) returns (moves: seq<Move>, b: Whole)
    ensures Leads(FIRST, moves, b) && b.tm.order == [a]
    ensures b == Whole(L.Two([], S.Exited, true, S.Running(S.Task(2, S.FiberWork(0), S.ANY), 0), true, map[0 := S.EXEC], 1, true, 3, {0, 1}), b.io, b.tm, {}, {})
  {
    OneTimer(a, ms, cb);
    hide Leads, AfterTimer;
    moves, b := LastOne();
    moves, b := Continue(moves, b, Timers(AddTimer(a, ms, cb, false, 0)));
  }

  /** The fiber arms a timer in the slice of the last worker, which then leaves. */
  lemma TimerLeftBehind(a: T.Addr, ms: nat, cb: nat)
    ensures Begins(FIRST)
    ensures exists moves, b :: Leads(FIRST, moves, b) && Gone(b) && b.tm.order == [a]
  {
    assert Begins(FIRST) by { assert S.At(L.FIRST, 1); }
    hide Leads, Begins, CanMove, Make;
    var moves, b := LastArms(a, ms, cb);
    moves, b := WorkMove(moves, b, S.SliceEnd(2, S.HOLD));
    moves, b := WorkMove(moves, b, S.Scan(2));
  }
}
