/**
 The calls of do_io with the timer set itself: timer number t of the calls is the object at
 address t, armed by addConditionTimer, taken out by cancel, and expired by listExpiredCb,
 which takes all due timers at once.
 */
module TimedIo {
  import opened Wrappers
  import D = DoIo
  import IoModel
  import T = TimerModel
  import L = TimerLaws
  import F = TimerEffects
  import C = TimerClock

  datatype Timed = Timed(w: D.World, tm: T.State)

  datatype Move =
    | Act(a: D.Act, to: nat, created: nat)   // to, created: the timeout, and the clock when it is armed
    | Fire(now: nat, probe: T.Addr)          // an idle fiber lists the expired timers

  ghost predicate CanMove(x: Timed, m: Move) {
    m.Act? ==> D.CanAct(x.w, m.a) && !m.a.Expire?
  }

  function CancelTimer(tm: T.State, t: Option<nat>): T.State
    requires T.Consistent(tm)
  {
    if t.None? || t.value !in tm.heap then tm
    else
      match T.Cancel(tm, t.value)
      case Effect(st, _, _) => st
      case EraseMissing => tm
  }

  /** What an act does to the timer set. */
  ghost function TimersAfter(x: Timed, a: D.Act, to: nat, created: nat): T.State
    requires T.Consistent(x.tm) && D.CanAct(x.w, a)
  {
    match a
    case Attempt(c, blocks, _) =>
      if blocks && x.w.calls[c].timeout then T.AddTimer(x.tm, |x.w.timers|, to, |x.w.timers|, false, created).st
      else x.tm
    case Register(c, fails) =>
      var call := x.w.calls[c];
      if IoModel.AddEvent(x.w.io, call.fd, call.e, None, call.me, fails).ok then x.tm else CancelTimer(x.tm, call.timer)
    case Resume(c, _) => CancelTimer(x.tm, x.w.calls[c].timer)
    case _ => x.tm
  }

  /** Armed timers among ts expire. */
  function ExpireAll(timers: seq<D.TimerState>, ts: seq<nat>): (r: seq<D.TimerState>)
    ensures |r| == |timers|
    ensures forall t :: 0 <= t < |timers| ==>
              r[t] == if t in ts && timers[t].Armed? then D.Expired(timers[t].call) else timers[t]
    decreases |ts|
  {
    if ts == [] then timers
    else
      var t := ts[0];
      ExpireAll(if t < |timers| && timers[t].Armed? then timers[t := D.Expired(timers[t].call)] else timers, ts[1..])
  }

  ghost function Make(x: Timed, m: Move): Timed
    requires T.Consistent(x.tm) && CanMove(x, m)
  {
    match m
    case Act(a, to, created) => Timed(D.Do(x.w, a), TimersAfter(x, a, to, created))
    case Fire(now, probe) =>
      Timed(x.w.(timers := ExpireAll(x.w.timers, x.tm.order[..T.Taken(x.tm, now, probe)])), T.ListExpired(x.tm, now, probe).0)
  }

  // ---------- The timers of the calls are the timers of the set ----------

  predicate LinkedAt(x: Timed, t: nat) {
    && (t in x.tm.heap <==> t < |x.w.timers|)
    && (t in x.tm.heap ==> !x.tm.heap[t].recurring)
    && (t in x.tm.order <==> t < |x.w.timers| && x.w.timers[t].Armed?)
  }

  ghost predicate Linked(x: Timed) {
    L.Armed(x.tm) && T.Consistent(x.tm) && forall t: nat :: LinkedAt(x, t)
  }

  lemma ArmedIs(tm: T.State)
    ensures L.Armed(tm) ==> T.Consistent(tm)
  {
  }

  lemma CancelLinks(x: Timed, t: Option<nat>, w': D.World)
    requires Linked(x) && w'.timers == D.CancelTimer(x.w.timers, t)
    ensures Linked(Timed(w', CancelTimer(x.tm, t)))
  {
    hide L.Armed, T.Cancel, T.Sorted;
    var x' := Timed(w', CancelTimer(x.tm, t));
    if t.Some? && t.value in x.tm.heap {
      F.CancelEffect(x.tm, t.value);
      C.CancelAnyClock(x.tm, None, t.value);
    }
    ArmedIs(x'.tm);
    forall u: nat
      ensures LinkedAt(x', u)
    {
      assert LinkedAt(x, u);
      assert t.Some? ==> LinkedAt(x, t.value);
    }
  }

  lemma ArmLinks(x: Timed, to: nat, created: nat, c: nat, w': D.World)
    requires Linked(x) && w'.timers == x.w.timers + [D.Armed(c)]
    ensures Linked(Timed(w', T.AddTimer(x.tm, |x.w.timers|, to, |x.w.timers|, false, created).st))
  {
    hide L.Armed, T.AddTimer, T.Sorted;
    var n := |x.w.timers|;
    assert LinkedAt(x, n);
    ArmedSorted(x.tm);
    F.AddTimerEffect(x.tm, n, to, n, false, created);
    C.AddAnyClock(x.tm, None, n, to, n, false, created);
    var x' := Timed(w', T.AddTimer(x.tm, n, to, n, false, created).st);
    ArmedIs(x'.tm);
    forall u: nat
      ensures LinkedAt(x', u)
    {
      assert LinkedAt(x, u);
    }
  }

  lemma ArmedSorted(tm: T.State)
    requires L.Armed(tm)
    ensures T.Sorted(tm.heap, tm.order)
  {
  }

  /** Acts that arm or cancel no timer leave armed timers armed and arm none. */
  lemma SameLinks(x: Timed, w': D.World)
    requires Linked(x) && |w'.timers| == |x.w.timers|
    requires forall t :: 0 <= t < |x.w.timers| ==> (w'.timers[t].Armed? <==> x.w.timers[t].Armed?)
    ensures Linked(Timed(w', x.tm))
  {
    hide L.Armed;
    forall u: nat
      ensures LinkedAt(Timed(w', x.tm), u)
    {
      assert LinkedAt(x, u);
    }
  }

  lemma FireLinks(x: Timed, now: nat, probe: T.Addr)
    requires Linked(x)
    ensures Linked(Make(x, Fire(now, probe)))
  {
    hide L.Armed, T.ListExpired, T.Sorted, T.Taken, L.Due;
    ArmedSorted(x.tm);
    L.ListExpiredSpec(x.tm, now, probe);
    L.TakenSpec(x.tm, now, probe);
    C.ListAnyClock(x.tm, None, now, probe);
    var x' := Make(x, Fire(now, probe));
    ArmedIs(x'.tm);
    var n := T.Taken(x.tm, now, probe);
    assert forall b :: b in x.tm.order[..n] <==> b in x.tm.order && L.Due(x.tm, b, now) by { L.DueMembers(x.tm, now, n); }
    forall u: nat
      ensures LinkedAt(x', u)
    {
      assert LinkedAt(x, u);
    }
  }

  lemma ActLinks(x: Timed, a: D.Act, to: nat, created: nat)
    requires Linked(x) && CanMove(x, Act(a, to, created))
    ensures Linked(Make(x, Act(a, to, created)))
  {
    hide Linked, IoModel.AddEvent, IoModel.CancelEvent, IoModel.Table, T.AddTimer, CancelTimer;
    var w' := D.Do(x.w, a);
    match a
    case Attempt(c, blocks, ok) =>
      if blocks && x.w.calls[c].timeout { ArmLinks(x, to, created, c, w'); } else { SameLinks(x, w'); }
    case Register(c, fails) =>
      if w'.calls[c].phase.Parked? { SameLinks(x, w'); } else { CancelLinks(x, x.w.calls[c].timer, w'); }
    case Resume(c, i) => CancelLinks(x, x.w.calls[c].timer, w');
    case _ => SameLinks(x, w');
  }

  // ---------- Runs ----------

  ghost predicate Leads(x: Timed, moves: seq<Move>, x': Timed)
    decreases |moves|
  {
    if moves == [] then x' == x
    else T.Consistent(x.tm) && CanMove(x, moves[0]) && Leads(Make(x, moves[0]), moves[1..], x')
  }

  /** Expiring several timers at once is expiring them one by one. */
  lemma {:induction false} ExpireOneByOne(w: D.World, ts: seq<nat>) returns (acts: seq<D.Act>)
    requires forall i, j :: 0 <= i < j < |ts| ==> ts[i] != ts[j]
    requires forall i :: 0 <= i < |ts| ==> ts[i] < |w.timers| && w.timers[ts[i]].Armed?
    ensures D.Leads(w, acts, w.(timers := ExpireAll(w.timers, ts)))
    decreases |ts|
  {
    if ts == [] {
      acts := [];
    } else {
      var t := ts[0];
      var w1 := D.Do(w, D.Expire(t));
      acts := ExpireOneByOne(w1, ts[1..]);
      acts := [D.Expire(t)] + acts;
      assert acts[1..] + [] == acts[1..];
    }
  }

  lemma {:induction false} LeadsJoin(w: D.World, a: seq<D.Act>, w1: D.World, b: seq<D.Act>, w2: D.World)
    requires D.Leads(w, a, w1) && D.Leads(w1, b, w2)
    ensures D.Leads(w, a + b, w2)
    decreases |a|
  {
    hide D.CanAct, D.Do;
    if a == [] {
      assert a + b == b;
    } else {
      assert (a + b)[1..] == a[1..] + b;
      LeadsJoin(D.Do(w, a[0]), a[1..], w1, b, w2);
    }
  }

  lemma FireActs(x: Timed, now: nat, probe: T.Addr) returns (acts: seq<D.Act>)
    requires Linked(x)
    ensures D.Leads(x.w, acts, Make(x, Fire(now, probe)).w)
  {
    hide L.Armed, T.ListExpired, T.Sorted, T.Taken;
    var n := T.Taken(x.tm, now, probe);
    ArmedSorted(x.tm);
    L.SplitSorted(x.tm.heap, x.tm.order, n);
    forall i | 0 <= i < n
      ensures x.tm.order[i] < |x.w.timers| && x.w.timers[x.tm.order[i]].Armed?
    {
      assert x.tm.order[i] in x.tm.order && LinkedAt(x, x.tm.order[i]);
    }
    acts := ExpireOneByOne(x.w, x.tm.order[..n]);
  }

  lemma OneAct(w: D.World, a: D.Act)
    requires D.CanAct(w, a)
    ensures D.Leads(w, [a], D.Do(w, a))
  {
    assert [a][1..] == [];
  }

  /** A run with the timer set is a run of the calls, and its timers are those of the set. */
  lemma {:induction false} Projects(x: Timed, moves: seq<Move>, x': Timed) returns (acts: seq<D.Act>)
    requires Linked(x) && Leads(x, moves, x')
    ensures Linked(x') && D.Leads(x.w, acts, x'.w)
    decreases |moves|
  {
    if moves == [] {
      acts := [];
    } else {
      var m, first := moves[0], [];
      if m.Act? {
        OneAct(x.w, m.a);
        first := [m.a];
        ActLinks(x, m.a, m.to, m.created);
      } else {
        first := FireActs(x, m.now, m.probe);
        FireLinks(x, m.now, m.probe);
      }
      hide Linked, D.Leads, D.CanAct, D.Do;
      var rest := Projects(Make(x, m), moves[1..], x');
      LeadsJoin(x.w, first, Make(x, m).w, rest, x'.w);
      acts := first + rest;
    }
  }

  const BEGIN: Timed := Timed(D.BEGIN, T.State(map[], [], false, 0))

  lemma BeginLinked()
    ensures Linked(BEGIN)
  {
    forall t: nat
      ensures LinkedAt(BEGIN, t)
    {
    }
  }

  /**
   In every interleaving, with the timer set as it is: a parked call with a timeout that is not
   marked has a timer that is in the set, or whose callback has been taken and has not run.
   */
  lemma DeadlineInSet(moves: seq<Move>, x: Timed, c: nat, r: nat)
    requires Leads(BEGIN, moves, x) && D.IsParked(x.w, c, r) && x.w.calls[c].timeout && !x.w.calls[c].cancelled
    ensures exists t: nat :: D.Pending(x.w, t, c) && (t in x.tm.order <==> x.w.timers[t] == D.Armed(c))
  {
    BeginLinked();
    var acts := Projects(BEGIN, moves, x);
    D.EveryInterleaving(acts, x.w, c, r);
    var t :| D.Pending(x.w, t, c);
    assert LinkedAt(x, t);
  }

  /** A timer of the set is taken by the first listing at or past its deadline. */
  lemma DeadlineIsTaken(x: Timed, t: nat, c: nat, now: nat, probe: T.Addr)
    requires Linked(x) && t < |x.w.timers| && x.w.timers[t] == D.Armed(c)
    ensures t in x.tm.heap
    ensures now >= x.tm.heap[t].next ==> Make(x, Fire(now, probe)).w.timers[t] == D.Expired(c)
    ensures now < x.tm.heap[t].next && !T.Rollover(now, x.tm.previous) ==> Make(x, Fire(now, probe)).w.timers[t] == D.Armed(c)
  {
    hide L.Armed, T.ListExpired, T.Sorted, T.Taken, T.Rollover;
    ArmedSorted(x.tm);
    assert LinkedAt(x, t);
    L.TakenSpec(x.tm, now, probe);
    var n := T.Taken(x.tm, now, probe);
    L.DueMembers(x.tm, now, n);
  }

  // ---------- The deadline itself ----------

  /** A timer object of the calls keeps its record as long as it is in the set. */
  lemma RecordKept(x: Timed, m: Move, t: nat)
    requires Linked(x) && CanMove(x, m) && t in x.tm.heap
    ensures var x' := Make(x, m);
            t in x'.tm.heap && (t in x'.tm.order ==> t in x.tm.order && x'.tm.heap[t] == x.tm.heap[t])
  {
    hide L.Armed, T.ListExpired, T.Sorted, T.Taken, T.AddTimer, T.Cancel, L.Due, IoModel.AddEvent, IoModel.CancelEvent, IoModel.Table;
    ArmedSorted(x.tm);
    var n := |x.w.timers|;
    assert LinkedAt(x, t) && LinkedAt(x, n);
    match m
    case Fire(now, probe) => L.ListExpiredSpec(x.tm, now, probe);
    case Act(a, to, created) =>
      match a
      case Attempt(c, _, _) => F.AddTimerEffect(x.tm, n, to, n, false, created);
      case Register(c, _) => CancelKeepsRecord(x.tm, x.w.calls[c].timer, t);
      case Resume(c, _) => CancelKeepsRecord(x.tm, x.w.calls[c].timer, t);
      case _ =>
  }

  lemma CancelKeepsRecord(tm: T.State, u: Option<nat>, t: nat)
    requires L.Armed(tm) && T.Consistent(tm) && t in tm.heap
    ensures var tm' := CancelTimer(tm, u);
            t in tm'.heap && (t in tm'.order ==> t in tm.order && tm'.heap[t] == tm.heap[t])
  {
    hide L.Armed, T.Cancel, T.Sorted;
    if u.Some? && u.value in tm.heap {
      F.CancelEffect(tm, u.value);
    }
  }

  lemma StepLinks(x: Timed, m: Move)
    requires Linked(x) && CanMove(x, m)
    ensures Linked(Make(x, m))
  {
    match m
    case Act(a, to, created) => ActLinks(x, a, to, created);
    case Fire(now, probe) => FireLinks(x, now, probe);
  }

  lemma {:induction false} RecordRun(x: Timed, moves: seq<Move>, x': Timed, t: nat)
    requires Linked(x) && Leads(x, moves, x') && t in x.tm.heap
    ensures t in x'.tm.heap && (t in x'.tm.order ==> t in x.tm.order && x'.tm.heap[t] == x.tm.heap[t])
    decreases |moves|
  {
    hide Linked, CanMove, Make;
    if moves != [] {
      StepLinks(x, moves[0]);
      RecordKept(x, moves[0], t);
      RecordRun(Make(x, moves[0]), moves[1..], x', t);
    }
  }

  /**
   The timer that a blocking attempt arms when the clock reads `created` is due exactly `to`
   later, in every interleaving, for as long as it is in the set.
   */
  lemma DeadlineIs(before: seq<Move>, x: Timed, c: nat, to: nat, created: nat, after: seq<Move>, x': Timed)
    requires Leads(BEGIN, before, x) && T.Consistent(x.tm) && CanMove(x, Act(D.Attempt(c, true, false), to, created)) && x.w.calls[c].timeout
    requires Leads(Make(x, Act(D.Attempt(c, true, false), to, created)), after, x')
    ensures var t := |x.w.timers|;
            t in x'.tm.heap && (t in x'.tm.order ==> x'.tm.heap[t].next == created + to && !x'.tm.heap[t].recurring)
  {
    BeginLinked();
    var acts := Projects(BEGIN, before, x);
    var m, n := Act(D.Attempt(c, true, false), to, created), |x.w.timers|;
    StepLinks(x, m);
    ArmedSorted(x.tm);
    assert LinkedAt(x, n);
    F.AddTimerEffect(x.tm, n, to, n, false, created);
    hide Linked, Leads, T.AddTimer, T.Sorted;
    RecordRun(Make(x, m), after, x', n);
  }
}
