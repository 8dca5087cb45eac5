/**
 The timers under any clock: the set stays in order whatever the clock does, and the promise to
 the sleeper is broken by two operations only, each under an exact condition.
 */
module TimerClock {
  import opened Wrappers
  import opened Bits
  import opened TimerModel
  import opened TimerLaws
  import opened TimerEffects

  /** The operation does not break the promise: what refresh and listExpiredCb arm is not too early. */
  ghost predicate Harmless(w: World, op: Op)
    requires Enabled(w, op)
  {
    match op
    case OpRefresh(a) => w.woken || a !in w.st.order || NotBefore(w, w.clock + w.st.heap[a].ms)
    case OpListExpired(now, _) =>
      || w.woken || !Rollover(now, w.st.previous)
      || forall a <- w.st.order :: a in w.st.heap && w.st.heap[a].recurring ==> NotBefore(w, now + w.st.heap[a].ms)
    case _ => true
  }

  predicate NotBefore(w: World, next: nat) {
    w.reported.Some? && next >= w.reported.value
  }

  lemma ChangesArmed(s: State, s': State, a: Addr, r: Rec, armed: bool)
    requires Armed(s) && Changes(s, s', a, r, armed) && (r.cb.Some? <==> armed)
    ensures Armed(s')
  {
    hide Sorted;
  }

  lemma AddAnyClock(s: State, reported: Option<nat>, a: Addr, ms: nat, cb: nat, rec: bool, created: nat)
    requires Armed(s) && a !in s.order
    ensures var e := AddTimer(s, a, ms, cb, rec, created);
            e.Effect? && Armed(e.st) && (Awake(s, reported) ==> Awake(e.st, reported))
  {
    hide Sorted, Arm;
    var r := Rec(rec, ms, created + ms, Some(cb));
    AddTimerEffect(s, a, ms, cb, rec, created);
    ChangesArmed(s, AddTimer(s, a, ms, cb, rec, created).st, a, r, true);
    UpdateOutside(s.heap, s.order, a, r);
    if Awake(s, reported) {
      ArmAwake(s.(heap := s.heap[a := r]), a, reported);
    }
  }

  lemma CancelAnyClock(s: State, reported: Option<nat>, a: Addr)
    requires Armed(s) && a in s.heap
    ensures var e := Cancel(s, a);
            e.Effect? && Armed(e.st) && (Awake(s, reported) ==> Awake(e.st, reported))
  {
    hide Sorted, Cancel;
    CancelEffect(s, a);
    ChangesArmed(s, Cancel(s, a).st, a, s.heap[a].(cb := None), false);
  }

  lemma ResetAnyClock(s: State, reported: Option<nat>, a: Addr, ms: nat, fromNow: bool, now: nat)
    requires Armed(s) && a in s.heap
    ensures var e := Reset(s, a, ms, fromNow, now);
            e.Effect? && Armed(e.st) && (Awake(s, reported) ==> Awake(e.st, reported))
  {
    hide Sorted, Find, Remove, Arm, Wrap;
    if s.heap[a].cb.Some? && (fromNow || ms != s.heap[a].ms) {
      var start := if fromNow then now else Wrap(s.heap[a].next - s.heap[a].ms, 64);
      var r := s.heap[a].(ms := ms, next := start + ms);
      TakeOut(s, a, r);
      var t := s.(heap := s.heap[a := r], order := Remove(s.order, Find(s.heap, s.order, a).value));
      assert Reset(s, a, ms, fromNow, now) == Arm(t, a);
      ArmArms(t, a);
      if Awake(s, reported) {
        ArmAwake(t, a, reported);
      }
    }
  }

  /** refresh wakes nobody, so the promise needs the new deadline not to be before the reported one. */
  lemma RefreshAnyClock(s: State, reported: Option<nat>, a: Addr, now: nat)
    requires Armed(s) && a in s.heap
    ensures var e := Refresh(s, a, now);
            && e.Effect? && Armed(e.st)
            && (Awake(s, reported) ==>
                  (Awake(e.st, reported) <==>
                     s.tickled || a !in s.order || (reported.Some? && now + s.heap[a].ms >= reported.value)))
  {
    hide Sorted, Refresh;
    RefreshEffect(s, a, now);
    var s' := Refresh(s, a, now).st;
    if a in s.order {
      ChangesArmed(s, s', a, s.heap[a].(next := now + s.heap[a].ms), true);
      assert a in s'.order;
    }
  }

  lemma ListAnyClock(s: State, reported: Option<nat>, now: nat, probe: Addr)
    requires Armed(s)
    ensures var s' := ListExpired(s, now, probe).0;
            && Armed(s')
            && (Awake(s, reported) && !Rollover(now, s.previous) ==> Awake(s', reported))
  {
    hide Sorted, ListExpired, Rollover;
    ListExpiredSpec(s, now, probe);
  }

  lemma GetNextAnyClock(w: World)
    requires Armed(w.st)
    ensures Promise(Perform(w, OpGetNext).value)
  {
    hide Sorted;
    forall a <- w.st.order
      ensures w.st.heap[w.st.order[0]].next <= w.st.heap[a].next
    {
      FrontIsLeast(w.st.heap, w.st.order, a);
    }
  }

  /**
   At any clock: no operation erases a missing timer, the set stays in order with callbacks
   exactly for its members, and the promise survives exactly the harmless operations.
   */
  lemma PromiseExactly(w: World, op: Op)
    requires Armed(w.st) && Told(w) && Enabled(w, op)
    ensures Perform(w, op).Some?
    ensures var w' := Perform(w, op).value;
            Armed(w'.st) && Told(w') && (Promise(w) ==> (Promise(w') <==> Harmless(w, op)))
  {
    hide Sorted, AddTimer, Cancel, Refresh, Reset, ListExpired, Rollover, Pow2;
    PromiseIs(w);
    match op {
    case OpTick(t) =>
    case OpAdd(a, ms, cb, rec, created) => AddAnyClock(w.st, w.reported, a, ms, cb, rec, created);
    case OpCancel(a) => CancelAnyClock(w.st, w.reported, a);
    case OpRefresh(a) => RefreshAnyClock(w.st, w.reported, a, w.clock);
    case OpReset(a, ms, fromNow) => ResetAnyClock(w.st, w.reported, a, ms, fromNow, w.clock);
    case OpGetNext => GetNextAnyClock(w);
    case OpListExpired(now, probe) =>
      ListAnyClock(w.st, w.reported, now, probe);
      if Rollover(now, w.st.previous) {
        RollbackAwake(w.st, w.reported, now, probe);
      }
    }
    ToldKeeps(w, op);
    PromiseIs(Perform(w, op).value);
  }

  // ---------- Runs ----------

  /** The promise holds at every point of the run. */
  ghost predicate Throughout(w: World, ops: seq<Op>)
    requires Possible(w, ops)
    decreases |ops|
  {
    Promise(w) && (ops != [] && Perform(w, ops[0]).Some? ==> Throughout(Perform(w, ops[0]).value, ops[1..]))
  }

  ghost predicate AllHarmless(w: World, ops: seq<Op>)
    requires Possible(w, ops)
    decreases |ops|
  {
    ops != [] ==>
      && Harmless(w, ops[0])
      && (Perform(w, ops[0]).Some? ==> AllHarmless(Perform(w, ops[0]).value, ops[1..]))
  }

  lemma {:induction false} RunExactly(w: World, ops: seq<Op>)
    requires Armed(w.st) && Told(w) && Possible(w, ops)
    ensures Run(w, ops).Some? && Armed(Run(w, ops).value.st)
    ensures Promise(w) ==> (Throughout(w, ops) <==> AllHarmless(w, ops))
    decreases |ops|
  {
    hide Armed, Told, Promise, Enabled, Perform, Harmless;
    if ops != [] {
      PromiseExactly(w, ops[0]);
      RunExactly(Perform(w, ops[0]).value, ops[1..]);
    }
  }

  /**
   Whatever the clock does in a run: no erase misses, the set is in order at the end with
   callbacks exactly for its members, and the promise holds throughout exactly if every
   operation of the run was harmless.
   */
  lemma EveryClock(time: nat, ops: seq<Op>)
    requires Possible(Start(time), ops)
    ensures Run(Start(time), ops).Some? && Armed(Run(Start(time), ops).value.st)
    ensures Throughout(Start(time), ops) <==> AllHarmless(Start(time), ops)
  {
    RunExactly(Start(time), ops);
  }

  // ---------- A clock that goes back ----------

  /** One timer of 10 ms, armed at `time`, and the sleeper told of its deadline. */
  function Sleeping(time: nat, recurring: bool): World {
    World(State(map[7 := Rec(recurring, 10, time + 10, Some(1))], [7], false, time), time, Some(time + 10), false)
  }

  lemma FallsAsleep(time: nat, recurring: bool, more: seq<Op>)
    requires Possible(Sleeping(time, recurring), more)
    ensures var ops := [OpAdd(7, 10, 1, recurring, time), OpGetNext] + more;
            Possible(Start(time), ops) && Run(Start(time), ops) == Run(Sleeping(time, recurring), more)
  {
    hide Pow2;
    var add, ops := OpAdd(7, 10, 1, recurring, time), [OpAdd(7, 10, 1, recurring, time), OpGetNext] + more;
    assert ops[1..] == [OpGetNext] + more && ops[1..][1..] == more;
    var w1 := Perform(Start(time), add).value;
    assert w1.st.order == [7] && w1.st.heap == map[7 := Rec(recurring, 10, time + 10, Some(1))];
    assert Perform(w1, OpGetNext).value == Sleeping(time, recurring);
  }

  lemma SleepingArmed(time: nat, recurring: bool)
    ensures var w := Sleeping(time, recurring);
            Armed(w.st) && Told(w) && Promise(w) && Consistent(w.st)
  {
  }

  /** A run of one more operation. */
  lemma OneMore(w: World, op: Op)
    requires Consistent(w.st) && Enabled(w, op) && Perform(w, op).Some? && Consistent(Perform(w, op).value.st)
    ensures Possible(w, [op]) && Run(w, [op]) == Perform(w, op)
  {
    assert [op][1..] == [];
  }

  /** Set back by two hours, the clock makes a recurring timer due earlier, and nobody is told. */
  lemma RollbackBreaksPromise()
    ensures var ops := [OpAdd(7, 10, 1, true, 4 * HOUR), OpGetNext, OpTick(2 * HOUR), OpListExpired(2 * HOUR, 0)];
            Possible(Start(4 * HOUR), ops) && Run(Start(4 * HOUR), ops).Some? && !Promise(Run(Start(4 * HOUR), ops).value)
  {
    var w, tick, op := Sleeping(4 * HOUR, true), OpTick(2 * HOUR), OpListExpired(2 * HOUR, 0);
    var w1 := w.(clock := 2 * HOUR);
    assert 4 * HOUR < Pow2(64) by {
      Pow2Values();
    }
    RolloverMeaning(2 * HOUR, 4 * HOUR);
    SleepingArmed(4 * HOUR, true);
    hide Pow2, Rollover, Run, Armed, ListExpired;
    PromiseExactly(w1, op);
    assert 7 in w1.st.order && !Harmless(w1, op);
    assert Consistent(Perform(w1, op).value.st) by { ArmedIs(Perform(w1, op).value.st); }
    OneMore(w1, op);
    assert Possible(w, [tick, op]) && Run(w, [tick, op]) == Run(w1, [op]) by { TickFirst(w, 2 * HOUR, [op]); }
    FallsAsleep(4 * HOUR, true, [tick, op]);
    assert [OpAdd(7, 10, 1, true, 4 * HOUR), OpGetNext] + [tick, op] == [OpAdd(7, 10, 1, true, 4 * HOUR), OpGetNext, tick, op];
  }

  lemma ArmedIs(s: State)
    requires Armed(s)
    ensures Consistent(s)
  {
  }

  /** Half a second back is no rollover, but a refresh then makes the timer due earlier unannounced. */
  lemma RefreshBreaksPromise()
    ensures !Rollover(3999500, 4000000)
    ensures var ops := [OpAdd(7, 10, 1, false, 4000000), OpGetNext, OpTick(3999500), OpRefresh(7)];
            Possible(Start(4000000), ops) && Run(Start(4000000), ops).Some? && !Promise(Run(Start(4000000), ops).value)
  {
    var w, tick, op := Sleeping(4000000, false), OpTick(3999500), OpRefresh(7);
    var w1 := w.(clock := 3999500);
    assert 4000000 < Pow2(64) by {
      Pow2Values();
    }
    RolloverMeaning(3999500, 4000000);
    SleepingArmed(4000000, false);
    hide Pow2, Rollover, Run, Armed, Refresh;
    PromiseExactly(w1, op);
    assert 7 in w1.st.order && !Harmless(w1, op);
    assert Consistent(Perform(w1, op).value.st) by { ArmedIs(Perform(w1, op).value.st); }
    OneMore(w1, op);
    assert Possible(w, [tick, op]) && Run(w, [tick, op]) == Run(w1, [op]) by { TickFirst(w, 3999500, [op]); }
    FallsAsleep(4000000, false, [tick, op]);
    assert [OpAdd(7, 10, 1, false, 4000000), OpGetNext] + [tick, op] == [OpAdd(7, 10, 1, false, 4000000), OpGetNext, tick, op];
  }

  lemma TickFirst(w: World, time: nat, more: seq<Op>)
    requires Consistent(w.st) && time < Pow2(64) && Possible(w.(clock := time), more)
    ensures Possible(w, [OpTick(time)] + more) && Run(w, [OpTick(time)] + more) == Run(w.(clock := time), more)
  {
    assert ([OpTick(time)] + more)[1..] == more;
  }
}
