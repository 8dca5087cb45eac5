/**
 The life of one timer, under any clock: how long it is in the set, and what it keeps there.
 */
module TimerLives {
  import opened Wrappers
  import opened Bits
  import opened TimerModel
  import opened TimerLaws
  import opened TimerEffects
  import opened TimerClock

  /** The operation takes timer a out of the set: a cancellation, or a listing if it is due and does not recur. */
  ghost predicate Ends(w: World, op: Op, a: Addr)
    requires a in w.st.heap
  {
    op == OpCancel(a) || (op.OpListExpired? && Due(w.st, a, op.now) && !w.st.heap[a].recurring)
  }

  /** Another timer object takes the place of a. */
  predicate Replaces(op: Op, a: Addr) {
    op.OpAdd? && op.a == a
  }

  /** The deadline of timer a after the operation. */
  function DeadlineAfter(w: World, op: Op, a: Addr): nat
    requires a in w.st.heap
  {
    var r := w.st.heap[a];
    if op == OpRefresh(a) then w.clock + r.ms
    else if op.OpReset? && op.a == a && op.fromNow then w.clock + op.ms
    else if op.OpReset? && op.a == a then Wrap(r.next - r.ms, 64) + op.ms
    else if op.OpListExpired? && Due(w.st, a, op.now) then op.now + r.ms
    else r.next
  }

  /**
   One operation and one timer that is in the set: it leaves exactly by being ended; otherwise
   it keeps its callback and its kind, its period unless it is reset, and has its new deadline.
   */
  lemma LivesOn(w: World, op: Op, a: Addr)
    requires Armed(w.st) && Enabled(w, op) && a in w.st.order
    ensures a in w.st.heap && Perform(w, op).Some?
    ensures var s', r := Perform(w, op).value.st, w.st.heap[a];
            && a in s'.heap
            && (a in s'.order <==> !Ends(w, op, a))
            && (a in s'.order && !(op.OpReset? && op.a == a && op.ms == r.ms && !op.fromNow) ==>
                  s'.heap[a] == Rec(r.recurring, if op.OpReset? && op.a == a then op.ms else r.ms, DeadlineAfter(w, op, a), r.cb))
            && (op.OpReset? && op.a == a && op.ms == r.ms && !op.fromNow ==> s'.heap[a] == r)
  {
    hide Sorted, AddTimer, Cancel, Refresh, Reset, ListExpired, Rollover, Pow2, Wrap;
    match op
    case OpTick(_) =>
    case OpAdd(b, ms, cb, rec, created) => AddTimerEffect(w.st, b, ms, cb, rec, created);
    case OpCancel(b) => CancelEffect(w.st, b);
    case OpRefresh(b) => RefreshEffect(w.st, b, w.clock);
    case OpReset(b, ms, fromNow) => ResetChanges(w.st, b, ms, fromNow, w.clock);
    case OpGetNext =>
    case OpListExpired(now, probe) => ListExpiredSpec(w.st, now, probe);
  }

  /** A timer that is not in the set stays out of it until its place is taken by another. */
  lemma StaysOut(w: World, op: Op, a: Addr)
    requires Armed(w.st) && Enabled(w, op) && a !in w.st.order && !Replaces(op, a)
    ensures Perform(w, op).Some? && a !in Perform(w, op).value.st.order
  {
    hide Sorted, AddTimer, Cancel, Refresh, Reset, ListExpired, Rollover, Pow2, Wrap;
    match op
    case OpTick(_) =>
    case OpAdd(b, ms, cb, rec, created) => AddTimerEffect(w.st, b, ms, cb, rec, created);
    case OpCancel(b) => CancelEffect(w.st, b);
    case OpRefresh(b) => RefreshEffect(w.st, b, w.clock);
    case OpReset(b, ms, fromNow) => ResetChanges(w.st, b, ms, fromNow, w.clock);
    case OpGetNext =>
    case OpListExpired(now, probe) => ListExpiredSpec(w.st, now, probe);
  }

  // ---------- Runs ----------

  /**
   A recurring timer that nobody cancels is in the set after any run, whatever the clock does
   and however often it has fired, still recurring and with its callback.
   */
  lemma {:induction false} RecursForGood(w: World, ops: seq<Op>, a: Addr)
    requires Armed(w.st) && Told(w) && Possible(w, ops) && a in w.st.order && OpCancel(a) !in ops
    requires a in w.st.heap && w.st.heap[a].recurring
    ensures Run(w, ops).Some?
    ensures var s := Run(w, ops).value.st;
            a in s.order && a in s.heap && s.heap[a].recurring && s.heap[a].cb == w.st.heap[a].cb && s.heap[a].cb.Some?
    decreases |ops|
  {
    hide Perform, Enabled, Due;
    if ops != [] {
      PromiseExactly(w, ops[0]);
      LivesOn(w, ops[0], a);
      hide Armed;
      RecursForGood(Perform(w, ops[0]).value, ops[1..], a);
    }
  }

  /**
   A timer that has left the set, fired or cancelled, never comes back by itself: its callback
   is not returned again.
   */
  lemma {:induction false} GoneForGood(w: World, ops: seq<Op>, a: Addr)
    requires Armed(w.st) && Told(w) && Possible(w, ops) && a !in w.st.order
    requires forall k :: 0 <= k < |ops| ==> !Replaces(ops[k], a)
    ensures Run(w, ops).Some? && a !in Run(w, ops).value.st.order
    decreases |ops|
  {
    hide Perform, Enabled, Replaces;
    if ops != [] {
      PromiseExactly(w, ops[0]);
      StaysOut(w, ops[0], a);
      hide Armed;
      GoneForGood(Perform(w, ops[0]).value, ops[1..], a);
    }
  }
}
