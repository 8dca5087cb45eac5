/**
 What the single timer operations change: the one timer they are called on and nothing else,
 and when the sleeper is woken.
 */
module TimerEffects {
  import opened Wrappers
  import opened Bits
  import opened TimerModel
  import opened TimerLaws

  /** Only timer a changed, to r, and is in the set or not; the set is still in order. */
  ghost predicate Changes(s: State, s': State, a: Addr, r: Rec, armed: bool) {
    && s'.heap == s.heap[a := r] && s'.previous == s.previous
    && Sorted(s'.heap, s'.order)
    && (forall b :: b in s'.order <==> if b == a then armed else b in s.order)
  }

  /** Timer a, with deadline `next`, is due before every other armed timer; addresses break ties. */
  ghost predicate DueFirst(s: State, a: Addr, next: nat) {
    forall b <- s.order :: b != a ==> b in s.heap && (next < s.heap[b].next || (next == s.heap[b].next && a < b))
  }

  /** The sleeper is woken exactly when the timer is the first and it has not been woken yet. */
  ghost predicate Wakes(s: State, e: Effect, a: Addr, next: nat) {
    e.Effect? && (e.notified <==> !s.tickled && DueFirst(s, a, next)) && (e.st.tickled <==> s.tickled || e.notified)
  }

  lemma ArmEffect(s: State, a: Addr)
    requires Sorted(s.heap, s.order) && a in s.heap && a !in s.order
    ensures Changes(s, Arm(s, a).st, a, s.heap[a], true)
    ensures Wakes(s, Arm(s, a), a, s.heap[a].next) && Arm(s, a).ret
  {
    InsertSorted(s.heap, s.order, a);
    hide Insert, Sorted;
    var i := LowerBound(s.heap, s.order, KeyOf(s.heap, a));
    AllAfter(s.heap, s.order, a, i);
    assert i > 0 ==> s.order[0] in s.order;
    assert s.heap[a := s.heap[a]] == s.heap;
  }

  /** addTimer: the new timer is due `ms` after its creation. */
  lemma AddTimerEffect(s: State, a: Addr, ms: nat, cb: nat, recurring: bool, created: nat)
    requires Sorted(s.heap, s.order) && a !in s.order
    ensures var e := AddTimer(s, a, ms, cb, recurring, created);
            && Wakes(s, e, a, created + ms)
            && Changes(s, e.st, a, Rec(recurring, ms, created + ms, Some(cb)), true)
  {
    hide Sorted, Arm;
    var r := Rec(recurring, ms, created + ms, Some(cb));
    UpdateOutside(s.heap, s.order, a, r);
    ArmEffect(s.(heap := s.heap[a := r]), a);
    assert s.heap[a := r][a := r] == s.heap[a := r];
  }

  /** cancel: succeeds exactly for an armed timer, which loses its callback and leaves the set. */
  lemma CancelEffect(s: State, a: Addr)
    requires Armed(s) && a in s.heap
    ensures var e := Cancel(s, a);
            && e.Effect? && !e.notified && (e.ret <==> a in s.order) && e.st.tickled == s.tickled
            && Changes(s, e.st, a, s.heap[a].(cb := None), false)
  {
    hide Sorted, Find, Remove;
    var r := s.heap[a].(cb := None);
    if s.heap[a].cb.Some? {
      TakeOut(s, a, r);
      SameKeys(s.heap, s.order, a, r);
    } else {
      assert s.heap[a := r] == s.heap;
    }
  }

  /** refresh: an armed timer is due one period from now; nobody is woken. */
  lemma RefreshEffect(s: State, a: Addr, now: nat)
    requires Armed(s) && a in s.heap
    ensures var e := Refresh(s, a, now);
            && e.Effect? && !e.notified && (e.ret <==> a in s.order) && e.st.tickled == s.tickled
            && (a in s.order ==> Changes(s, e.st, a, s.heap[a].(next := now + s.heap[a].ms), true))
            && (a !in s.order ==> e.st == s)
  {
    hide Sorted, Find, Remove, Insert;
    if s.heap[a].cb.Some? {
      var r := s.heap[a].(next := now + s.heap[a].ms);
      TakeOut(s, a, r);
      InsertSorted(s.heap[a := r], Remove(s.order, Find(s.heap, s.order, a).value), a);
    }
  }

  /** reset at any deadline: the timer alone changes, in its period and its deadline. */
  lemma ResetChanges(s: State, a: Addr, ms: nat, fromNow: bool, now: nat)
    requires Armed(s) && a in s.heap
    ensures var e := Reset(s, a, ms, fromNow, now);
            var next := ms + if fromNow then now else Wrap(s.heap[a].next - s.heap[a].ms, 64);
            if ms == s.heap[a].ms && !fromNow then e == Effect(s, true, false)
            else if a !in s.order then e == Effect(s, false, false)
            else e.Effect? && e.ret && Wakes(s, e, a, next) && Changes(s, e.st, a, s.heap[a].(ms := ms, next := next), true)
  {
    hide Sorted, Find, Remove, Arm, Wrap;
    if s.heap[a].cb.Some? && (fromNow || ms != s.heap[a].ms) {
      var next := ms + if fromNow then now else Wrap(s.heap[a].next - s.heap[a].ms, 64);
      var r := s.heap[a].(ms := ms, next := next);
      TakeOut(s, a, r);
      var t := s.(heap := s.heap[a := r], order := Remove(s.order, Find(s.heap, s.order, a).value));
      assert Reset(s, a, ms, fromNow, now) == Arm(t, a);
      ArmEffect(t, a);
      assert t.heap[a := r] == t.heap;
      assert DueFirst(t, a, next) <==> DueFirst(s, a, next);
    }
  }

  /** reset: the new period counts from now or from when the old one began; the first is announced.
      The same period, not from now, changes nothing and succeeds even on a dead timer. */
  lemma ResetEffect(s: State, a: Addr, ms: nat, fromNow: bool, now: nat)
    requires Armed(s) && a in s.heap && s.heap[a].ms <= s.heap[a].next < Pow2(64)
    ensures var e := Reset(s, a, ms, fromNow, now);
            var next := ms + if fromNow then now else s.heap[a].next - s.heap[a].ms;
            if ms == s.heap[a].ms && !fromNow then e == Effect(s, true, false)
            else if a !in s.order then e == Effect(s, false, false)
            else e.Effect? && e.ret && Wakes(s, e, a, next) && Changes(s, e.st, a, s.heap[a].(ms := ms, next := next), true)
  {
    hide Changes, Wakes, Reset, Pow2, Wrap;
    WrapNear(s.heap[a].next - s.heap[a].ms, 64);
    ResetChanges(s, a, ms, fromNow, now);
  }
}
