/**
 What every run of the timer operations keeps, and what the operations promise each other.
 */
module TimerLaws {
  import opened Wrappers
  import opened Bits
  import opened TimerModel

  predicate Distinct(order: seq<Addr>) {
    forall i, j :: 0 <= i < j < |order| ==> order[i] != order[j]
  }

  // ---------- Firing ----------

  /** The callbacks of the expired timers, in their order. */
  ghost predicate TakesCallbacks(heap: Heap, expired: seq<Addr>, f: Fired)
    requires Within(heap, expired)
  {
    && |f.cbs| == |expired|
    && (forall i :: 0 <= i < |expired| ==> f.cbs[i] == heap[expired[i]].cb)
  }

  /** What firing does to a timer: the next period starts now, or the callback is gone for good. */
  predicate FiredAs(r: Rec, r': Rec, now: nat) {
    r' == if r.recurring then Rec(true, r.ms, now + r.ms, r.cb) else Rec(false, r.ms, r.next, None)
  }

  /** Each expired timer once, nothing else, and the set stays sorted. */
  ghost predicate Rearms(heap: Heap, order: seq<Addr>, expired: seq<Addr>, now: nat, f: Fired)
    requires Within(heap, expired)
  {
    && Sorted(f.heap, f.order)
    && f.heap.Keys == heap.Keys
    && (forall b <- heap :: if b in expired then FiredAs(heap[b], f.heap[b], now) else f.heap[b] == heap[b])
    && (forall b :: b in f.order <==> b in order || (b in expired && heap[b].recurring))
  }

  ghost predicate FiresExactly(heap: Heap, order: seq<Addr>, expired: seq<Addr>, now: nat, f: Fired)
    requires Within(heap, expired)
  {
    Rearms(heap, order, expired, now, f) && TakesCallbacks(heap, expired, f)
  }

  lemma {:induction false} FireSpec(heap: Heap, order: seq<Addr>, expired: seq<Addr>, now: nat)
    requires Sorted(heap, order) && Within(heap, expired) && Distinct(expired)
    requires forall i :: 0 <= i < |expired| ==> expired[i] !in order
    ensures FiresExactly(heap, order, expired, now, Fire(heap, order, expired, now))
    decreases |expired|
  {
    hide Sorted, Insert, AfterFiring;
    if expired != [] {
      var a, rest := expired[0], expired[1..];
      UpdateOutside(heap, order, a, AfterFiring(heap[a], now));
      var heap1 := heap[a := AfterFiring(heap[a], now)];
      if heap[a].recurring {
        InsertSorted(heap1, order, a);
      }
      var order1 := if heap[a].recurring then Insert(heap1, order, a) else order;
      assert forall i :: 0 <= i < |rest| ==> rest[i] == expired[i + 1] && rest[i] != a;
      FireSpec(heap1, order1, rest, now);
      FireStep(heap, order, expired, now, heap1, order1, Fire(heap1, order1, rest, now));
    }
  }

  lemma FireStep(heap: Heap, order: seq<Addr>, expired: seq<Addr>, now: nat,
                 heap1: Heap, order1: seq<Addr>, f: Fired)
    requires Within(heap, expired) && Distinct(expired) && expired != []
    requires heap1 == heap[expired[0] := AfterFiring(heap[expired[0]], now)]
    requires Within(heap1, expired[1..])
    requires forall b :: b in order1 <==> b in order || (b == expired[0] && heap[b].recurring)
    requires FiresExactly(heap1, order1, expired[1..], now, f)
    ensures FiresExactly(heap, order, expired, now, f.(cbs := [heap[expired[0]].cb] + f.cbs))
  {
    CallbacksStep(heap, expired, now, heap1, f);
    RearmsStep(heap, order, expired, now, heap1, order1, f);
  }

  lemma CallbacksStep(heap: Heap, expired: seq<Addr>, now: nat, heap1: Heap, f: Fired)
    requires Within(heap, expired) && Distinct(expired) && expired != []
    requires heap1 == heap[expired[0] := AfterFiring(heap[expired[0]], now)]
    requires Within(heap1, expired[1..]) && TakesCallbacks(heap1, expired[1..], f)
    ensures TakesCallbacks(heap, expired, f.(cbs := [heap[expired[0]].cb] + f.cbs))
  {
    hide AfterFiring;
    var rest := expired[1..];
    assert forall i :: 0 <= i < |rest| ==> rest[i] == expired[i + 1] && heap1[rest[i]] == heap[rest[i]];
    assert forall i :: 0 <= i < |rest| ==> f.cbs[i] == heap[expired[i + 1]].cb;
  }

  lemma RearmsStep(heap: Heap, order: seq<Addr>, expired: seq<Addr>, now: nat,
                   heap1: Heap, order1: seq<Addr>, f: Fired)
    requires Within(heap, expired) && Distinct(expired) && expired != []
    requires heap1 == heap[expired[0] := AfterFiring(heap[expired[0]], now)]
    requires Within(heap1, expired[1..])
    requires forall b :: b in order1 <==> b in order || (b == expired[0] && heap[b].recurring)
    requires Rearms(heap1, order1, expired[1..], now, f)
    ensures Rearms(heap, order, expired, now, f.(cbs := [heap[expired[0]].cb] + f.cbs))
  {
    hide Sorted;
    var a, rest := expired[0], expired[1..];
    assert a !in rest;
    assert FiredAs(heap[a], heap1[a], now);
    hide AfterFiring, FiredAs;
    assert forall b :: b in expired <==> b == a || b in rest by { assert expired == [a] + rest; }
  }

  // ---------- Which timers expire ----------

  predicate Due(s: State, a: Addr, now: nat)
    requires a in s.heap
  {
    Rollover(now, s.previous) || s.heap[a].next <= now
  }

  lemma {:induction false} SkipEqualSpec(heap: Heap, order: seq<Addr>, i: nat, now: nat)
    requires Within(heap, order) && i <= |order|
    ensures var j := SkipEqual(heap, order, i, now);
            && (forall k :: i <= k < j ==> heap[order[k]].next == now)
            && (j < |order| ==> heap[order[j]].next != now)
    decreases |order| - i
  {
    if i < |order| && heap[order[i]].next == now {
      SkipEqualSpec(heap, order, i + 1, now);
    }
  }

  lemma NextMonotone(heap: Heap, order: seq<Addr>, i: nat, k: nat)
    requires Sorted(heap, order) && i <= k < |order|
    ensures heap[order[i]].next <= heap[order[k]].next
  {
    assert i < k ==> Less(KeyOf(heap, order[i]), KeyOf(heap, order[k]));
  }

  /** Exactly the due timers are taken, wherever the probe lies. */
  lemma TakenSpec(s: State, now: nat, probe: Addr)
    requires Sorted(s.heap, s.order)
    ensures forall k :: 0 <= k < |s.order| ==> (k < Taken(s, now, probe) <==> Due(s, s.order[k], now))
  {
    hide Rollover;
    forall k | 0 <= k < |s.order|
      ensures k < Taken(s, now, probe) <==> Due(s, s.order[k], now)
    {
      NextMonotone(s.heap, s.order, 0, k);
      if !Rollover(now, s.previous) && s.heap[s.order[0]].next <= now {
        SplitSpec(s.heap, s.order, now, probe, k);
      }
    }
  }

  lemma SplitSpec(heap: Heap, order: seq<Addr>, now: nat, probe: Addr, k: nat)
    requires Sorted(heap, order) && k < |order|
    ensures k < SkipEqual(heap, order, LowerBound(heap, order, Some(Key(now, probe))), now)
       <==> heap[order[k]].next <= now
  {
    hide Sorted, SkipEqual, LowerBound;
    var i := LowerBound(heap, order, Some(Key(now, probe)));
    SkipEqualSpec(heap, order, i, now);
    var j := SkipEqual(heap, order, i, now);
    if k >= j {
      NextMonotone(heap, order, i, j);
      NextMonotone(heap, order, j, k);
    }
  }

  /** Where the comparison object lies makes no difference. */
  lemma ProbeIrrelevant(s: State, now: nat, probe: Addr, probe': Addr)
    requires Sorted(s.heap, s.order)
    ensures ListExpired(s, now, probe) == ListExpired(s, now, probe')
  {
    hide Due, Taken, Fire;
    TakenSpec(s, now, probe);
    TakenSpec(s, now, probe');
    var n, n' := Taken(s, now, probe), Taken(s, now, probe');
    assert n < |s.order| ==> (n < n' <==> Due(s, s.order[n], now));
    assert n' < |s.order| ==> (n' < n <==> Due(s, s.order[n'], now));
  }

  /**
   listExpiredCb returns the callbacks of exactly the due timers, in the order of their
   deadlines. One-shot timers lose their callback and their place; recurring ones are armed
   again one period from now; all others keep theirs.
   */
  lemma ListExpiredSpec(s: State, now: nat, probe: Addr)
    requires Sorted(s.heap, s.order)
    ensures var (s', cbs) := ListExpired(s, now, probe);
            && |cbs| <= |s.order|
            && (forall k :: 0 <= k < |s.order| ==> (k < |cbs| <==> Due(s, s.order[k], now)))
            && (forall k :: 0 <= k < |cbs| ==> cbs[k] == s.heap[s.order[k]].cb)
            && Sorted(s'.heap, s'.order) && s'.heap.Keys == s.heap.Keys
            && (forall b <- s.heap :: s'.heap[b] ==
                  if !(b in s.order && Due(s, b, now)) then s.heap[b]
                  else if s.heap[b].recurring then s.heap[b].(next := now + s.heap[b].ms)
                  else s.heap[b].(cb := None))
            && (forall b :: b in s'.order <==> b in s.order && (Due(s, b, now) ==> s.heap[b].recurring))
            && s'.tickled == s.tickled
            && s'.previous == if s.order == [] then s.previous else now
  {
    hide Due, Taken, AfterFiring, Fire, Sorted, Insert, LowerBound;
    TakenSpec(s, now, probe);
    var n := Taken(s, now, probe);
    SplitSorted(s.heap, s.order, n);
    FireSpec(s.heap, s.order[n..], s.order[..n], now);
    DueMembers(s, now, n);
  }

  lemma DueMembers(s: State, now: nat, n: nat)
    requires Within(s.heap, s.order) && n <= |s.order|
    requires forall k :: 0 <= k < |s.order| ==> (k < n <==> Due(s, s.order[k], now))
    ensures forall b :: b in s.order[..n] <==> b in s.order && Due(s, b, now)
    ensures forall b :: b in s.order[n..] <==> b in s.order && !Due(s, b, now)
  {
    hide Due;
    assert s.order == s.order[..n] + s.order[n..];
  }

  lemma SplitSorted(heap: Heap, order: seq<Addr>, n: nat)
    requires Sorted(heap, order) && n <= |order|
    ensures Sorted(heap, order[n..]) && Within(heap, order[..n]) && Distinct(order[..n])
    ensures forall i :: 0 <= i < n ==> order[..n][i] !in order[n..]
  {
    forall i, j | 0 <= i < j < |order|
      ensures order[i] != order[j]
    {
      assert Less(KeyOf(heap, order[i]), KeyOf(heap, order[j]));
    }
  }

  /**
   getNextTimer and listExpiredCb agree: it returns 0 exactly when a call of listExpiredCb now
   would return something, otherwise the least delay after which one would, and all ones when
   there are no timers.
   */
  lemma SleepIsExact(s: State, now: nat, d: nat, probe: Addr)
    requires Sorted(s.heap, s.order) && !Rollover(now, s.previous) && now <= ALL_ONES
    requires s.order != [] ==> s.heap[s.order[0]].next - now < ALL_ONES
    ensures GetNext(s, now).1 == 0xFFFF_FFFF_FFFF_FFFF <==> s.order == []
    ensures s.order != [] ==> (ListExpired(s, now + d, probe).1 != [] <==> d >= GetNext(s, now).1)
    ensures s.order == [] ==> ListExpired(s, now + d, probe).1 == []
  {
    hide Sorted, Fire, Taken, Wrap, AfterFiring;
    ListExpiredSpec(s, now + d, probe);
    if s.order != [] {
      assert 0 < |ListExpired(s, now + d, probe).1| <==> Due(s, s.order[0], now + d);
    }
  }

  // ---------- Runs ----------

  /**
   The timers with the clock; the deadline the last call of getNextTimer looked at, none if
   there was no timer; and whether onTimerInsertedAtFront has been called since that call.
   */
  datatype World = World(st: State, clock: nat, reported: Option<nat>, woken: bool)

  /** Every operation, with the clock values it read; reads made before taking the lock may lag. */
  datatype Op =
    | OpTick(time: nat)
    | OpAdd(a: Addr, ms: nat, cb: nat, recurring: bool, created: nat)
    | OpCancel(a: Addr)
    | OpRefresh(a: Addr)
    | OpReset(a: Addr, ms: nat, fromNow: bool)
    | OpGetNext
    | OpListExpired(now: nat, probe: Addr)

  /** Handles name objects that exist, and the address of a new timer is not that of an armed one. */
  predicate Enabled(w: World, op: Op) {
    match op
    case OpTick(t) => t < Pow2(64)
    case OpAdd(a, _, _, _, _) => a !in w.st.order
    case OpCancel(a) => a in w.st.heap
    case OpRefresh(a) => a in w.st.heap
    case OpReset(a, _, _) => a in w.st.heap
    case OpGetNext => true
    case OpListExpired(_, _) => true
  }

  /** The clock does not go back, and what was read before taking the lock does not look like it. */
  predicate Steady(w: World, op: Op) {
    match op
    case OpTick(t) => w.clock <= t
    case OpAdd(_, _, _, _, created) => created <= w.clock
    case OpListExpired(now, _) => now <= w.clock && !Rollover(now, w.st.previous)
    case _ => true
  }

  /** The result of an operation; none if it would erase a timer that is not in the set. */
  function Perform(w: World, op: Op): Option<World>
    requires Consistent(w.st) && Enabled(w, op)
  {
    match op
    case OpTick(t) => Some(w.(clock := t))
    case OpAdd(a, ms, cb, rec, created) => After(w, AddTimer(w.st, a, ms, cb, rec, created))
    case OpCancel(a) => After(w, Cancel(w.st, a))
    case OpRefresh(a) => After(w, Refresh(w.st, a, w.clock))
    case OpReset(a, ms, fromNow) => After(w, Reset(w.st, a, ms, fromNow, w.clock))
    case OpGetNext =>
      Some(World(GetNext(w.st, w.clock).0, w.clock,
                 if w.st.order == [] then None else Some(w.st.heap[w.st.order[0]].next), false))
    case OpListExpired(now, probe) => Some(w.(st := ListExpired(w.st, now, probe).0))
  }

  function After(w: World, e: Effect): Option<World> {
    if e.EraseMissing? then None else Some(w.(st := e.st, woken := w.woken || e.notified))
  }

  /** The set is sorted, and a timer has a callback exactly while it is in the set. */
  ghost predicate Armed(s: State) {
    && Sorted(s.heap, s.order)
    && (forall a <- s.heap :: s.heap[a].cb.Some? <==> a in s.order)
  }

  /** A timer was armed at some time that has passed. */
  ghost predicate Started(s: State, clock: nat) {
    forall a <- s.order :: a in s.heap && s.heap[a].ms <= s.heap[a].next <= s.heap[a].ms + clock
  }

  /** No armed timer is due before the one last reported, unless the sleeper has been woken since. */
  ghost predicate Awake(s: State, reported: Option<nat>) {
    s.tickled || forall a <- s.order :: a in s.heap && reported.Some? && s.heap[a].next >= reported.value
  }

  /** The same with the call itself: what the sleeper relies on. */
  ghost predicate Promise(w: World) {
    w.woken || forall a <- w.st.order :: a in w.st.heap && w.reported.Some? && w.st.heap[a].next >= w.reported.value
  }

  /** The flag says whether the call was made. */
  predicate Told(w: World) {
    w.woken <==> w.st.tickled
  }

  lemma PromiseIs(w: World)
    requires Told(w)
    ensures Promise(w) <==> Awake(w.st, w.reported)
  {
  }

  lemma ToldKeeps(w: World, op: Op)
    requires Consistent(w.st) && Enabled(w, op) && Told(w) && Perform(w, op).Some?
    ensures Told(Perform(w, op).value)
  {
    hide Insert, Find, Remove, LowerBound, Taken, Fire, Wrap, Pow2;
  }

  ghost predicate Inv(w: World) {
    Armed(w.st) && Started(w.st, w.clock) && Awake(w.st, w.reported) && w.clock < Pow2(64)
  }

  lemma ArmArms(s: State, a: Addr)
    requires a in s.heap && a !in s.order && s.heap[a].cb.Some? && Sorted(s.heap, s.order)
    requires forall b <- s.heap :: b != a ==> (s.heap[b].cb.Some? <==> b in s.order)
    ensures Arm(s, a).Effect? && Armed(Arm(s, a).st) && Arm(s, a).ret
  {
    hide Insert, Sorted;
    InsertSorted(s.heap, s.order, a);
  }

  lemma ArmKeeps(s: State, a: Addr, clock: nat, reported: Option<nat>)
    requires a in s.heap && a !in s.order && s.heap[a].cb.Some?
    requires Sorted(s.heap, s.order) && Started(s, clock) && Awake(s, reported)
    requires forall b <- s.heap :: b != a ==> (s.heap[b].cb.Some? <==> b in s.order)
    requires s.heap[a].ms <= s.heap[a].next <= s.heap[a].ms + clock
    ensures var e := Arm(s, a);
            e.Effect? && Armed(e.st) && Started(e.st, clock) && Awake(e.st, reported)
  {
    hide Insert, Sorted;
    InsertSorted(s.heap, s.order, a);
    ArmAwake(s, a, reported);
  }

  /** A timer that is put in without a call is not the first, so it is not due before the first. */
  lemma ArmAwake(s: State, a: Addr, reported: Option<nat>)
    requires Sorted(s.heap, s.order) && a in s.heap && a !in s.order && Awake(s, reported)
    ensures Awake(Arm(s, a).st, reported)
  {
    hide Insert, Sorted;
    InsertSorted(s.heap, s.order, a);
    if !Arm(s, a).st.tickled {
      assert LowerBound(s.heap, s.order, KeyOf(s.heap, a)) != 0;
      assert Less(KeyOf(s.heap, s.order[0]), KeyOf(s.heap, a));
    }
  }

  lemma AddKeeps(w: World, a: Addr, ms: nat, cb: nat, rec: bool, created: nat)
    requires Inv(w) && a !in w.st.order && created <= w.clock
    ensures AddTimer(w.st, a, ms, cb, rec, created).Effect?
    ensures Inv(w.(st := AddTimer(w.st, a, ms, cb, rec, created).st))
  {
    hide Sorted, Insert, Pow2;
    var s := w.st;
    var r := Rec(rec, ms, created + ms, Some(cb));
    UpdateOutside(s.heap, s.order, a, r);
    ArmKeeps(s.(heap := s.heap[a := r]), a, w.clock, w.reported);
  }

  /** Taking an armed timer out of the set, whatever then happens to the object. */
  lemma TakeOut(s: State, a: Addr, r: Rec)
    requires Armed(s) && a in s.order
    ensures a in s.heap && Find(s.heap, s.order, a).Some?
    ensures var order := Remove(s.order, Find(s.heap, s.order, a).value);
            && Sorted(s.heap[a := r], order)
            && (forall b :: b in order <==> b in s.order && b != a)
  {
    hide Sorted, Find, Remove;
    FindMember(s.heap, s.order, a);
    var i := Find(s.heap, s.order, a).value;
    RemoveSorted(s.heap, s.order, i);
    UpdateOutside(s.heap, Remove(s.order, i), a, r);
  }

  lemma CancelKeeps(w: World, a: Addr)
    requires Inv(w) && a in w.st.heap
    ensures Cancel(w.st, a).Effect? && Inv(w.(st := Cancel(w.st, a).st))
  {
    hide Sorted, Find, Remove, Pow2;
    var s := w.st;
    if s.heap[a].cb.Some? {
      var r := s.heap[a].(cb := None);
      TakeOut(s, a, r);
      SameKeys(s.heap, s.order, a, r);
    }
  }

  /** The set is searched by deadline and address only. */
  lemma {:induction false} SameKeys(heap: Heap, order: seq<Addr>, a: Addr, r: Rec)
    requires Within(heap, order) && a in heap && r.next == heap[a].next
    ensures Find(heap[a := r], order, a) == Find(heap, order, a)
  {
    SameLowerBound(heap, order, a, r, KeyOf(heap, a));
  }

  lemma {:induction false} SameLowerBound(heap: Heap, order: seq<Addr>, a: Addr, r: Rec, key: Option<Key>)
    requires Within(heap, order) && a in heap && r.next == heap[a].next
    ensures LowerBound(heap[a := r], order, key) == LowerBound(heap, order, key)
    decreases |order|
  {
    if order != [] {
      SameLowerBound(heap, order[1..], a, r, key);
    }
  }

  lemma RefreshKeeps(w: World, a: Addr)
    requires Inv(w) && a in w.st.heap
    ensures Refresh(w.st, a, w.clock).Effect? && Inv(w.(st := Refresh(w.st, a, w.clock).st))
  {
    hide Sorted, Find, Remove, Insert, Pow2;
    var s := w.st;
    if s.heap[a].cb.Some? {
      var r := s.heap[a].(next := w.clock + s.heap[a].ms);
      TakeOut(s, a, r);
      InsertSorted(s.heap[a := r], Remove(s.order, Find(s.heap, s.order, a).value), a);
    }
  }

  lemma ResetKeeps(w: World, a: Addr, ms: nat, fromNow: bool)
    requires Inv(w) && a in w.st.heap
    ensures Reset(w.st, a, ms, fromNow, w.clock).Effect?
    ensures Inv(w.(st := Reset(w.st, a, ms, fromNow, w.clock).st))
  {
    hide Sorted, Find, Remove, Arm, Pow2, Wrap;
    var s := w.st;
    if s.heap[a].cb.Some? && (fromNow || ms != s.heap[a].ms) {
      var was := s.heap[a];
      WrapNear(was.next - was.ms, 64);
      var start := if fromNow then w.clock else was.next - was.ms;
      var r := was.(ms := ms, next := start + ms);
      TakeOut(s, a, r);
      var s1 := s.(heap := s.heap[a := r], order := Remove(s.order, Find(s.heap, s.order, a).value));
      assert Reset(s, a, ms, fromNow, w.clock) == Arm(s1, a);
      ArmKeeps(s1, a, w.clock, w.reported);
    }
  }

  lemma GetNextKeeps(w: World)
    requires Inv(w)
    ensures Inv(Perform(w, OpGetNext).value)
  {
    hide Sorted, Pow2;
    forall a <- w.st.order
      ensures w.st.heap[w.st.order[0]].next <= w.st.heap[a].next
    {
      FrontIsLeast(w.st.heap, w.st.order, a);
    }
  }

  lemma ListExpiredKeeps(w: World, now: nat, probe: Addr)
    requires Inv(w) && now <= w.clock && !Rollover(now, w.st.previous)
    ensures Inv(w.(st := ListExpired(w.st, now, probe).0))
  {
    hide Sorted, ListExpired, Rollover, Pow2;
    ListExpiredSpec(w.st, now, probe);
  }

  /** No operation erases a missing timer, and every operation keeps the invariant. */
  lemma StepKeeps(w: World, op: Op)
    requires Inv(w) && Enabled(w, op) && Steady(w, op)
    ensures Perform(w, op).Some? && Inv(Perform(w, op).value)
  {
    hide Sorted, AddTimer, Cancel, Refresh, Reset, GetNext, ListExpired, Rollover, Pow2;
    match op
    case OpTick(t) =>
    case OpAdd(a, ms, cb, rec, created) => AddKeeps(w, a, ms, cb, rec, created);
    case OpCancel(a) => CancelKeeps(w, a);
    case OpRefresh(a) => RefreshKeeps(w, a);
    case OpReset(a, ms, fromNow) => ResetKeeps(w, a, ms, fromNow);
    case OpGetNext => GetNextKeeps(w);
    case OpListExpired(now, probe) => ListExpiredKeeps(w, now, probe);
  }

  function Start(time: nat): World {
    World(State(map[], [], false, time), time, None, false)
  }

  /** Every operation of the sequence is enabled when its turn comes. */
  ghost predicate Possible(w: World, ops: seq<Op>)
    decreases |ops|
  {
    && Consistent(w.st)
    && (ops != [] ==>
          && Enabled(w, ops[0])
          && (Perform(w, ops[0]).Some? ==> Possible(Perform(w, ops[0]).value, ops[1..])))
  }

  ghost function Run(w: World, ops: seq<Op>): Option<World>
    requires Possible(w, ops)
    decreases |ops|
  {
    if ops == [] then Some(w)
    else
      match Perform(w, ops[0])
      case None => None
      case Some(w1) => Run(w1, ops[1..])
  }

  /** The clock does not go back along the run. */
  ghost predicate SteadyRun(w: World, ops: seq<Op>)
    requires Possible(w, ops)
    decreases |ops|
  {
    ops != [] ==>
      && Steady(w, ops[0])
      && (Perform(w, ops[0]).Some? ==> SteadyRun(Perform(w, ops[0]).value, ops[1..]))
  }

  lemma {:induction false} RunKeeps(w: World, ops: seq<Op>)
    requires Inv(w) && Told(w) && Possible(w, ops) && SteadyRun(w, ops)
    ensures Run(w, ops).Some? && Inv(Run(w, ops).value) && Told(Run(w, ops).value)
    decreases |ops|
  {
    hide Inv, Perform, Enabled, Steady, Told;
    if ops != [] {
      StepKeeps(w, ops[0]);
      ToldKeeps(w, ops[0]);
      RunKeeps(Perform(w, ops[0]).value, ops[1..]);
    }
  }

  /**
   After any run under a clock that does not go back: the set is sorted and free of
   duplicates, a timer has a callback exactly while it is in the set, and the first deadline
   is not before the one last reported unless onTimerInsertedAtFront was called since.
   */
  lemma EveryRun(time: nat, ops: seq<Op>)
    requires time < Pow2(64) && Possible(Start(time), ops) && SteadyRun(Start(time), ops)
    ensures Run(Start(time), ops).Some?
    ensures var w := Run(Start(time), ops).value;
            && Sorted(w.st.heap, w.st.order) && Distinct(w.st.order)
            && (forall a <- w.st.heap :: w.st.heap[a].cb.Some? <==> a in w.st.order)
            && (w.st.order == [] || w.woken
                || (w.reported.Some? && w.st.heap[w.st.order[0]].next >= w.reported.value))
  {
    hide Pow2, Run, Possible, SteadyRun;
    RunKeeps(Start(time), ops);
    var w := Run(Start(time), ops).value;
    SplitSorted(w.st.heap, w.st.order, |w.st.order|);
    assert w.st.order[..|w.st.order|] == w.st.order;
    assert w.st.order != [] ==> w.st.order[0] in w.st.order;
  }

  /** What the rollover test finds: a step back of more than an hour, or any on a young clock. */
  lemma RolloverMeaning(now: nat, previous: nat)
    requires previous < Pow2(64)
    ensures Rollover(now, previous) <==> now < previous && (previous < 3600000 || now + 3600000 < previous)
  {
    assert HOUR < Pow2(64) by {
      Pow2Values();
    }
    hide Pow2, Wrap;
    WrapNear(previous - HOUR, 64);
  }

  /**
   When the clock goes back the promise survives exactly if every recurring timer, armed again
   from the new time, is still not before the deadline reported.
   */
  lemma RollbackAwake(s: State, reported: Option<nat>, now: nat, probe: Addr)
    requires Armed(s) && Rollover(now, s.previous)
    ensures Awake(ListExpired(s, now, probe).0, reported)
       <==> s.tickled || (forall a <- s.order :: a in s.heap && s.heap[a].recurring ==>
                            reported.Some? && now + s.heap[a].ms >= reported.value)
  {
    hide Sorted, ListExpired, Rollover, Pow2;
    ListExpiredSpec(s, now, probe);
    var s' := ListExpired(s, now, probe).0;
    forall a | a in s.order && s.heap[a].recurring
      ensures a in s'.order && s'.heap[a].next == now + s.heap[a].ms
    {
      assert Due(s, a, now);
    }
  }
}
