/**
 The timers of sylar/timer.cc as a state machine: the memory of the timer objects, the ordered
 set of the armed ones, and the operations as functions of that state.

 A timer is known by its address, which also breaks ties in the ordering. Callbacks are
 numbers. Clock values are milliseconds and do not overflow.
 */
module TimerModel {
  import opened Wrappers
  import opened Bits

  type Addr = nat

  datatype Rec = Rec(recurring: bool, ms: nat, next: nat, cb: Option<nat>)

  type Heap = map<Addr, Rec>

  /** heap: all timer objects; order: the set of armed timers, in its order. */
  datatype State = State(heap: Heap, order: seq<Addr>, tickled: bool, previous: nat)

  // ---------- The ordered set ----------

  datatype Key = Key(next: nat, addr: Addr)

  /** The comparator, null pointers included: deadlines first, then addresses. */
  predicate Less(a: Option<Key>, b: Option<Key>) {
    if a.None? && b.None? then false
    else if a.None? then true
    else if b.None? then false
    else if a.value.next < b.value.next then true
    else if b.value.next < a.value.next then false
    else a.value.addr < b.value.addr
  }

  /** The comparator is a strict total order, so that a set ordered by it is well defined. */
  lemma LessIsOrder(a: Option<Key>, b: Option<Key>, c: Option<Key>)
    ensures !Less(a, a)
    ensures Less(a, b) && Less(b, c) ==> Less(a, c)
    ensures Less(a, b) || Less(b, a) || a == b
    ensures a.None? && b.Some? ==> Less(a, b)
    ensures a.Some? && b.Some? && a.value.next < b.value.next ==> Less(a, b)
  {
  }

  function KeyOf(heap: Heap, a: Addr): Option<Key>
    requires a in heap
  {
    Some(Key(heap[a].next, a))
  }

  predicate Within(heap: Heap, order: seq<Addr>) {
    forall i :: 0 <= i < |order| ==> order[i] in heap
  }

  /** Strictly increasing under the comparator; in particular without duplicates. */
  predicate Sorted(heap: Heap, order: seq<Addr>)
    ensures Sorted(heap, order) ==> Within(heap, order)
  {
    && Within(heap, order)
    && forall i, j :: 0 <= i < j < |order| ==> Less(KeyOf(heap, order[i]), KeyOf(heap, order[j]))
  }

  /** The first position whose timer is not before the key. */
  function LowerBound(heap: Heap, order: seq<Addr>, key: Option<Key>): (i: nat)
    requires Within(heap, order)
    ensures i <= |order|
    ensures i < |order| ==> !Less(KeyOf(heap, order[i]), key)
    ensures forall j :: 0 <= j < i ==> Less(KeyOf(heap, order[j]), key)
  {
    if order == [] then 0
    else if Less(KeyOf(heap, order[0]), key) then
      var k := LowerBound(heap, order[1..], key);
      assert k < |order[1..]| ==> order[1..][k] == order[k + 1];
      k + 1
    else 0
  }

  /** Inserting keeps the order; an equivalent element already there stays the only one. */
  function Insert(heap: Heap, order: seq<Addr>, a: Addr): (r: seq<Addr>)
    requires Within(heap, order) && a in heap
    ensures Within(heap, r)
  {
    var i := LowerBound(heap, order, KeyOf(heap, a));
    if i < |order| && !Less(KeyOf(heap, a), KeyOf(heap, order[i])) then order
    else order[..i] + [a] + order[i..]
  }

  function Find(heap: Heap, order: seq<Addr>, a: Addr): (r: Option<nat>)
    requires Within(heap, order) && a in heap
    ensures r.Some? ==> r.value < |order|
  {
    var i := LowerBound(heap, order, KeyOf(heap, a));
    if i < |order| && !Less(KeyOf(heap, a), KeyOf(heap, order[i])) then Some(i) else None
  }

  function Remove(order: seq<Addr>, i: nat): seq<Addr>
    requires i < |order|
  {
    order[..i] + order[i + 1..]
  }

  /** A member is found, at its place. */
  lemma FindMember(heap: Heap, order: seq<Addr>, a: Addr)
    requires Sorted(heap, order) && a in heap
    ensures a in order <==> Find(heap, order, a).Some?
    ensures a in order ==> order[Find(heap, order, a).value] == a
  {
    var key := KeyOf(heap, a);
    var i := LowerBound(heap, order, key);
    if a in order {
      var k :| 0 <= k < |order| && order[k] == a;
      assert i <= k;
    }
  }

  /** Removing a member leaves a sorted set without it. */
  lemma RemoveSorted(heap: Heap, order: seq<Addr>, i: nat)
    requires Sorted(heap, order) && i < |order|
    ensures Sorted(heap, Remove(order, i))
    ensures order[i] !in Remove(order, i)
    ensures forall b :: b in Remove(order, i) <==> b in order && b != order[i]
  {
    var r := Remove(order, i);
    assert forall k :: 0 <= k < |r| ==> r[k] == order[if k < i then k else k + 1];
    forall b
      ensures b in r <==> b in order && b != order[i]
    {
      if b in order && b != order[i] {
        var k :| 0 <= k < |order| && order[k] == b;
        assert r[if k < i then k else k - 1] == b;
      }
      if b in r {
        var k :| 0 <= k < |r| && r[k] == b;
        assert b == order[if k < i then k else k + 1];
      }
    }
  }

  /** Inserting a new member gives a sorted set with it, at position LowerBound. */
  lemma InsertSorted(heap: Heap, order: seq<Addr>, a: Addr)
    requires Sorted(heap, order) && a in heap && a !in order
    ensures Sorted(heap, Insert(heap, order, a))
    ensures forall b :: b in Insert(heap, order, a) <==> b in order || b == a
    ensures Insert(heap, order, a)[0] == a <==> LowerBound(heap, order, KeyOf(heap, a)) == 0
    ensures |Insert(heap, order, a)| == |order| + 1
  {
    hide Less, LowerBound;
    var i := LowerBound(heap, order, KeyOf(heap, a));
    AllAfter(heap, order, a, i);
    var r := order[..i] + [a] + order[i..];
    assert Insert(heap, order, a) == r;
    assert forall k :: 0 <= k < |r| ==> r[k] == if k < i then order[k] else if k == i then a else order[k - 1];
    MembersOfInsert(order, i, a);
    forall x, y | 0 <= x < y < |r|
      ensures Less(KeyOf(heap, r[x]), KeyOf(heap, r[y]))
    {
      assert x < i || y > i;
    }
  }

  lemma MembersOfInsert(order: seq<Addr>, i: nat, a: Addr)
    requires i <= |order|
    ensures forall b :: b in order[..i] + [a] + order[i..] <==> b in order || b == a
  {
    assert order == order[..i] + order[i..];
  }

  lemma AllAfter(heap: Heap, order: seq<Addr>, a: Addr, i: nat)
    requires Sorted(heap, order) && a in heap && a !in order
    requires i == LowerBound(heap, order, KeyOf(heap, a))
    ensures forall k :: i <= k < |order| ==> Less(KeyOf(heap, a), KeyOf(heap, order[k]))
  {
    forall k | i <= k < |order|
      ensures Less(KeyOf(heap, a), KeyOf(heap, order[k]))
    {
      assert order[i] != a;
      assert Less(KeyOf(heap, a), KeyOf(heap, order[i]));
    }
  }

  /** Changing a timer outside the set does not disturb the set. */
  lemma UpdateOutside(heap: Heap, order: seq<Addr>, a: Addr, r: Rec)
    requires Sorted(heap, order) && a !in order
    ensures Sorted(heap[a := r], order)
  {
    assert forall i :: 0 <= i < |order| ==> order[i] != a;
  }

  /** The first timer of the set has the least deadline. */
  lemma FrontIsLeast(heap: Heap, order: seq<Addr>, a: Addr)
    requires Sorted(heap, order) && a in order
    ensures heap[order[0]].next <= heap[a].next
  {
    var k :| 0 <= k < |order| && order[k] == a;
    if k > 0 {
      assert Less(KeyOf(heap, order[0]), KeyOf(heap, order[k]));
    }
  }

  // ---------- The operations ----------

  const ALL_ONES: nat := 0xFFFF_FFFF_FFFF_FFFF
  const HOUR: nat := 3600000

  /** What an operation returns, and whether it called onTimerInsertedAtFront. */
  datatype Effect =
    | Effect(st: State, ret: bool, notified: bool)
    | EraseMissing  // erases an iterator that is end()

  predicate Consistent(s: State) {
    Within(s.heap, s.order)
  }

  /** Inserts an object into the set; the first of the set wakes the sleeper, once. */
  function Arm(s: State, a: Addr): Effect
    requires Consistent(s) && a in s.heap
  {
    var front := LowerBound(s.heap, s.order, KeyOf(s.heap, a)) == 0 && !s.tickled;
    Effect(s.(order := Insert(s.heap, s.order, a), tickled := s.tickled || front), true, front)
  }

  /** A new timer, whose deadline was computed when the clock read `created`. */
  function AddTimer(s: State, a: Addr, ms: nat, cb: nat, recurring: bool, created: nat): Effect
    requires Consistent(s)
  {
    Arm(s.(heap := s.heap[a := Rec(recurring, ms, created + ms, Some(cb))]), a)
  }

  function Cancel(s: State, a: Addr): Effect
    requires Consistent(s) && a in s.heap
  {
    if s.heap[a].cb.None? then Effect(s, false, false)
    else
      var heap := s.heap[a := s.heap[a].(cb := None)];
      match Find(heap, s.order, a)
      case None => EraseMissing
      case Some(i) => Effect(s.(heap := heap, order := Remove(s.order, i)), true, false)
  }

  function Refresh(s: State, a: Addr, now: nat): Effect
    requires Consistent(s) && a in s.heap
  {
    if s.heap[a].cb.None? then Effect(s, false, false)
    else
      match Find(s.heap, s.order, a)
      case None => Effect(s, false, false)
      case Some(i) =>
        var order := Remove(s.order, i);
        var heap := s.heap[a := s.heap[a].(next := now + s.heap[a].ms)];
        Effect(s.(heap := heap, order := Insert(heap, order, a)), true, false)
  }

  function Reset(s: State, a: Addr, ms: nat, fromNow: bool, now: nat): Effect
    requires Consistent(s) && a in s.heap
  {
    var r := s.heap[a];
    if ms == r.ms && !fromNow then Effect(s, true, false)
    else if r.cb.None? then Effect(s, false, false)
    else
      match Find(s.heap, s.order, a)
      case None => Effect(s, false, false)
      case Some(i) =>
        var start := if fromNow then now else Wrap(r.next - r.ms, 64);
        Arm(s.(heap := s.heap[a := r.(ms := ms, next := start + ms)], order := Remove(s.order, i)), a)
  }

  /** The time to sleep: to the first deadline, 0 if it is due, all ones without timers. */
  function GetNext(s: State, now: nat): (State, nat)
    requires Consistent(s)
  {
    (s.(tickled := false),
     if s.order == [] then ALL_ONES
     else if now >= s.heap[s.order[0]].next then 0
     else s.heap[s.order[0]].next - now)
  }

  /** The clock seems to have gone back, by an unsigned test against an hour before the last look. */
  predicate Rollover(now: nat, previous: nat) {
    now < previous && now < Wrap(previous - HOUR, 64)
  }

  /** From position i on, past the timers that are due exactly now. */
  function SkipEqual(heap: Heap, order: seq<Addr>, i: nat, now: nat): (j: nat)
    requires Within(heap, order) && i <= |order|
    ensures i <= j <= |order|
    decreases |order| - i
  {
    if i < |order| && heap[order[i]].next == now then SkipEqual(heap, order, i + 1, now) else i
  }

  datatype Fired = Fired(heap: Heap, order: seq<Addr>, cbs: seq<Option<nat>>)

  /** Takes the callbacks of expired timers; recurring ones go back into the set. */
  function Fire(heap: Heap, order: seq<Addr>, expired: seq<Addr>, now: nat): (r: Fired)
    requires Within(heap, order) && Within(heap, expired)
    ensures Within(r.heap, r.order) && r.heap.Keys == heap.Keys
    decreases |expired|
  {
    if expired == [] then Fired(heap, order, [])
    else
      var a := expired[0];
      var heap1 := heap[a := AfterFiring(heap[a], now)];
      var order1 := if heap[a].recurring then Insert(heap1, order, a) else order;
      var f := Fire(heap1, order1, expired[1..], now);
      f.(cbs := [heap[a].cb] + f.cbs)
  }

  function AfterFiring(r: Rec, now: nat): Rec {
    if r.recurring then r.(next := now + r.ms) else r.(cb := None)
  }

  /** How many timers, from the front of the set, listExpiredCb takes; probe is where its own
      timer object for the comparison happens to lie. */
  function Taken(s: State, now: nat, probe: Addr): (n: nat)
    requires Consistent(s)
    ensures n <= |s.order|
  {
    if s.order == [] then 0
    else if Rollover(now, s.previous) then |s.order|
    else if s.heap[s.order[0]].next > now then 0
    else SkipEqual(s.heap, s.order, LowerBound(s.heap, s.order, Some(Key(now, probe))), now)
  }

  function ListExpired(s: State, now: nat, probe: Addr): (State, seq<Option<nat>>)
    requires Consistent(s)
  {
    if s.order == [] then (s, [])
    else
      var n := Taken(s, now, probe);
      var f := Fire(s.heap, s.order[n..], s.order[..n], now);
      (State(f.heap, f.order, s.tickled, now), f.cbs)
  }
}
