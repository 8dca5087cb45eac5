/**
 The timer manager of sylar/timer.cc. The timer objects are records in `heap`, by address, and
 `timers` is the ordered set of the armed ones; the methods update both in place, and each is
 proved to take the step of `TimerModel` that carries its name.
 */
module TimerManagers {
  import opened Wrappers
  import opened Bits
  import opened TimerModel
  import opened TimerLaws
  import M = TimerModel

  class TimerManager {
    var heap: Heap
    var timers: seq<Addr>
    var tickled: bool
    var previousTime: nat
    var wakeups: nat  // calls of onTimerInsertedAtFront so far

    ghost function St(): State
      reads this
    {
      State(heap, timers, tickled, previousTime)
    }

    ghost predicate Valid()
      reads this
    {
      Armed(St())
    }

    constructor (now: nat)
      ensures Valid() && St() == State(map[], [], false, now) && wakeups == 0
    {
      heap, timers, tickled, previousTime, wakeups := map[], [], false, now, 0;
    }

    /** The private addTimer: inserts an object and tells the sleeper about a new first timer. */
    method Insert(a: Addr)
      requires a in heap && Within(heap, timers)
      modifies this`timers, this`tickled, this`wakeups
      ensures var e := Arm(old(St()), a);
              St() == e.st && wakeups == old(wakeups) + (if e.notified then 1 else 0)
    {
      hide M.Insert;
      var it := LowerBound(heap, timers, KeyOf(heap, a));
      timers := M.Insert(heap, timers, a);
      var atFront := it == 0 && !tickled;
      if atFront {
        tickled := true;
      }
      if atFront {
        wakeups := wakeups + 1;
      }
    }

    /** A new timer at address a; the clock read `created` when its deadline was computed. */
    method AddTimer(a: Addr, ms: nat, cb: nat, recurring: bool, created: nat)
      requires Valid() && a !in timers
      modifies this
      ensures Valid()
      ensures var e := M.AddTimer(old(St()), a, ms, cb, recurring, created);
              St() == e.st && wakeups == old(wakeups) + (if e.notified then 1 else 0)
    {
      hide Arm, Sorted;
      var r := Rec(recurring, ms, created + ms, Some(cb));
      UpdateOutside(heap, timers, a, r);
      heap := heap[a := r];
      ArmArms(St(), a);
      Insert(a);
    }

    /** The find of cancel never misses, so the erase behind it is always of a member. */
    method Cancel(a: Addr) returns (r: bool)
      requires Valid() && a in heap
      modifies this`heap, this`timers
      ensures Valid() && M.Cancel(old(St()), a) == Effect(St(), r, false)
    {
      hide Sorted, Find, Remove;
      ghost var s := St();
      if heap[a].cb.Some? {
        ghost var rec := heap[a].(cb := None);
        TakeOut(s, a, rec);
        SameKeys(s.heap, s.order, a, rec);
        heap := heap[a := heap[a].(cb := None)];
        var it := Find(heap, timers, a);
        timers := Remove(timers, it.value);
        return true;
      }
      return false;
    }

    method Refresh(a: Addr, now: nat) returns (r: bool)
      requires Valid() && a in heap
      modifies this`heap, this`timers
      ensures Valid() && M.Refresh(old(St()), a, now) == Effect(St(), r, false)
    {
      hide Sorted, Find, Remove, M.Insert;
      if heap[a].cb.None? {
        return false;
      }
      var rec := heap[a].(next := now + heap[a].ms);
      TakeOut(St(), a, rec);
      var it := Find(heap, timers, a);
      if it.None? {
        return false;
      }
      timers := Remove(timers, it.value);
      heap := heap[a := rec];
      InsertSorted(heap, timers, a);
      timers := M.Insert(heap, timers, a);
      return true;
    }

    method Reset(a: Addr, ms: nat, fromNow: bool, now: nat) returns (r: bool)
      requires Valid() && a in heap
      modifies this
      ensures Valid()
      ensures var e := M.Reset(old(St()), a, ms, fromNow, now);
              e.Effect? && e.st == St() && e.ret == r && wakeups == old(wakeups) + (if e.notified then 1 else 0)
    {
      hide Sorted, Find, Remove, Arm, Wrap;
      if ms == heap[a].ms && !fromNow {
        return true;
      }
      if heap[a].cb.None? {
        return false;
      }
      var start := if fromNow then now else Wrap(heap[a].next - heap[a].ms, 64);
      var rec := heap[a].(ms := ms, next := start + ms);
      TakeOut(St(), a, rec);
      var it := Find(heap, timers, a);
      if it.None? {
        return false;
      }
      timers := Remove(timers, it.value);
      heap := heap[a := rec];
      ArmArms(St(), a);
      Insert(a);
      return true;
    }

    method GetNextTimer(now: nat) returns (ms: nat)
      requires Valid()
      modifies this`tickled
      ensures Valid() && (St(), ms) == GetNext(old(St()), now)
    {
      tickled := false;
      if timers == [] {
        return ALL_ONES;
      }
      var next := timers[0];
      if now >= heap[next].next {
        return 0;
      }
      return heap[next].next - now;
    }

    method DetectClockRollover(now: nat) returns (rollover: bool)
      modifies this`previousTime
      ensures rollover == Rollover(now, old(previousTime)) && previousTime == now
      ensures old(previousTime) < Pow2(64) ==>
                (rollover <==> now < old(previousTime) && (old(previousTime) < HOUR || now + HOUR < old(previousTime)))
    {
      hide Pow2, Wrap;
      if previousTime < Pow2(64) {
        RolloverMeaning(now, previousTime);
      }
      rollover := false;
      if now < previousTime && now < Wrap(previousTime - HOUR, 64) {
        rollover := true;
      }
      previousTime := now;
    }

    /** The position behind the timers that are due exactly now. */
    method SkipEqualNow(start: nat, now: nat) returns (it: nat)
      requires Within(heap, timers) && start <= |timers|
      ensures it == SkipEqual(heap, timers, start, now)
    {
      it := start;
      while it < |timers| && heap[timers[it]].next == now
        invariant it <= |timers| && SkipEqual(heap, timers, start, now) == SkipEqual(heap, timers, it, now)
      {
        it := it + 1;
      }
    }

    /** The loop over the expired timers: callbacks out, recurring timers back into the set. */
    method FireAll(expired: seq<Addr>, now: nat) returns (cbs: seq<Option<nat>>)
      requires Within(heap, timers) && Within(heap, expired)
      modifies this`heap, this`timers
      ensures Fired(heap, timers, cbs) == Fire(old(heap), old(timers), expired, now)
    {
      hide M.Insert, LowerBound;
      cbs := [];
      var i := 0;
      ghost var whole := Fire(heap, timers, expired, now);
      assert expired[0..] == expired;
      while i < |expired|
        invariant i <= |expired| && Within(heap, timers) && heap.Keys == old(heap).Keys
        invariant var f := Fire(heap, timers, expired[i..], now); whole == f.(cbs := cbs + f.cbs)
      {
        var timer := expired[i];
        assert expired[i..][0] == timer && expired[i..][1..] == expired[i + 1..];
        cbs := cbs + [heap[timer].cb];
        if heap[timer].recurring {
          heap := heap[timer := heap[timer].(next := now + heap[timer].ms)];
          timers := M.Insert(heap, timers, timer);
        } else {
          heap := heap[timer := heap[timer].(cb := None)];
        }
        i := i + 1;
      }
    }

    /** How many timers are taken from the front: all after a rollback, otherwise those that are due. */
    method DueEnd(rollover: bool, now: nat, probe: Addr) returns (it: nat)
      requires Within(heap, timers)
      ensures it == if rollover then |timers| else SkipEqual(heap, timers, LowerBound(heap, timers, Some(Key(now, probe))), now)
      ensures it <= |timers|
    {
      if rollover {
        return |timers|;
      }
      it := SkipEqualNow(LowerBound(heap, timers, Some(Key(now, probe))), now);
    }

    method ListExpiredCb(now: nat, probe: Addr) returns (cbs: seq<Option<nat>>)
      requires Valid()
      modifies this
      ensures Valid() && wakeups == old(wakeups) && (St(), cbs) == ListExpired(old(St()), now, probe)
      ensures Listed(old(St()), St(), now)
    {
      hide Fire, LowerBound, SkipEqual, Rollover, Listed;
      ListExpiredKeepsArmed(St(), now, probe);
      if timers == [] {
        return [];
      }
      var rollover := DetectClockRollover(now);
      if !rollover && heap[timers[0]].next > now {
        FireNone(heap, timers, now);
        return [];
      }
      var it := DueEnd(rollover, now, probe);
      assert it == Taken(old(St()), now, probe);
      hide Taken, Sorted;
      var expired := timers[..it];
      timers := timers[it..];
      cbs := FireAll(expired, now);
    }
  }

  /** The due timers of the set have fired, and no other timer has changed. */
  ghost predicate Listed(s: State, s': State, now: nat) {
    forall b <- s.heap ::
      && b in s'.heap
      && (if b in s.order && Due(s, b, now) then FiredAs(s.heap[b], s'.heap[b], now) else s'.heap[b] == s.heap[b])
  }

  lemma FireNone(heap: Heap, order: seq<Addr>, now: nat)
    requires Within(heap, order)
    ensures Fire(heap, order[0..], order[..0], now) == Fired(heap, order, [])
  {
    assert order[0..] == order;
  }

  lemma ListExpiredKeepsArmed(s: State, now: nat, probe: Addr)
    requires Armed(s)
    ensures var s' := ListExpired(s, now, probe).0;
            Armed(s') && Listed(s, s', now)
  {
    hide Sorted, ListExpired, Rollover;
    ListExpiredSpec(s, now, probe);
  }
}
