/**
 The I/O manager of sylar/iomanager.cc: the event contexts of the file descriptors, the count
 of pending events, the kernel's epoll registrations, and the tasks handed to schedulers. Each
 operation holds the lock of its descriptor throughout and is one function of the state.

 Every successful addEvent gets a registration number, so that what becomes of it can be told.
 */
module IoModel {
  import opened Wrappers

  datatype Event = READ | WRITE

  /** A set of events; READ and WRITE are the bits EPOLLIN and EPOLLOUT of epoll's own masks. */
  datatype Mask = Mask(read: bool, write: bool) {
    predicate Has(e: Event) { if e == READ then read else write }

    predicate Empty() { !read && !write }

    function With(e: Event): Mask { if e == READ then this.(read := true) else this.(write := true) }

    function Minus(e: Event): Mask { if e == READ then this.(read := false) else this.(write := false) }

    function And(m: Mask): Mask { Mask(read && m.read, write && m.write) }

    function AndNot(m: Mask): Mask { Mask(read && !m.read, write && !m.write) }

    function Or(m: Mask): Mask { Mask(read || m.read, write || m.write) }

    function Count(): nat { (if read then 1 else 0) + (if write then 1 else 0) }
  }

  const NONE: Mask := Mask(false, false)

  /** reg: the registration the context belongs to, a number the source does not keep. */
  datatype Context = Context(scheduler: Option<nat>, fiber: Option<nat>, cb: Option<nat>, reg: nat)

  predicate Vacant(c: Context) {
    c.scheduler.None? && c.fiber.None? && c.cb.None?
  }

  datatype Fd = Fd(events: Mask, read: Context, write: Context) {
    function Ctx(e: Event): Context { if e == READ then read else write }

    function Put(e: Event, c: Context): Fd { if e == READ then this.(read := c) else this.(write := c) }
  }

  const FRESH: Fd := Fd(NONE, Context(None, None, None, 0), Context(None, None, None, 0))

  /** A fiber or callback handed to a scheduler. */
  datatype Job = Job(scheduler: nat, fiber: Option<nat>, cb: Option<nat>, reg: nat)

  datatype State = State(
    fds: seq<Fd>,
    epoll: map<nat, Mask>,
    pending: int,
    jobs: seq<Job>,
    deleted: seq<nat>,   // registrations ended by delEvent
    nextReg: nat)

  // ---------- The kernel ----------

  datatype CtlOp = CTL_ADD | CTL_MOD | CTL_DEL

  /** ADD needs a descriptor that is not registered; MOD and DEL need one that is. */
  predicate Applicable(epoll: map<nat, Mask>, op: CtlOp, fd: nat) {
    if op == CTL_ADD then fd !in epoll else fd in epoll
  }

  /** epoll_ctl; it may also fail for reasons of its own. None is a failure. */
  function EpollCtl(epoll: map<nat, Mask>, op: CtlOp, fd: nat, mask: Mask, fails: bool): Option<map<nat, Mask>> {
    if fails || !Applicable(epoll, op, fd) then None
    else if op == CTL_DEL then Some(epoll - {fd})
    else Some(epoll[fd := mask])
  }

  // ---------- Operations ----------

  datatype Result =
    | Done(st: State, ok: bool)
    | AbortDoubleAdd    // the event is already registered
    | AbortContext      // the context of a new event is not vacant
    | AbortTrigger      // an event is triggered that is not registered
    | AbortLeftover     // events are left after cancelAll

  function Resized(fds: seq<Fd>, size: nat): seq<Fd> {
    if size <= |fds| then fds else fds + FreshFds(size - |fds|)
  }

  function FreshFds(n: nat): (r: seq<Fd>)
    ensures |r| == n
    ensures forall i :: 0 <= i < n ==> r[i] == FRESH
  {
    if n == 0 then [] else FreshFds(n - 1) + [FRESH]
  }

  /** The context table, extended when the descriptor is beyond it. */
  function Table(fds: seq<Fd>, fd: nat): seq<Fd> {
    if |fds| > fd then fds else Resized(fds, fd * 3 / 2)
  }

  function SetFd(s: State, fd: nat, f: Fd): State
    requires fd < |s.fds|
  {
    s.(fds := s.fds[fd := f])
  }

  /** The caller: its scheduler and its fiber. */
  datatype Caller = Caller(scheduler: nat, fiber: nat)

  /** The context of a new registration: the callback, or else the calling fiber. */
  function Entry(me: Caller, cb: Option<nat>, reg: nat): Context {
    Context(Some(me.scheduler), if cb.Some? then None else Some(me.fiber), cb, reg)
  }

  function AddOp(events: Mask): CtlOp { if events.Empty() then CTL_ADD else CTL_MOD }

  function DropOp(left: Mask): CtlOp { if left.Empty() then CTL_DEL else CTL_MOD }

  function AddEvent(s0: State, fd: nat, e: Event, cb: Option<nat>, me: Caller, fails: bool): Result
    requires fd < |Table(s0.fds, fd)|
  {
    var s := s0.(fds := Table(s0.fds, fd));
    var f := s.fds[fd];
    if f.events.Has(e) then AbortDoubleAdd
    else
      match EpollCtl(s.epoll, AddOp(f.events), fd, f.events.With(e), fails)
      case None => Done(s, false)
      case Some(epoll) =>
        if !Vacant(f.Ctx(e)) then AbortContext
        else
          var f' := f.(events := f.events.With(e)).Put(e, Entry(me, cb, s.nextReg));
          Done(SetFd(s, fd, f').(epoll := epoll, pending := s.pending + 1, nextReg := s.nextReg + 1), true)
  }

  /** Hands the waiting callback or fiber to its scheduler; the swap leaves the context empty. */
  function Trigger(s: State, fd: nat, e: Event): Option<State>
    requires fd < |s.fds|
  {
    var f := s.fds[fd];
    var c := f.Ctx(e);
    if !f.events.Has(e) || c.scheduler.None? then None
    else
      var job := if c.cb.Some? then Job(c.scheduler.value, None, c.cb, c.reg)
                 else Job(c.scheduler.value, c.fiber, None, c.reg);
      var c' := if c.cb.Some? then c.(scheduler := None, cb := None) else c.(scheduler := None, fiber := None);
      Some(SetFd(s, fd, f.(events := f.events.Minus(e)).Put(e, c')).(jobs := s.jobs + [job]))
  }

  function DelEvent(s: State, fd: nat, e: Event, fails: bool): Result {
    if |s.fds| <= fd || !s.fds[fd].events.Has(e) then Done(s, false)
    else
      var f := s.fds[fd];
      var left := f.events.Minus(e);
      match EpollCtl(s.epoll, DropOp(left), fd, left, fails)
      case None => Done(s, false)
      case Some(epoll) =>
        var f' := f.(events := left).Put(e, Context(None, None, None, 0));
        Done(SetFd(s, fd, f').(epoll := epoll, pending := s.pending - 1, deleted := s.deleted + [f.Ctx(e).reg]), true)
  }

  function CancelEvent(s: State, fd: nat, e: Event, fails: bool): Result {
    if |s.fds| <= fd || !s.fds[fd].events.Has(e) then Done(s, false)
    else
      var left := s.fds[fd].events.Minus(e);
      match EpollCtl(s.epoll, DropOp(left), fd, left, fails)
      case None => Done(s, false)
      case Some(epoll) =>
        match Trigger(s.(epoll := epoll), fd, e)
        case None => AbortTrigger
        case Some(s1) => Done(s1.(pending := s1.pending - 1), true)
  }

  /** Triggers and counts down each event of the mask, READ first. */
  function TriggerAll(s: State, fd: nat, mask: Mask): Option<State>
    requires fd < |s.fds|
  {
    var r := if mask.read then CountedTrigger(s, fd, READ) else Some(s);
    if r.None? then None
    else if mask.write then (if fd < |r.value.fds| then CountedTrigger(r.value, fd, WRITE) else None)
    else r
  }

  function CountedTrigger(s: State, fd: nat, e: Event): Option<State>
    requires fd < |s.fds|
  {
    match Trigger(s, fd, e)
    case None => None
    case Some(s1) => Some(s1.(pending := s1.pending - 1))
  }

  function CancelAll(s: State, fd: nat, fails: bool): Result {
    if |s.fds| <= fd || s.fds[fd].events.Empty() then Done(s, false)
    else
      match EpollCtl(s.epoll, CTL_DEL, fd, NONE, fails)
      case None => Done(s, false)
      case Some(epoll) =>
        match TriggerAll(s.(epoll := epoll), fd, s.fds[fd].events)
        case None => AbortTrigger
        case Some(s1) => if fd < |s1.fds| && s1.fds[fd].events.Empty() then Done(s1, true) else AbortLeftover
  }

  /** The events a report stands for: an error or hang-up counts as every registered event. */
  function RealEvents(f: Fd, reported: Mask, errorOrHangup: bool): Mask {
    if errorOrHangup then reported.Or(f.events) else reported
  }

  /** The body of the event loop for one epoll report on a descriptor. */
  function Report(s: State, fd: nat, reported: Mask, errorOrHangup: bool, fails: bool): Result
    requires fd < |s.fds|
  {
    var f := s.fds[fd];
    var actual := RealEvents(f, reported, errorOrHangup);
    if f.events.And(actual).Empty() then Done(s, false)
    else
      var left := f.events.AndNot(actual);
      match EpollCtl(s.epoll, DropOp(left), fd, left, fails)
      case None => Done(s, false)
      case Some(epoll) =>
        match TriggerAll(s.(epoll := epoll), fd, actual)
        case None => AbortTrigger
        case Some(s1) => Done(s1, true)
  }
}
