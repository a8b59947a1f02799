/** A wepoll port as a state machine: the operations its lock makes atomic, and between them the
    kernel, which completes, cancels or refuses poll requests as it likes. */
module PortModel {
  import opened EventMasks
  import opened Options
  import opened Sequences
  import PollGroups

  const INVALID_SOCKET: nat := 0xffff_ffff_ffff_ffff

  // ---------- state ----------

  type Ptr = nat
  type Socket = nat
  type Thread = nat

  datatype Status = Idle | Pending | Cancelled

  datatype Event = Event(events: Mask, data: nat)

  /** sock_state_t; `polled` is the event mask of the last submitted request. */
  datatype Sock = Sock(socket: Socket, group: PollGroups.Group, data: nat, userEvents: Mask,
                       pendingEvents: Mask, status: Status, deletePending: bool, polled: AfdMask)

  /** How the kernel ended a request: its status, and the reported events if a socket was reported. */
  datatype Result = WasCancelled | Failed | Succeeded(reported: bool, events: AfdMask)

  /** Where a request is: with the kernel, in the completion port, or in the hands of a thread. */
  datatype Request = Submitted | Completed(result: Result) | Taken(holder: Thread, result: Result)

  /** What callers can observe, in order. */
  datatype Entry =
    | Set(ptr: Ptr, event: Event)        // sock_set_event on the record
    | Delivered(ptr: Ptr, event: Event)  // an event handed to the caller
    | Removed(ptr: Ptr)                  // the record left the epoll set
    | Freed(ptr: Ptr)                    // its memory was released

  /** A thread inside GetQueuedCompletionStatusEx, and the packets it has dequeued, once it has. */
  datatype Waiter = Waiter(maxEvents: nat, batch: Option<seq<Ptr>>)

  /** `socks` are the allocated records. `ok` falls when an assertion fails, a freed record is used or
      freed again, or a request is submitted while one is outstanding; `late` rises when the assertion
      in port_get_iocp_handle fails, because the port is closed already. `peak` is the largest number
      of poll group slots ever in use. */
  datatype Port = Port(
    open: bool,
    socks: map<Ptr, Sock>,
    tree: map<Socket, Ptr>,
    updateQueue: seq<Ptr>,
    deletedQueue: seq<Ptr>,
    groups: PollGroups.Groups,
    active: nat,
    requests: map<Ptr, Request>,
    waiters: map<Thread, Waiter>,
    log: seq<Entry>,
    peak: nat,
    late: bool,
    ok: bool)

  const EMPTY := Port(true, map[], map[], [], [], PollGroups.Groups([], map[]), 0, map[], map[], [], 0, false, true)

  /** The kernel's answers during one operation. */
  datatype PollAnswer = Accepted | SocketGone | Refused
  datatype Kernel = Kernel(poll: Ptr -> PollAnswer, cancel: Ptr -> bool)

  // ---------- the queues ----------

  /** queue_is_enqueued: the record's one queue node is in either queue. */
  predicate Enqueued(s: Port, p: Ptr) {
    p in s.updateQueue || p in s.deletedQueue
  }

  function Dequeue(s: Port, p: Ptr): Port {
    s.(updateQueue := Without(s.updateQueue, p), deletedQueue := Without(s.deletedQueue, p))
  }

  function RequestUpdate(s: Port, p: Ptr): Port {
    if Enqueued(s, p) then s else s.(updateQueue := s.updateQueue + [p])
  }

  function AddDeleted(s: Port, p: Ptr): Port {
    if Enqueued(s, p) then s else s.(deletedQueue := s.deletedQueue + [p])
  }

  // ---------- operations on one record ----------

  function Put(s: Port, p: Ptr, k: Sock): Port {
    s.(socks := s.socks[p := k])
  }

  function Fail(s: Port): Port { s.(ok := false) }

  /** sock__cancel_poll; a request that is no longer with the kernel needs no cancelling. */
  function CancelPoll(s: Port, p: Ptr, kernel: Kernel): (Port, bool)
    requires p in s.socks
  {
    var k := s.socks[p];
    var s := s.(ok := s.ok && k.status == Pending);
    if p in s.requests && s.requests[p] == Submitted && !kernel.cancel(p) then (s, false)
    else (Put(s, p, k.(status := Cancelled, pendingEvents := {})), true)
  }

  function ReleaseGroup(s: Port, g: PollGroups.Group): Port {
    if g in s.groups.size && 0 < s.groups.size[g] <= PollGroups.MAX_GROUP_SIZE then
      s.(groups := PollGroups.Release(s.groups, g))
    else Fail(s)
  }

  /** sock__free. */
  function Free(s: Port, p: Ptr): Port {
    s.(socks := s.socks - {p}, log := s.log + [Freed(p)], ok := s.ok && p in s.socks)
  }

  function CancelIfPending(s: Port, p: Ptr, kernel: Kernel): Port
    requires p in s.socks
  {
    if s.socks[p].status == Pending then CancelPoll(s, p, kernel).0 else s
  }

  /** port_unregister_socket, and the record is marked as deleted. */
  function Detach(s: Port, p: Ptr): Port
    requires p in s.socks
  {
    var k := s.socks[p];
    Put(s, p, k.(deletePending := true)).(tree := s.tree - {k.socket}, log := s.log + [Removed(p)])
  }

  /** The first half of sock__delete: takes the record out of the epoll set. */
  function Unregister(s: Port, p: Ptr, kernel: Kernel): Port
    requires p in s.socks
  {
    if s.socks[p].deletePending then s else Detach(Dequeue(CancelIfPending(s, p, kernel), p), p)
  }

  /** A forced release gives up on the request, which can no longer come back. */
  function Abandon(s: Port, p: Ptr): Port { s.(requests := s.requests - {p}) }

  function Released(s: Port, p: Ptr): Port
    requires p in s.socks
  {
    Free(ReleaseGroup(Dequeue(s, p), s.socks[p].group), p)
  }

  /** The second half: frees the record now or leaves it to the completion of its request. */
  function FreeOrDefer(s: Port, p: Ptr, force: bool): Port
    requires p in s.socks
  {
    if force then Released(Abandon(s, p), p)
    else if s.socks[p].status == Idle then Released(s, p)
    else AddDeleted(s, p)
  }

  function Delete(s: Port, p: Ptr, force: bool, kernel: Kernel): Port {
    if p !in s.socks then Fail(s)
    else FreeOrDefer(Unregister(s, p, kernel), p, force)
  }

  /** Of the requested events, those a request for `pending` does not cover. */
  predicate Covered(user: Mask, pending: Mask) {
    user * KNOWN <= pending
  }

  /** sock_set_event */
  function SetEvent(s: Port, p: Ptr, e: Event): Port {
    if p !in s.socks then Fail(s)
    else
      var events := e.events + {Err, Hup};
      var k := s.socks[p];
      var s1 := Put(s, p, k.(userEvents := events, data := e.data)).(log := s.log + [Set(p, e)]);
      if !Covered(events, k.pendingEvents) then RequestUpdate(s1, p) else s1
  }

  /** The record with the mask of the request it is about to submit. */
  function Asking(k: Sock): Sock { k.(polled := EpollToAfd(k.userEvents)) }

  /** The request has been handed to the kernel. */
  function Submit(s: Port, p: Ptr): Port
    requires p in s.socks
  {
    var k := Asking(s.socks[p]).(status := Pending, pendingEvents := s.socks[p].userEvents);
    Put(s, p, k).(requests := s.requests[p := Submitted], ok := s.ok && p !in s.requests)
  }

  /** sock_update; false stands for the result -1. */
  function Update(s: Port, p: Ptr, kernel: Kernel): (Port, bool) {
    if p !in s.socks || s.socks[p].deletePending then (Fail(s), false)
    else
      var k := s.socks[p];
      match k.status
      case Pending =>
        if Covered(k.userEvents, k.pendingEvents) then (Dequeue(s, p), true)
        else
          var (s1, done) := CancelPoll(s, p, kernel);
          if done then (Dequeue(s1, p), true) else (s1, false)
      case Cancelled => (Dequeue(s, p), true)
      case Idle =>
        match kernel.poll(p)
        case Accepted => (Dequeue(Submit(s, p), p), true)
        case SocketGone => (Delete(Put(s, p, Asking(k)), p, false, kernel), true)
        case Refused => (Put(s, p, Asking(k)), false)
  }

  /** The events of a finished request. */
  function EventsOf(r: Result): Mask {
    match r
    case WasCancelled => {}
    case Failed => {Err}
    case Succeeded(reported, events) => if reported then AfdToEpoll(events) else {}
  }

  /** The packet has been taken in and the record is idle again. */
  function Returned(s: Port, p: Ptr): Port
    requires p in s.socks
  {
    Put(s, p, s.socks[p].(status := Idle, pendingEvents := {})).(requests := s.requests - {p})
  }

  /** An event is handed out; a one-shot record stops watching. */
  function Fired(s: Port, p: Ptr, events: Mask): Port
    requires p in s.socks
  {
    var k := s.socks[p];
    var k1 := if OneShot in k.userEvents then k.(userEvents := {}) else k;
    Put(s, p, k1).(log := s.log + [Delivered(p, Event(events, k.data))])
  }

  /** Those of the events that were asked for are handed out, if there are any. */
  function Report(s: Port, p: Ptr, a: Mask): (Port, Option<Event>)
    requires p in s.socks
  {
    var events := a * s.socks[p].userEvents;
    if events == {} then (s, None) else (Fired(s, p, events), Some(Event(events, s.socks[p].data)))
  }

  predicate ReportsClose(r: Result) {
    r.Succeeded? && r.reported && LocalClose in r.events
  }

  /** sock_feed_event: the packet of `p` has come back; at most one event results. */
  function Feed(s: Port, p: Ptr): (Port, Option<Event>) {
    if p !in s.socks || p !in s.requests || !s.requests[p].Taken? then (Fail(s), None)
    else
      var r := s.requests[p].result;
      var s1 := Returned(s, p);
      if s.socks[p].deletePending then (FreeOrDefer(s1, p, false), None)
      else if ReportsClose(r) then (Delete(s1, p, false, Kernel(_ => Refused, _ => true)), None)
      else Report(RequestUpdate(s1, p), p, EventsOf(r))
  }

  // ---------- operations on the port ----------

  /** port__update_events; false stands for the result -1. */
  function UpdateEvents(s: Port, kernel: Kernel): (Port, bool)
    decreases |s.updateQueue|
  {
    if s.updateQueue == [] then (s, true)
    else
      var (s1, done) := Update(s, s.updateQueue[0], kernel);
      if !done || |s1.updateQueue| >= |s.updateQueue| then (s1, false)
      else UpdateEvents(s1, kernel)
  }

  function UpdateIfPolling(s: Port, kernel: Kernel): Port {
    if s.active > 0 then UpdateEvents(s, kernel).0 else s
  }

  /** What sock_new draws from outside: the base socket, memory, and a fresh group if one is needed. */
  datatype NewInput = NewInput(hasBase: bool, memory: Option<Ptr>, group: PollGroups.Group, canCreate: bool)

  /** poll_group_acquire; making a group needs the completion port, which it asserts is open. */
  function AcquireGroup(s: Port, input: NewInput): (Port, Option<PollGroups.Group>) {
    var (g, r) := PollGroups.Acquire(s.groups, input.group, input.canCreate);
    var needsNew := s.groups.queue == [] ||
      PollGroups.Full(s.groups.size, s.groups.queue[|s.groups.queue| - 1]);
    var used := |s.socks| + 1;
    (s.(groups := g, late := s.late || (needsNew && !s.open),
        peak := if r.Some? && used > s.peak then used else s.peak), r)
  }

  /** sock_new */
  function NewSock(s: Port, socket: Socket, input: NewInput): (Port, Option<Ptr>) {
    if socket == 0 || socket == INVALID_SOCKET || !input.hasBase then (s, None)
    else
      var (s1, g) := AcquireGroup(s, input);
      if g.None? then (s1, None)
      else if input.memory.None? || socket in s1.tree then (ReleaseGroup(s1, g.value), None)
      else
        var p := input.memory.value;
        (Registered(s1, p, socket, g.value), Some(p))
  }

  /** The new record is in the socket tree. */
  function Registered(s: Port, p: Ptr, socket: Socket, g: PollGroups.Group): Port {
    Put(s, p, Sock(socket, g, 0, {}, {}, Idle, false, {})).(tree := s.tree[socket := p])
  }

  function CtlAdd(s: Port, socket: Socket, e: Event, input: NewInput, kernel: Kernel): (Port, bool) {
    var (s1, p) := NewSock(s, socket, input);
    if p.None? then (s1, false) else (UpdateIfPolling(SetEvent(s1, p.value, e), kernel), true)
  }

  function CtlMod(s: Port, socket: Socket, e: Event, kernel: Kernel): (Port, bool) {
    if socket !in s.tree then (s, false)
    else (UpdateIfPolling(SetEvent(s, s.tree[socket], e), kernel), true)
  }

  function CtlDel(s: Port, socket: Socket, kernel: Kernel): (Port, bool) {
    if socket !in s.tree then (s, false) else (Delete(s, s.tree[socket], false, kernel), true)
  }

  /** The part of port__poll before the lock is given up. */
  function PollEnter(s: Port, t: Thread, maxEvents: nat, kernel: Kernel): (Port, bool) {
    var (s1, done) := UpdateEvents(s, kernel);
    if !done then (s1, false)
    else (s1.(active := s1.active + 1, waiters := s1.waiters[t := Waiter(maxEvents, None)]), true)
  }

  /** port__feed_events */
  function FeedAll(s: Port, batch: seq<Ptr>): (Port, seq<Event>)
    decreases |batch|
  {
    if batch == [] then (s, [])
    else
      var (s1, e) := Feed(s, batch[0]);
      var (s2, es) := FeedAll(s1, batch[1..]);
      (s2, (if e.Some? then [e.value] else []) + es)
  }

  /** The part of port__poll after the lock is taken back; None when the wait timed out or failed. */
  function PollLeave(s: Port, t: Thread): (Port, Option<seq<Event>>)
    requires t in s.waiters
  {
    var w := s.waiters[t];
    var s1 := s.(active := if s.active > 0 then s.active - 1 else 0, waiters := s.waiters - {t},
                 ok := s.ok && s.active > 0);
    if w.batch.None? then (s1, None)
    else
      var (s2, es) := FeedAll(s1, w.batch.value);
      (s2, Some(es))
  }

  // ---------- steps and runs ----------

  datatype Action =
    | DoAdd(socket: Socket, e: Event, input: NewInput, kernel: Kernel)
    | DoMod(socket: Socket, e: Event, kernel: Kernel)
    | DoDel(socket: Socket, kernel: Kernel)
    | DoEnter(t: Thread, maxEvents: nat, kernel: Kernel)
    | DoComplete(p: Ptr, result: Result)      // the kernel finishes a request
    | DoTake(t: Thread, batch: seq<Ptr>)      // a waiting thread dequeues packets
    | DoLeave(t: Thread, again: bool, kernel: Kernel)
    | DoClose

  predicate Enabled(s: Port, a: Action) {
    match a
    case DoAdd(_, _, input, _) =>
      input.group !in s.groups.size && (input.memory.Some? ==> input.memory.value !in s.socks)
    case DoMod(_, _, _) => true
    case DoDel(_, _) => true
    case DoEnter(t, _, _) => t !in s.waiters
    case DoComplete(p, _) => p in s.requests && s.requests[p] == Submitted
    case DoTake(t, batch) =>
      t in s.waiters && s.waiters[t].batch == None && 0 < |batch| <= s.waiters[t].maxEvents && Distinct(batch) &&
      (forall p :: p in batch ==> p in s.requests && s.requests[p].Completed?)
    case DoLeave(t, _, _) => t in s.waiters
    case DoClose => s.open
  }

  function Take(requests: map<Ptr, Request>, t: Thread, batch: seq<Ptr>): map<Ptr, Request> {
    map p | p in requests ::
      if p in batch && requests[p].Completed? then Taken(t, requests[p].result) else requests[p]
  }

  function Step(s: Port, a: Action): Port
    requires Enabled(s, a)
  {
    match a
    case DoAdd(socket, e, input, kernel) => CtlAdd(s, socket, e, input, kernel).0
    case DoMod(socket, e, kernel) => CtlMod(s, socket, e, kernel).0
    case DoDel(socket, kernel) => CtlDel(s, socket, kernel).0
    case DoEnter(t, n, kernel) =>
      var (s1, done) := PollEnter(s, t, n, kernel);
      if done then s1 else UpdateIfPolling(s1, kernel)
    case DoComplete(p, result) => s.(requests := s.requests[p := Completed(result)])
    case DoTake(t, batch) =>
      s.(requests := Take(s.requests, t, batch), waiters := s.waiters[t := s.waiters[t].(batch := Some(batch))])
    case DoLeave(t, again, kernel) =>
      // port_wait polls again when nothing was delivered and time is left
      var (s1, es) := PollLeave(s, t);
      if again && es == Some([]) then
        var (s2, done) := PollEnter(s1, t, s.waiters[t].maxEvents, kernel);
        if done then s2 else UpdateIfPolling(s2, kernel)
      else UpdateIfPolling(s1, kernel)
    case DoClose => s.(open := false)
  }
}
