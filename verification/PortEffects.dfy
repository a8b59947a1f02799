/** What the calls of epoll do: which events a wait hands out, and what adding, changing and deleting a socket
    leads to. */
module PortEffects {
  import opened EventMasks
  import opened Options
  import opened Sequences
  import opened PortModel
  import opened PortInv
  import opened PortSteps
  import opened PortRuns
  import PollGroups

  // ---------- which events are handed out ----------

  /** The event is to be reported for a request that ended so. */
  predicate Happened(x: Epoll, r: Result) {
    match r
    case WasCancelled => false
    case Failed => x == Err
    case Succeeded(reported, events) => reported && Means(x, events)
  }

  predicate Closed(r: Result) { r.Succeeded? && r.reported && LocalClose in r.events }

  /** What a request that has ended so should give for the record: all events that were asked for and have
      happened, with the user's data. */
  function Expected(k: Sock, r: Result): Option<Event> {
    var events := set x | x in k.userEvents && Happened(x, r);
    if k.deletePending || Closed(r) || events == {} then None else Some(Event(events, k.data))
  }

  /** Nothing is expected of a packet that is in nobody's hands. */
  function ExpectedOf(s: Port, p: Ptr): Option<Event> {
    if p in s.socks && p in s.requests && s.requests[p].Taken? then Expected(s.socks[p], s.requests[p].result)
    else None
  }

  function AllExpected(s: Port, batch: seq<Ptr>): seq<Event> {
    if batch == [] then [] else AsSeq(ExpectedOf(s, batch[0])) + AllExpected(s, batch[1..])
  }

  lemma EventsHappened(r: Result, user: Mask)
    requires !Closed(r)
    ensures EventsOf(r) * user == set x | x in user && Happened(x, r)
  {
    forall x
      ensures x in EventsOf(r) <==> Happened(x, r)
    {
      if r.Succeeded? { Reported(x, r.events); }
    }
  }

  /** The record after its packet has been taken in. */
  function Afterwards(k: Sock, r: Result): Sock {
    k.(status := Idle, pendingEvents := {},
       userEvents := if Expected(k, r).Some? && OneShot in k.userEvents then {} else k.userEvents)
  }

  /** What has become of the record, and what has been logged. */
  ghost predicate Given(s: Port, s1: Port, p: Ptr, k: Sock, r: Result) {
    if k.deletePending then p !in s1.socks && s1.log == s.log + [Freed(p)]
    else if Closed(r) then
      p !in s1.socks && s1.tree == s.tree - {k.socket} && s1.log == s.log + [Removed(p)] + [Freed(p)]
    else
      p in s1.socks && s1.socks[p] == Afterwards(k, r) && p in s1.updateQueue && s1.tree == s.tree &&
      s1.log == s.log + (if Expected(k, r).Some? then [Delivered(p, Expected(k, r).value)] else [])
  }

  lemma ReleasedGives(s: Port, p: Ptr)
    requires p in s.socks && GroupsOk(s) && s.socks[p].status == Idle
    ensures var s1 := FreeOrDefer(s, p, false); p !in s1.socks && s1.tree == s.tree && s1.log == s.log + [Freed(p)]
  {
    HolderCounts(s, p);
  }

  lemma DetachedGives(s: Port, p: Ptr, kernel: Kernel)
    requires p in s.socks && !s.socks[p].deletePending
    ensures var u := Unregister(s, p, kernel);
      p in u.socks && u.groups == s.groups && u.tree == s.tree - {s.socks[p].socket} && u.log == s.log + [Removed(p)] &&
      u.socks[p].deletePending
  {
  }

  /** A request that is with the kernel is cancelled, unless the kernel refuses. */
  lemma DetachedStatus(s: Port, p: Ptr, kernel: Kernel)
    requires p in s.socks && !s.socks[p].deletePending
    ensures var u, k := Unregister(s, p, kernel), s.socks[p];
      p in u.socks && u.socks[p].status ==
        if k.status == Pending && !(p in s.requests && s.requests[p] == Submitted && !kernel.cancel(p)) then Cancelled
        else k.status
  {
  }

  lemma DroppedGives(s: Port, p: Ptr, kernel: Kernel)
    requires Sound(s) && p in s.socks && !s.socks[p].deletePending && s.socks[p].status == Idle
    ensures var s1 := Delete(s, p, false, kernel);
      p !in s1.socks && s1.tree == s.tree - {s.socks[p].socket} && s1.log == s.log + [Removed(p)] + [Freed(p)]
  {
    UnregisterSound(s, p, kernel);
    DetachedGives(s, p, kernel);
    ReleasedGives(Unregister(s, p, kernel), p);
  }

  lemma ReportGives(s: Port, s1: Port, p: Ptr, k: Sock, r: Result)
    requires p in s1.socks && !k.deletePending && !Closed(r) && s1.socks[p] == k.(status := Idle, pendingEvents := {})
    requires p in s1.updateQueue && s1.tree == s.tree && s1.log == s.log
    ensures var (s2, e) := Report(s1, p, EventsOf(r)); e == Expected(k, r) && Given(s, s2, p, k, r)
  {
    EventsHappened(r, k.userEvents);
    assert s.log + [] == s.log;
  }

  /** sock_feed_event: exactly the expected event results. A record that was deleted is freed, one whose socket
      was closed is dropped, and every other one is queued for its next request. */
  lemma FeedGives(s: Port, p: Ptr)
    requires Sound(s) && AllSettled(s) && p in s.requests && s.requests[p].Taken?
    ensures p in s.socks && Feed(s, p).1 == Expected(s.socks[p], s.requests[p].result)
    ensures Given(s, Feed(s, p).0, p, s.socks[p], s.requests[p].result)
  {
    assert RequestOk(s, p) && RecordOk(s, p);
    var k, r, s1 := s.socks[p], s.requests[p].result, Returned(s, p);
    ReturnedSound(s, p);
    if k.deletePending {
      ReleasedGives(s1, p);
    } else if Closed(r) {
      DroppedGives(s1, p, Kernel(_ => Refused, _ => true));
    } else {
      RequeuedSound(s1, p);
      ReportGives(s, RequestUpdate(s1, p), p, k, r);
    }
  }

  lemma {:induction false} SameExpected(s: Port, s1: Port, p: Ptr, batch: seq<Ptr>)
    requires Elsewhere(s, s1, p) && p !in batch
    ensures AllExpected(s1, batch) == AllExpected(s, batch)
    decreases |batch|
  {
    if batch != [] {
      assert Same(s, s1, batch[0]);
      SameExpected(s, s1, p, batch[1..]);
    }
  }

  /** A batch of packets gives the events expected of each, in order. */
  lemma {:induction false} FeedAllGives(s: Port, t: Thread, b: seq<Ptr>)
    requires Sound(s) && AllSettled(s) && WaitersOk(s, t, b)
    ensures FeedAll(s, b).1 == AllExpected(s, b)
    decreases |b|
  {
    if b != [] {
      var s1 := Feed(s, b[0]).0;
      assert Holds(s, t, b[0]);
      FeedGives(s, b[0]);
      FeedSound(s, b[0]);
      FeedFirst(s, t, b);
      FeedAllGives(s1, t, b[1..]);
      SameExpected(s, s1, b[0], b[1..]);
    }
  }

  lemma {:induction false} WokenExpected(s: Port, t: Thread, b: seq<Ptr>)
    ensures AllExpected(Woken(s, t), b) == AllExpected(s, b)
    decreases |b|
  {
    if b != [] { WokenExpected(s, t, b[1..]); }
  }

  /** epoll_wait returns all events that were asked for and have happened to the records whose packets it has
      dequeued, and no others. */
  lemma WaitGives(s: Port, t: Thread)
    requires Inv(s) && t in s.waiters
    ensures PollLeave(s, t).1 ==
      if s.waiters[t].batch.Some? then Some(AllExpected(s, s.waiters[t].batch.value)) else None
  {
    var w := Woken(s, t);
    WaiterLeaves(s, t);
    OtherFields(s, w);
    if s.waiters[t].batch.Some? {
      FeedAllGives(w, t, BatchOf(s, t));
      WokenExpected(s, t, BatchOf(s, t));
    }
  }

  // ---------- updates while a thread polls ----------

  /** No event is delivered; what the user asked of a record stays, and so does the record unless the kernel
      finds its socket gone. */
  ghost predicate UserKept(s: Port, s1: Port, kernel: Kernel) {
    Deliveries(s1.log) == Deliveries(s.log) && s.log <= s1.log && forall q :: KeptRecord(s, s1, q, kernel)
  }

  predicate SameUser(k: Sock, k1: Sock) {
    k1.userEvents == k.userEvents && k1.data == k.data && k1.socket == k.socket
  }

  predicate KeptRecord(s: Port, s1: Port, q: Ptr, kernel: Kernel) {
    (q !in s.socks ==> q !in s1.socks) &&
    (q in s1.socks && q in s.socks ==> SameUser(s.socks[q], s1.socks[q])) &&
    (q in s.socks && !s.socks[q].deletePending && kernel.poll(q) != SocketGone ==>
      q in s1.socks && !s1.socks[q].deletePending) &&
    SameAnswer(s, s1, q)
  }

  /** The kernel has ended the record's request, which has not been fed yet. */
  predicate Answered(s: Port, p: Ptr) { p in s.requests && s.requests[p] != Submitted }

  predicate SameAnswer(s: Port, s1: Port, p: Ptr) {
    Answered(s, p) ==> Answered(s1, p) && s1.requests[p] == s.requests[p]
  }

  lemma KeptFurther(s: Port, s1: Port, s2: Port, kernel: Kernel)
    requires UserKept(s, s1, kernel) && UserKept(s1, s2, kernel)
    ensures UserKept(s, s2, kernel)
  {
    forall q
      ensures KeptRecord(s, s2, q, kernel)
    {
      assert KeptRecord(s, s1, q, kernel) && KeptRecord(s1, s2, q, kernel);
    }
  }

  lemma GoneKept(s: Port, p: Ptr, kernel: Kernel)
    requires Sound(s) && p in s.socks && !s.socks[p].deletePending && s.socks[p].status == Idle
    ensures var s1 := Delete(s, p, false, kernel); s1.log == s.log + [Removed(p)] + [Freed(p)] && p !in s1.socks
    ensures Deliveries(Delete(s, p, false, kernel).log) == Deliveries(s.log)
  {
    DroppedGives(s, p, kernel);
    DeliveriesSnoc(s.log, Removed(p));
    DeliveriesSnoc(s.log + [Removed(p)], Freed(p));
  }

  /** The record is still there for the user. */
  predicate Stays(s: Port, s1: Port, p: Ptr)
    requires p in s.socks
  {
    p in s1.socks && SameUser(s.socks[p], s1.socks[p]) && !s1.socks[p].deletePending && s1.log == s.log
  }

  lemma UpdateIdleStays(s: Port, p: Ptr, kernel: Kernel)
    requires p in s.socks && !s.socks[p].deletePending && s.socks[p].status == Idle && kernel.poll(p) != SocketGone
    ensures Stays(s, Update(s, p, kernel).0, p)
  {
  }

  lemma UpdateBusyStays(s: Port, p: Ptr, kernel: Kernel)
    requires p in s.socks && !s.socks[p].deletePending && s.socks[p].status != Idle
    ensures Stays(s, Update(s, p, kernel).0, p)
  {
  }

  lemma UpdateGone(s: Port, p: Ptr, kernel: Kernel)
    requires Sound(s) && AllSettled(s) && p in s.updateQueue && p in s.socks && !s.socks[p].deletePending
    requires s.socks[p].status == Idle && kernel.poll(p) == SocketGone
    ensures var s1 := Update(s, p, kernel).0;
      p !in s1.socks && Deliveries(s1.log) == Deliveries(s.log) && s.log <= s1.log
  {
    AskingSound(s, p);
    GoneKept(Put(s, p, Asking(s.socks[p])), p, kernel);
  }

  lemma UpdateOwn(s: Port, p: Ptr, kernel: Kernel)
    requires Sound(s) && AllSettled(s) && p in s.updateQueue
    requires Updated(s, Update(s, p, kernel).0, p, Update(s, p, kernel).1)
    ensures var s1 := Update(s, p, kernel).0;
      KeptRecord(s, s1, p, kernel) && Deliveries(s1.log) == Deliveries(s.log) && s.log <= s1.log
  {
    assert RecordOk(s, p);
    if s.socks[p].status != Idle {
      UpdateBusyStays(s, p, kernel);
    } else if kernel.poll(p) != SocketGone {
      UpdateIdleStays(s, p, kernel);
    } else {
      UpdateGone(s, p, kernel);
    }
  }

  lemma UpdateKeeps(s: Port, p: Ptr, kernel: Kernel)
    requires Sound(s) && AllSettled(s) && p in s.updateQueue
    ensures UserKept(s, Update(s, p, kernel).0, kernel)
  {
    var s1 := Update(s, p, kernel).0;
    UpdateSound(s, p, kernel);
    UpdateOwn(s, p, kernel);
    forall q
      ensures KeptRecord(s, s1, q, kernel)
    {
      if q != p { assert Same(s, s1, q); }
    }
  }

  lemma {:induction false} UpdatesKeep(s: Port, kernel: Kernel)
    requires Sound(s) && AllSettled(s)
    ensures UserKept(s, UpdateEvents(s, kernel).0, kernel)
    decreases |s.updateQueue|
  {
    if s.updateQueue != [] {
      var p := s.updateQueue[0];
      var (s1, done) := Update(s, p, kernel);
      UpdateSound(s, p, kernel);
      UpdateKeeps(s, p, kernel);
      if done && |s1.updateQueue| < |s.updateQueue| {
        UpdatesKeep(s1, kernel);
        KeptFurther(s, s1, UpdateEvents(s1, kernel).0, kernel);
      }
    }
  }

  lemma PollingKeeps(s: Port, kernel: Kernel)
    requires Sound(s) && AllSettled(s)
    ensures UserKept(s, UpdateIfPolling(s, kernel), kernel)
  {
    UpdatesKeep(s, kernel);
  }

  // ---------- EPOLL_CTL_DEL ----------

  /** The record of the socket has left the epoll set, and nothing else has changed: it is freed, or marked as
      deleted until its request comes back. */
  ghost predicate Deleted(s: Port, s1: Port, socket: Socket, p: Ptr, kernel: Kernel)
    requires p in s.socks
  {
    var k := s.socks[p];
    s1.tree == s.tree - {socket} && Elsewhere(s, s1, p) && s1.requests == s.requests &&
    if k.status == Idle then p !in s1.socks && s1.log == s.log + [Removed(p)] + [Freed(p)]
    else
      p in s1.socks && s1.socks[p].deletePending && p in s1.deletedQueue && s1.log == s.log + [Removed(p)] &&
      s1.socks[p].status ==
        if k.status == Pending && (kernel.cancel(p) || (p in s.requests && s.requests[p] != Submitted)) then Cancelled
        else k.status
  }

  lemma DeferredGives(s: Port, p: Ptr)
    requires p in s.socks && s.socks[p].status != Idle
    ensures var s1 := FreeOrDefer(s, p, false);
      p in s1.socks && s1.socks[p] == s.socks[p] && s1.tree == s.tree && s1.log == s.log
  {
  }

  lemma DeleteGives(s: Port, p: Ptr, kernel: Kernel)
    requires Sound(s) && AllSettled(s) && p in s.socks && !s.socks[p].deletePending
    ensures Deleted(s, Delete(s, p, false, kernel), s.socks[p].socket, p, kernel)
  {
    var k, u, s1 := s.socks[p], Unregister(s, p, kernel), Delete(s, p, false, kernel);
    assert RequestOk(s, p);
    DeleteSound(s, p, kernel);
    DetachedGives(s, p, kernel);
    DetachedStatus(s, p, kernel);
    if k.status == Idle {
      DroppedGives(s, p, kernel);
    } else {
      DeferredGives(u, p);
      assert Settled(s1, p);
    }
  }

  /** EPOLL_CTL_DEL succeeds exactly for a socket in the epoll set, and takes it out. */
  lemma DelDoes(s: Port, socket: Socket, kernel: Kernel)
    requires Inv(s)
    ensures var (s1, done) := CtlDel(s, socket, kernel);
      (done <==> socket in s.tree) &&
      if done then s.tree[socket] in s.socks && Deleted(s, s1, socket, s.tree[socket], kernel) else s1 == s
  {
    if socket in s.tree { DeleteGives(s, s.tree[socket], kernel); }
  }

  // ---------- EPOLL_CTL_MOD ----------

  /** The record watches for `e`, and always for errors and hang-ups. */
  predicate Watching(k: Sock, socket: Socket, e: Event) {
    k.socket == socket && k.userEvents == e.events + {Err, Hup} && k.data == e.data
  }

  /** The record `p` watches for `e`, unless its socket was found to be gone while a thread polls; this has been
      logged; and to the user all other records are as before. */
  ghost predicate SetTo(s: Port, s1: Port, socket: Socket, p: Ptr, e: Event, kernel: Kernel) {
    (p in s1.socks ==> Watching(s1.socks[p], socket, e)) &&
    (s.active == 0 || kernel.poll(p) != SocketGone ==>
      p in s1.socks && !s1.socks[p].deletePending && socket in s1.tree && s1.tree[socket] == p) &&
    s.log + [Set(p, e)] <= s1.log && Deliveries(s1.log) == Deliveries(s.log) &&
    SameAnswer(s, s1, p) &&
    forall q :: q != p ==> KeptRecord(s, s1, q, kernel)
  }

  lemma SetGives(s: Port, p: Ptr, e: Event)
    requires p in s.socks
    ensures var s1 := SetEvent(s, p, e);
      p in s1.socks && Watching(s1.socks[p], s.socks[p].socket, e) && s1.log == s.log + [Set(p, e)] &&
      s1.socks[p].deletePending == s.socks[p].deletePending && s1.active == s.active
  {
  }

  lemma SetAndUpdated(s: Port, p: Ptr, e: Event, kernel: Kernel)
    requires Sound(s) && OthersSettled(s, p) && WaitersOk(s, 0, [])
    requires p in s.socks && !s.socks[p].deletePending && (s.socks[p].userEvents == {} || Settled(s, p))
    ensures SetTo(s, UpdateIfPolling(SetEvent(s, p, e), kernel), s.socks[p].socket, p, e, kernel)
  {
    var s1 := SetEvent(s, p, e);
    var s2 := UpdateIfPolling(s1, kernel);
    SetEventSound(s, p, e);
    SetEventInv(s, p, e);
    SetGives(s, p, e);
    DeliveriesSnoc(s.log, Set(p, e));
    PollingKeeps(s1, kernel);
    UpdateIfPollingInv(s1, kernel);
    assert KeptRecord(s1, s2, p, kernel) && RecordOk(s2, p);
    forall q | q != p
      ensures KeptRecord(s, s2, q, kernel)
    {
      assert Same(s, s1, q) && KeptRecord(s1, s2, q, kernel);
    }
  }

  /** EPOLL_CTL_MOD succeeds exactly for a socket in the epoll set, and sets what it watches for. */
  lemma ModDoes(s: Port, socket: Socket, e: Event, kernel: Kernel)
    requires Inv(s)
    ensures var (s1, done) := CtlMod(s, socket, e, kernel);
      (done <==> socket in s.tree) &&
      if done then SetTo(s, s1, socket, s.tree[socket], e, kernel) else s1 == s
  {
    if socket in s.tree {
      assert Settled(s, s.tree[socket]);
      SetAndUpdated(s, s.tree[socket], e, kernel);
    }
  }

  // ---------- EPOLL_CTL_ADD ----------

  /** There is a slot in a poll group, or one can be made. */
  predicate HasSlot(s: Port, input: NewInput) {
    input.canCreate || exists g :: g in s.groups.size && s.groups.size[g] < PollGroups.MAX_GROUP_SIZE
  }

  predicate CanAdd(s: Port, socket: Socket, input: NewInput) {
    socket != 0 && socket != INVALID_SOCKET && input.hasBase && HasSlot(s, input) && input.memory.Some? &&
    socket !in s.tree
  }

  /** Only the poll groups may differ. */
  predicate SameRecords(s: Port, s1: Port) {
    s1 == s.(groups := s1.groups, late := s1.late, peak := s1.peak)
  }

  /** Where the record of a socket goes that is added. */
  ghost predicate NewIn(s: Port, s1: Port, socket: Socket, p: Ptr) {
    p in s1.socks && s1.socks == s.socks[p := s1.socks[p]] && s1.tree == s.tree[socket := p] &&
    s1.socks[p].socket == socket && s1.log == s.log && s1.active == s.active && s1.requests == s.requests
  }

  lemma RegisteredNew(s: Port, s1: Port, socket: Socket, p: Ptr, g: PollGroups.Group)
    requires SameRecords(s, s1)
    ensures NewIn(s, Registered(s1, p, socket, g), socket, p)
  {
  }

  lemma ReleasedSame(s: Port, s1: Port, g: PollGroups.Group)
    requires SameRecords(s, s1) && Acquired(s1, g) && s.ok
    ensures SameRecords(s, ReleaseGroup(s1, g))
  {
    GiveBackSound(s1, g);
  }

  lemma NewGives(s: Port, socket: Socket, input: NewInput)
    requires Inv(s) && input.group !in s.groups.size
    ensures var (s1, p) := NewSock(s, socket, input);
      (p.Some? <==> CanAdd(s, socket, input)) &&
      if p.None? then SameRecords(s, s1) else p == input.memory && NewIn(s, s1, socket, p.value)
  {
    PollGroups.AcquireExact(s.groups, input.group, input.canCreate);
    AcquireSound(s, input);
    var (s1, g) := AcquireGroup(s, input);
    if g.Some? {
      if input.memory.None? || socket in s.tree {
        ReleasedSame(s, s1, g.value);
      } else {
        RegisteredNew(s, s1, socket, input.memory.value, g.value);
      }
    }
  }

  lemma NewSet(s: Port, s1: Port, s2: Port, socket: Socket, p: Ptr, e: Event, kernel: Kernel)
    requires NewIn(s, s1, socket, p) && SetTo(s1, s2, socket, p, e, kernel)
    ensures SetTo(s, s2, socket, p, e, kernel)
  {
    forall q | q != p
      ensures KeptRecord(s, s2, q, kernel)
    {
      assert KeptRecord(s1, s2, q, kernel);
    }
  }

  /** EPOLL_CTL_ADD: exactly when it succeeds, and that the socket then is in the epoll set and watches. */
  lemma AddDoes(s: Port, socket: Socket, e: Event, input: NewInput, kernel: Kernel)
    requires Inv(s) && input.group !in s.groups.size && (input.memory.Some? ==> input.memory.value !in s.socks)
    ensures var (s1, done) := CtlAdd(s, socket, e, input, kernel);
      (done <==> CanAdd(s, socket, input)) &&
      if done then SetTo(s, s1, socket, input.memory.value, e, kernel) else SameRecords(s, s1)
  {
    var (s1, p) := NewSock(s, socket, input);
    NewGives(s, socket, input);
    NewSockSound(s, socket, input);
    if p.Some? {
      SetAndUpdated(s1, p.value, e, kernel);
      NewSet(s, s1, CtlAdd(s, socket, e, input, kernel).0, socket, p.value, e, kernel);
    }
  }

  // ---------- steps ----------

  lemma EnterKeeps(s: Port, t: Thread, n: nat, kernel: Kernel)
    requires Inv(s)
    ensures UserKept(s, PollEnter(s, t, n, kernel).0, kernel)
  {
    var s1 := UpdateEvents(s, kernel).0;
    UpdatesKeep(s, kernel);
    forall q
      ensures KeptRecord(s, PollEnter(s, t, n, kernel).0, q, kernel)
    {
      assert KeptRecord(s, s1, q, kernel);
    }
  }

  lemma PollAgainKeeps(s: Port, t: Thread, n: nat, kernel: Kernel)
    requires Inv(s) && t !in s.waiters
    ensures var (s1, done) := PollEnter(s, t, n, kernel);
      UserKept(s, if done then s1 else UpdateIfPolling(s1, kernel), kernel)
  {
    var (s1, done) := PollEnter(s, t, n, kernel);
    EnterKeeps(s, t, n, kernel);
    PollEnterInv(s, t, n, kernel);
    PollingKeeps(s1, kernel);
    KeptFurther(s, s1, UpdateIfPolling(s1, kernel), kernel);
  }

  /** The events that a step hands to its caller. */
  function HandedOut(s: Port, a: Action): seq<Event> {
    if a.DoLeave? then AllExpected(s, BatchOf(s, a.t)) else []
  }

  lemma LeaveGives(s: Port, t: Thread, again: bool, kernel: Kernel)
    requires Inv(s) && t in s.waiters
    ensures Deliveries(Step(s, DoLeave(t, again, kernel)).log) == Deliveries(s.log) + AllExpected(s, BatchOf(s, t))
  {
    var (s1, es) := PollLeave(s, t);
    PollLeaveInv(s, t);
    WaitGives(s, t);
    if again && es == Some([]) {
      PollAgainKeeps(s1, t, s.waiters[t].maxEvents, kernel);
    } else {
      PollingKeeps(s1, kernel);
    }
  }

  /** In every run every event that was asked for and has happened is delivered when its packet is taken in, and
      nothing else ever is. */
  lemma StepGives(s: Port, a: Action)
    requires Inv(s) && Enabled(s, a)
    ensures Deliveries(Step(s, a).log) == Deliveries(s.log) + HandedOut(s, a)
  {
    match a
    case DoAdd(socket, e, input, kernel) => AddDoes(s, socket, e, input, kernel);
    case DoMod(socket, e, kernel) => ModDoes(s, socket, e, kernel);
    case DoDel(socket, kernel) => if socket in s.tree { DeleteSound(s, s.tree[socket], kernel); }
    case DoEnter(t, n, kernel) => PollAgainKeeps(s, t, n, kernel);
    case DoComplete(_, _) =>
    case DoTake(_, _) =>
    case DoLeave(t, again, kernel) => LeaveGives(s, t, again, kernel);
    case DoClose =>
  }

  // ---------- from the kernel to the caller ----------

  lemma {:induction false} FeedAllAnswers(s: Port, t: Thread, b: seq<Ptr>, p: Ptr)
    requires Sound(s) && AllSettled(s) && WaitersOk(s, t, b) && p !in b
    ensures SameAnswer(s, FeedAll(s, b).0, p)
    decreases |b|
  {
    if b != [] {
      assert Holds(s, t, b[0]);
      FeedSound(s, b[0]);
      FeedFirst(s, t, b);
      FeedAllAnswers(Feed(s, b[0]).0, t, b[1..], p);
    }
  }

  lemma WakeAnswers(s: Port, t: Thread, p: Ptr)
    requires Inv(s) && t in s.waiters && p !in BatchOf(s, t)
    ensures SameAnswer(s, PollLeave(s, t).0, p)
  {
    WaiterLeaves(s, t);
    OtherFields(s, Woken(s, t));
    if s.waiters[t].batch.Some? { FeedAllAnswers(Woken(s, t), t, BatchOf(s, t), p); }
  }

  lemma KeptAnswer(s: Port, s1: Port, kernel: Kernel, p: Ptr)
    requires UserKept(s, s1, kernel)
    ensures SameAnswer(s, s1, p)
  {
    assert KeptRecord(s, s1, p, kernel);
  }

  lemma LeaveAnswers(s: Port, t: Thread, again: bool, kernel: Kernel, p: Ptr)
    requires Inv(s) && t in s.waiters && p !in BatchOf(s, t)
    ensures SameAnswer(s, Step(s, DoLeave(t, again, kernel)), p)
  {
    var (s1, es) := PollLeave(s, t);
    WakeAnswers(s, t, p);
    PollLeaveInv(s, t);
    if again && es == Some([]) {
      PollAgainKeeps(s1, t, s.waiters[t].maxEvents, kernel);
      KeptAnswer(s1, Step(s, DoLeave(t, again, kernel)), kernel, p);
    } else {
      PollingKeeps(s1, kernel);
      KeptAnswer(s1, UpdateIfPolling(s1, kernel), kernel, p);
    }
  }

  lemma SetAnswer(s: Port, s1: Port, socket: Socket, q: Ptr, e: Event, kernel: Kernel, p: Ptr)
    requires SetTo(s, s1, socket, q, e, kernel)
    ensures SameAnswer(s, s1, p)
  {
    if p != q { assert KeptRecord(s, s1, p, kernel); }
  }

  lemma CtlAnswers(s: Port, a: Action, p: Ptr)
    requires Inv(s) && Enabled(s, a) && (a.DoAdd? || a.DoMod? || a.DoDel?)
    ensures SameAnswer(s, Step(s, a), p)
  {
    if a.DoAdd? {
      AddDoes(s, a.socket, a.e, a.input, a.kernel);
      if CanAdd(s, a.socket, a.input) { SetAnswer(s, Step(s, a), a.socket, a.input.memory.value, a.e, a.kernel, p); }
    } else if a.DoMod? {
      ModDoes(s, a.socket, a.e, a.kernel);
      if a.socket in s.tree { SetAnswer(s, Step(s, a), a.socket, s.tree[a.socket], a.e, a.kernel, p); }
    } else {
      DelDoes(s, a.socket, a.kernel);
    }
  }

  /** What the kernel has answered stays as it is, in the completion port and then in the hands of the thread that
      dequeues the packet, until that thread takes it in. */
  lemma AnswerStays(s: Port, a: Action, p: Ptr)
    requires Inv(s) && Enabled(s, a) && Answered(s, p) && !(a.DoLeave? && p in BatchOf(s, a.t))
    ensures var s1 := Step(s, a);
      Answered(s1, p) &&
      if a.DoTake? && p in a.batch then s1.requests[p] == Taken(a.t, s.requests[p].result)
      else s1.requests[p] == s.requests[p]
  {
    match a
    case DoEnter(t, n, kernel) =>
      PollAgainKeeps(s, t, n, kernel);
      KeptAnswer(s, Step(s, a), kernel, p);
    case DoComplete(_, _) =>
    case DoTake(_, _) =>
    case DoLeave(t, again, kernel) => LeaveAnswers(s, t, again, kernel, p);
    case DoClose =>
    case _ => CtlAnswers(s, a, p);
  }

  /** No thread takes in the packet of `p`. */
  ghost predicate NotTakenIn(s: Port, actions: seq<Action>, p: Ptr)
    decreases |actions|
  {
    actions == [] ||
    (Enabled(s, actions[0]) && !(actions[0].DoLeave? && p in BatchOf(s, actions[0].t)) &&
     NotTakenIn(Step(s, actions[0]), actions[1..], p))
  }

  lemma {:induction false} AnswerKept(s: Port, actions: seq<Action>, s1: Port, p: Ptr)
    requires Inv(s) && Run(s, actions, s1) && NotTakenIn(s, actions, p) && Answered(s, p)
    ensures Inv(s1) && Answered(s1, p) && s1.requests[p].result == s.requests[p].result
    decreases |actions|
  {
    if actions != [] {
      AnswerStays(s, actions[0], p);
      StepInv(s, actions[0]);
      AnswerKept(Step(s, actions[0]), actions[1..], s1, p);
    }
  }

  lemma {:induction false} InBatch(s: Port, b: seq<Ptr>, p: Ptr)
    requires p in b && ExpectedOf(s, p).Some?
    ensures ExpectedOf(s, p).value in AllExpected(s, b)
    decreases |b|
  {
    if b[0] == p {
      assert AsSeq(ExpectedOf(s, p))[0] == ExpectedOf(s, p).value;
    } else {
      InBatch(s, b[1..], p);
    }
  }

  /** From the kernel to the caller: when the kernel has ended a request of `p`, then whatever happens before a
      thread takes its packet in, that thread returns the event that is expected for the kernel's answer and what
      is asked of the record by then. */
  lemma AnswerComesBack(s: Port, p: Ptr, result: Result, actions: seq<Action>, s1: Port, t: Thread)
    requires Inv(s) && Enabled(s, DoComplete(p, result))
    requires Run(Step(s, DoComplete(p, result)), actions, s1)
    requires NotTakenIn(Step(s, DoComplete(p, result)), actions, p)
    requires t in s1.waiters && p in BatchOf(s1, t)
    ensures p in s1.socks
    ensures var e, es := Expected(s1.socks[p], result), PollLeave(s1, t).1;
      es.Some? && (e.Some? ==> e.value in es.value)
  {
    StepInv(s, DoComplete(p, result));
    AnswerKept(Step(s, DoComplete(p, result)), actions, s1, p);
    assert WaiterOk(s1, t) && RequestOk(s1, p);
    assert Holds(s1, t, p);
    WaitGives(s1, t);
    if Expected(s1.socks[p], result).Some? { InBatch(s1, BatchOf(s1, t), p); }
  }

  // ---------- no update waits while a thread polls ----------

  /** While a thread polls, no record waits for an update, if the kernel refuses nothing. */
  predicate UpToDate(s: Port) { s.active > 0 ==> s.updateQueue == [] }

  lemma PollingUpToDate(s: Port, kernel: Kernel)
    requires Inv(s) && Willing(kernel)
    ensures UpToDate(UpdateIfPolling(s, kernel))
  {
    UpdateEventsSound(s, kernel, 0, []);
  }

  /** epoll_wait starts to poll, unless the kernel refuses something. */
  lemma EnterDoes(s: Port, t: Thread, n: nat, kernel: Kernel)
    requires Inv(s)
    ensures var (s1, done) := PollEnter(s, t, n, kernel);
      (Willing(kernel) ==> done) &&
      (done ==> s1.active == s.active + 1 && s1.waiters == s.waiters[t := Waiter(n, None)] && UpToDate(s1))
  {
    UpdateEventsSound(s, kernel, 0, []);
  }

  ghost predicate WillingStep(a: Action) {
    (a.DoAdd? || a.DoMod? || a.DoDel? || a.DoEnter? || a.DoLeave?) ==> Willing(a.kernel)
  }

  lemma LeaveUpToDate(s: Port, t: Thread, again: bool, kernel: Kernel)
    requires Inv(s) && t in s.waiters && Willing(kernel)
    ensures UpToDate(Step(s, DoLeave(t, again, kernel)))
  {
    var (s1, es) := PollLeave(s, t);
    PollLeaveInv(s, t);
    if again && es == Some([]) {
      EnterDoes(s1, t, s.waiters[t].maxEvents, kernel);
    } else {
      PollingUpToDate(s1, kernel);
    }
  }

  lemma CtlUpToDate(s: Port, a: Action)
    requires Inv(s) && Enabled(s, a) && UpToDate(s) && (a.DoAdd? || a.DoMod? || a.DoDel?) && WillingStep(a)
    ensures UpToDate(Step(s, a))
  {
    if a.DoAdd? {
      var (s1, p) := NewSock(s, a.socket, a.input);
      NewSockSound(s, a.socket, a.input);
      NewGives(s, a.socket, a.input);
      if p.Some? {
        SetEventInv(s1, p.value, a.e);
        PollingUpToDate(SetEvent(s1, p.value, a.e), a.kernel);
      }
    } else if a.DoMod? {
      if a.socket in s.tree {
        assert Settled(s, s.tree[a.socket]);
        SetEventInv(s, s.tree[a.socket], a.e);
        PollingUpToDate(SetEvent(s, s.tree[a.socket], a.e), a.kernel);
      }
    } else if a.socket in s.tree {
      DeleteSound(s, s.tree[a.socket], a.kernel);
    }
  }

  /** Every step keeps it so: what epoll_ctl sets while other threads wait takes effect at once. */
  lemma StepUpToDate(s: Port, a: Action)
    requires Inv(s) && Enabled(s, a) && UpToDate(s) && WillingStep(a)
    ensures UpToDate(Step(s, a))
  {
    match a
    case DoEnter(t, n, kernel) => EnterDoes(s, t, n, kernel);
    case DoComplete(_, _) =>
    case DoTake(_, _) =>
    case DoLeave(t, again, kernel) => LeaveUpToDate(s, t, again, kernel);
    case DoClose =>
    case _ => CtlUpToDate(s, a);
  }
}
