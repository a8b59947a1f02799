/** What every operation on one record of a port keeps. */
module PortInv {
  import opened EventMasks
  import opened Options
  import opened Sequences
  import opened PortModel
  import PollGroups

  // ---------- the history of a record ----------

  /** What the log says about a record: not allocated or not set yet, watching for an event, waiting to
      be set again after a one-shot delivery, or out of the epoll set. */
  datatype Watch = Absent | Watching(event: Event) | Spent(event: Event) | Gone

  /** The mask sock_set_event asks for. */
  function Wanted(e: Event): Mask { e.events + {Err, Hup} }

  function Next(w: Watch, x: Entry, p: Ptr): Watch {
    if x.ptr != p then w
    else match x
      case Set(_, e) => Watching(e)
      case Delivered(_, _) => if w.Watching? && OneShot in w.event.events then Spent(w.event) else w
      case Removed(_) => Gone
      case Freed(_) => Absent
  }

  function Track(log: seq<Entry>, p: Ptr): Watch {
    if log == [] then Absent else Next(Track(log[..|log| - 1], p), log[|log| - 1], p)
  }

  /** May the entry come now? An event is delivered only while the record watches, with the data last set
      and only events last asked for; a record is freed only once it has left the epoll set. */
  predicate Allowed(w: Watch, x: Entry) {
    match x
    case Set(_, _) => !w.Gone?
    case Delivered(_, e) =>
      w.Watching? && e.data == w.event.data && e.events != {} && e.events <= Wanted(w.event)
    case Removed(_) => !w.Gone?
    case Freed(_) => w.Gone?
  }

  ghost predicate LogOk(log: seq<Entry>) {
    forall i :: 0 <= i < |log| ==> Allowed(Track(log[..i], log[i].ptr), log[i])
  }

  /** The events among the entries of a log. */
  function Deliveries(log: seq<Entry>): seq<Event> {
    if log == [] then []
    else Deliveries(log[..|log| - 1]) + (if log[|log| - 1].Delivered? then [log[|log| - 1].event] else [])
  }

  lemma DeliveriesSnoc(log: seq<Entry>, x: Entry)
    ensures Deliveries(log + [x]) == Deliveries(log) + (if x.Delivered? then [x.event] else [])
  {
    assert (log + [x])[..|log|] == log;
  }

  function AsSeq(e: Option<Event>): seq<Event> { if e.Some? then [e.value] else [] }

  lemma TrackSnoc(log: seq<Entry>, x: Entry)
    ensures forall p :: Track(log + [x], p) == Next(Track(log, p), x, p)
    ensures LogOk(log) && Allowed(Track(log, x.ptr), x) ==> LogOk(log + [x])
  {
    var log1 := log + [x];
    assert log1[..|log|] == log;
    forall i | LogOk(log) && Allowed(Track(log, x.ptr), x) && 0 <= i < |log1|
      ensures Allowed(Track(log1[..i], log1[i].ptr), log1[i])
    {
      if i < |log| { assert log1[..i] == log[..i]; }
    }
  }

  // ---------- the invariant ----------

  /** The record agrees with the last entries about it. */
  predicate Agrees(w: Watch, k: Sock) {
    match w
    case Absent => !k.deletePending && k.userEvents == {}
    case Watching(e) => !k.deletePending && k.data == e.data && k.userEvents == Wanted(e)
    case Spent(_) => !k.deletePending && k.userEvents == {}
    case Gone => k.deletePending
  }

  /** A record is in the socket tree until it is deleted, is queued for update only until then, and is in
      the deleted queue only after. */
  predicate SockOk(s: Port, p: Ptr)
    requires p in s.socks
  {
    var k := s.socks[p];
    && (if k.deletePending then p !in s.updateQueue
        else k.socket in s.tree && s.tree[k.socket] == p && p !in s.deletedQueue)
    && Agrees(Track(s.log, p), k)
  }

  /** What is not allocated is nowhere. */
  predicate NoTrace(s: Port, p: Ptr) {
    p !in s.updateQueue && p !in s.deletedQueue && Track(s.log, p) == Absent
  }

  ghost predicate RecordOk(s: Port, p: Ptr) {
    if p in s.socks then SockOk(s, p) else NoTrace(s, p)
  }

  ghost predicate TreeOk(s: Port) {
    forall x :: x in s.tree ==>
      s.tree[x] in s.socks && s.socks[s.tree[x]].socket == x && !s.socks[s.tree[x]].deletePending
  }

  ghost predicate Base(s: Port) {
    && s.ok && Distinct(s.updateQueue) && Distinct(s.deletedQueue) && LogOk(s.log) && TreeOk(s)
    && (forall p :: RecordOk(s, p))
  }

  /** The kernel was asked for the pending events, and for none if there is no request or it was cancelled. */
  predicate AskedOk(k: Sock) {
    if k.status == Pending then k.polled == EpollToAfd(k.pendingEvents) else k.pendingEvents == {}
  }

  /** A request is outstanding exactly while the status of an allocated record says so. */
  predicate RequestOk(s: Port, p: Ptr) {
    (p in s.requests <==> p in s.socks && s.socks[p].status != Idle) && (p in s.socks ==> AskedOk(s.socks[p]))
  }

  ghost predicate RequestsOk(s: Port) {
    forall p :: RequestOk(s, p)
  }

  /** Interest is not lost: the record is queued for update, or its request covers what was asked for,
      or its request was cancelled, so that its completion will queue it. */
  predicate Interested(s: Port, p: Ptr)
    requires p in s.socks
  {
    var k := s.socks[p];
    p in s.updateQueue || (k.status == Pending && Covered(k.userEvents, k.pendingEvents)) || k.status == Cancelled
  }

  /** Between operations a deleted record only waits for its request to come back. */
  ghost predicate Settled(s: Port, p: Ptr) {
    p in s.socks ==>
      if s.socks[p].deletePending then p in s.deletedQueue && s.socks[p].status != Idle else Interested(s, p)
  }

  ghost predicate OthersSettled(s: Port, p: Ptr) {
    forall q :: q != p ==> Settled(s, q)
  }

  ghost predicate AllSettled(s: Port) {
    forall q :: Settled(s, q)
  }

  // ---------- operations that touch one record ----------

  /** Nothing about `q` differs. */
  ghost predicate Same(s: Port, s1: Port, q: Ptr) {
    && (q in s1.socks <==> q in s.socks) && (q in s.socks ==> s1.socks[q] == s.socks[q])
    && (q in s1.requests <==> q in s.requests) && (q in s.requests ==> s1.requests[q] == s.requests[q])
    && (q in s1.updateQueue <==> q in s.updateQueue) && (q in s1.deletedQueue <==> q in s.deletedQueue)
    && Track(s1.log, q) == Track(s.log, q)
  }

  ghost predicate SameTree(s: Port, s1: Port, p: Ptr) {
    && (forall x :: x in s.tree && s.tree[x] != p ==> x in s1.tree && s1.tree[x] == s.tree[x])
    && (forall x :: x in s1.tree && s1.tree[x] != p ==> x in s.tree && s1.tree[x] == s.tree[x])
  }

  /** Only `p` may differ. */
  ghost predicate Elsewhere(s: Port, s1: Port, p: Ptr) {
    && (forall q :: q != p ==> Same(s, s1, q)) && SameTree(s, s1, p)
    && s1.waiters == s.waiters && s1.active == s.active && s1.open == s.open && s1.late == s.late
  }

  lemma Further(s: Port, s1: Port, s2: Port, p: Ptr)
    requires Elsewhere(s, s1, p) && Elsewhere(s1, s2, p)
    ensures Elsewhere(s, s2, p)
  {
    forall q | q != p
      ensures Same(s, s2, q)
    {
      assert Same(s, s1, q) && Same(s1, s2, q);
    }
  }

  lemma Local(s: Port, s1: Port, p: Ptr)
    requires Base(s) && Elsewhere(s, s1, p) && RecordOk(s1, p)
    requires s1.ok && Distinct(s1.updateQueue) && Distinct(s1.deletedQueue) && LogOk(s1.log)
    requires forall x :: x in s1.tree && s1.tree[x] == p ==>
      p in s1.socks && s1.socks[p].socket == x && !s1.socks[p].deletePending
    ensures Base(s1)
  {
    forall q
      ensures RecordOk(s1, q)
    {
      if q != p { assert Same(s, s1, q) && RecordOk(s, q); }
    }
    forall x | x in s1.tree
      ensures s1.tree[x] in s1.socks && s1.socks[s1.tree[x]].socket == x && !s1.socks[s1.tree[x]].deletePending
    {
      if s1.tree[x] != p { assert Same(s, s1, s1.tree[x]); }
    }
  }

  lemma LocalRequests(s: Port, s1: Port, p: Ptr)
    requires RequestsOk(s) && Elsewhere(s, s1, p) && RequestOk(s1, p)
    ensures RequestsOk(s1)
  {
    forall q
      ensures RequestOk(s1, q)
    {
      if q != p { assert Same(s, s1, q) && RequestOk(s, q); }
    }
  }

  lemma OthersStay(s: Port, s1: Port, p: Ptr)
    requires Elsewhere(s, s1, p) && OthersSettled(s, p)
    ensures OthersSettled(s1, p)
  {
    forall q | q != p
      ensures Settled(s1, q)
    {
      assert Same(s, s1, q) && Settled(s, q);
    }
  }

  // ---------- queues ----------

  lemma {:induction false} RemovingDistinct(q: seq<Ptr>, p: Ptr)
    requires Distinct(q)
    ensures Distinct(Without(q, p))
  {
    if q != [] {
      RemovingDistinct(q[1..], p);
      var w := Without(q[1..], p);
      if q[0] != p { assert ([q[0]] + w)[1..] == w; } else { assert Without(q, p) == w; }
    }
  }

  lemma {:induction false} SnocDistinct(q: seq<Ptr>, p: Ptr)
    requires Distinct(q) && p !in q
    ensures Distinct(q + [p])
  {
    if q == [] {
      assert q + [p] == [p];
    } else {
      assert (q + [p])[1..] == q[1..] + [p];
      SnocDistinct(q[1..], p);
    }
  }

  /** The parts of Base that are not about a single record. */
  ghost predicate Frame(s: Port) {
    s.ok && Distinct(s.updateQueue) && Distinct(s.deletedQueue) && LogOk(s.log)
  }

  lemma DequeueLocal(s: Port, p: Ptr)
    requires Frame(s)
    ensures Elsewhere(s, Dequeue(s, p), p) && Frame(Dequeue(s, p))
  {
    RemovingDistinct(s.updateQueue, p);
    RemovingDistinct(s.deletedQueue, p);
  }

  lemma RequestUpdateLocal(s: Port, p: Ptr)
    requires Frame(s)
    ensures Elsewhere(s, RequestUpdate(s, p), p) && Frame(RequestUpdate(s, p)) && Enqueued(RequestUpdate(s, p), p)
  {
    if !Enqueued(s, p) { SnocDistinct(s.updateQueue, p); }
  }

  lemma AddDeletedLocal(s: Port, p: Ptr)
    requires Frame(s)
    ensures Elsewhere(s, AddDeleted(s, p), p) && Frame(AddDeleted(s, p)) && Enqueued(AddDeleted(s, p), p)
  {
    if !Enqueued(s, p) { SnocDistinct(s.deletedQueue, p); }
  }

  lemma LogLocal(s: Port, x: Entry)
    requires Frame(s) && Allowed(Track(s.log, x.ptr), x)
    ensures var s1 := s.(log := s.log + [x]);
      Elsewhere(s, s1, x.ptr) && Frame(s1) && Track(s1.log, x.ptr) == Next(Track(s.log, x.ptr), x, x.ptr)
  {
    TrackSnoc(s.log, x);
  }

  // ---------- sock__cancel_poll, sock__delete ----------

  lemma PutLocal(s: Port, p: Ptr, k: Sock)
    requires Frame(s)
    ensures Elsewhere(s, Put(s, p, k), p) && Frame(Put(s, p, k))
  {
  }

  lemma CancelPollLocal(s: Port, p: Ptr, kernel: Kernel)
    requires Frame(s) && p in s.socks && s.socks[p].status == Pending
    ensures var (s1, done) := CancelPoll(s, p, kernel);
      Elsewhere(s, s1, p) && Frame(s1) &&
      s1 == if done then Put(s, p, s.socks[p].(status := Cancelled, pendingEvents := {})) else s
  {
    PutLocal(s, p, s.socks[p].(status := Cancelled, pendingEvents := {}));
  }

  lemma CancelIfPendingLocal(s: Port, p: Ptr, kernel: Kernel)
    requires Frame(s) && p in s.socks
    ensures var s1 := CancelIfPending(s, p, kernel);
      Elsewhere(s, s1, p) && Frame(s1) && p in s1.socks &&
      s1.socks[p].(status := s.socks[p].status, pendingEvents := s.socks[p].pendingEvents) == s.socks[p] &&
      s1 == s.(socks := s.socks[p := s1.socks[p]]) &&
      (s1.socks[p] == s.socks[p] || (s.socks[p].status == Pending && s1.socks[p].status == Cancelled &&
        s1.socks[p].pendingEvents == {}))
  {
    if s.socks[p].status == Pending { CancelPollLocal(s, p, kernel); }
    assert s.socks == s.socks[p := s.socks[p]];
  }

  lemma DetachLocal(s: Port, p: Ptr)
    requires Frame(s) && p in s.socks && !s.socks[p].deletePending && !Track(s.log, p).Gone?
    requires forall x :: x in s.tree && s.tree[x] == p ==> x == s.socks[p].socket
    requires s.socks[p].socket in s.tree ==> s.tree[s.socks[p].socket] == p
    ensures var s1 := Detach(s, p);
      Elsewhere(s, s1, p) && Frame(s1) && Track(s1.log, p) == Gone && (forall x :: x in s1.tree ==> s1.tree[x] != p)
  {
    TrackSnoc(s.log, Removed(p));
  }

  /** What stays as it was, and what becomes of the record, when it leaves the tree and the queues. */
  ghost predicate Left(s: Port, s1: Port, p: Ptr) {
    && p in s.socks && p in s1.socks && s1.socks == s.socks[p := s1.socks[p]]
    && s1.socks[p].deletePending && s1.socks[p].group == s.socks[p].group
    && (s1.socks[p].status == Idle <==> s.socks[p].status == Idle)
    && (s1.socks[p].status != Pending ==> s1.socks[p].pendingEvents == {})
    && s1.requests == s.requests && s1.groups == s.groups && s1.peak == s.peak
    && s1.log == s.log + [Removed(p)] && s1.updateQueue == Without(s.updateQueue, p)
  }

  lemma UnregisterLeft(s: Port, p: Ptr, kernel: Kernel)
    requires Frame(s) && p in s.socks && !s.socks[p].deletePending
    requires s.socks[p].status != Pending ==> s.socks[p].pendingEvents == {}
    ensures Left(s, Unregister(s, p, kernel), p)
  {
    CancelIfPendingLocal(s, p, kernel);
  }

  lemma UnregisterLocal(s: Port, p: Ptr, kernel: Kernel)
    requires Base(s) && p in s.socks && !s.socks[p].deletePending
    ensures var s1 := Unregister(s, p, kernel);
      Elsewhere(s, s1, p) && Frame(s1) && p in s1.socks && !Enqueued(s1, p) && Track(s1.log, p) == Gone &&
      (forall x :: x in s1.tree ==> s1.tree[x] != p)
  {
    assert RecordOk(s, p);
    var s1 := CancelIfPending(s, p, kernel);
    CancelIfPendingLocal(s, p, kernel);
    var s2 := Dequeue(s1, p);
    DequeueLocal(s1, p);
    Further(s, s1, s2, p);
    DetachLocal(s2, p);
    Further(s, s2, Detach(s2, p), p);
  }

  // ---------- poll groups ----------

  function Holders(socks: map<Ptr, Sock>, g: PollGroups.Group): set<Ptr> {
    set p | p in socks && socks[p].group == g
  }

  /** The size of each group is the number of records that hold it, and the number of groups is at most
      the peak number of slots over the size of a group, rounded up. */
  ghost predicate GroupsOk(s: Port) {
    && PollGroups.Inv(s.groups)
    && (forall p :: p in s.socks ==> s.socks[p].group in s.groups.size)
    && (forall g :: g in s.groups.size ==> s.groups.size[g] == |Holders(s.socks, g)|)
    && PollGroups.Slots(s.groups.queue, s.groups.size) == |s.socks| <= s.peak
    && PollGroups.MAX_GROUP_SIZE * |s.groups.queue| < s.peak + PollGroups.MAX_GROUP_SIZE
  }

  lemma GroupsStay(s: Port, s1: Port)
    requires GroupsOk(s) && s1.groups == s.groups && s1.peak == s.peak && s1.socks.Keys == s.socks.Keys
    requires forall p :: p in s.socks ==> s1.socks[p].group == s.socks[p].group
    ensures GroupsOk(s1)
  {
    forall g | g in s.groups.size
      ensures Holders(s1.socks, g) == Holders(s.socks, g)
    {
    }
    assert |s1.socks| == |s1.socks.Keys| == |s.socks.Keys| == |s.socks|;
  }

  lemma OneMore(socks: map<Ptr, Sock>, p: Ptr, k: Sock)
    requires p !in socks
    ensures |socks[p := k]| == |socks| + 1
  {
    assert socks[p := k].Keys == socks.Keys + {p};
  }

  /** A record given up or taken on changes the number of holders of its group only. */
  lemma HoldersStep(socks: map<Ptr, Sock>, p: Ptr, k: Sock, g: PollGroups.Group)
    requires p !in socks
    ensures |Holders(socks[p := k], g)| == |Holders(socks, g)| + (if k.group == g then 1 else 0)
    ensures |socks[p := k]| == |socks| + 1
  {
    var h, h1 := Holders(socks, g), Holders(socks[p := k], g);
    if k.group == g {
      assert h1 == h + {p};
    } else {
      assert h1 == h;
    }
    OneMore(socks, p, k);
  }

  lemma FreeHolders(socks: map<Ptr, Sock>, p: Ptr)
    requires p in socks
    ensures |socks - {p}| == |socks| - 1
    ensures forall g ::
              |Holders(socks - {p}, g)| == |Holders(socks, g)| - (if socks[p].group == g then 1 else 0)
  {
    var rest := socks - {p};
    assert socks == rest[p := socks[p]];
    forall g
      ensures |Holders(rest, g)| == |Holders(socks, g)| - (if socks[p].group == g then 1 else 0)
    {
      HoldersStep(rest, p, socks[p], g);
    }
    HoldersStep(rest, p, socks[p], 0);
  }

  lemma FreeGroups(s: Port, p: Ptr)
    requires GroupsOk(s) && p in s.socks && s.ok
    ensures var s1 := Free(ReleaseGroup(s, s.socks[p].group), p);
      s1.ok && GroupsOk(s1) && s1.groups == PollGroups.Release(s.groups, s.socks[p].group)
  {
    var g := s.socks[p].group;
    FreeHolders(s.socks, p);
    assert p in Holders(s.socks, g);
    PollGroups.ReleaseInv(s.groups, g);
  }
}
