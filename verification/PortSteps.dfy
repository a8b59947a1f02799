/** What every step of a port keeps, and so every run. */
module PortSteps {
  import opened EventMasks
  import opened Options
  import opened Sequences
  import opened PortModel
  import opened PortInv
  import PollGroups

  ghost predicate Sound(s: Port) {
    Base(s) && RequestsOk(s) && GroupsOk(s)
  }

  // ---------- sock__delete ----------

  lemma FreeStep(s: Port, p: Ptr)
    requires Frame(s) && p in s.socks && Track(s.log, p) == Gone
    ensures Elsewhere(s, Free(s, p), p) && Frame(Free(s, p)) && Track(Free(s, p).log, p) == Absent
  {
    TrackSnoc(s.log, Freed(p));
  }

  lemma ReleaseStep(s: Port, p: Ptr, g: PollGroups.Group)
    requires Frame(s) && g in s.groups.size && 0 < s.groups.size[g] <= PollGroups.MAX_GROUP_SIZE
    ensures Elsewhere(s, ReleaseGroup(s, g), p) && Frame(ReleaseGroup(s, g))
  {
  }

  lemma FreeLocal(s: Port, p: Ptr)
    requires Frame(s) && p in s.socks && Track(s.log, p) == Gone
    requires s.socks[p].group in s.groups.size && 0 < s.groups.size[s.socks[p].group] <= PollGroups.MAX_GROUP_SIZE
    ensures var s1 := Released(s, p);
      Elsewhere(s, s1, p) && Frame(s1) && NoTrace(s1, p) && s1.socks == s.socks - {p} && s1.tree == s.tree
  {
    var d := Dequeue(s, p);
    DequeueLocal(s, p);
    var r := ReleaseGroup(d, s.socks[p].group);
    ReleaseStep(d, p, s.socks[p].group);
    Further(s, d, r, p);
    FreeStep(r, p);
    Further(s, r, Free(r, p), p);
  }

  lemma HolderCounts(s: Port, p: Ptr)
    requires GroupsOk(s) && p in s.socks
    ensures s.socks[p].group in s.groups.size && 0 < s.groups.size[s.socks[p].group] <= PollGroups.MAX_GROUP_SIZE
  {
    assert p in Holders(s.socks, s.socks[p].group);
  }

  lemma ReleasedGroups(s: Port, p: Ptr)
    requires GroupsOk(s) && p in s.socks && s.ok
    ensures GroupsOk(Released(s, p))
  {
    GroupsStay(s, Dequeue(s, p));
    FreeGroups(Dequeue(s, p), p);
  }

  /** No tree entry but the record's own leads to it. */
  ghost predicate OwnEntry(s: Port, p: Ptr) {
    forall x :: x in s.tree && s.tree[x] == p ==> p in s.socks && s.socks[p].socket == x && !s.socks[p].deletePending
  }

  lemma LocalSound(s: Port, s1: Port, p: Ptr)
    requires Sound(s) && Elsewhere(s, s1, p) && Frame(s1) && GroupsOk(s1)
    requires RecordOk(s1, p) && RequestOk(s1, p) && OwnEntry(s1, p)
    ensures Sound(s1) && (OthersSettled(s, p) ==> OthersSettled(s1, p))
  {
    Local(s, s1, p);
    LocalRequests(s, s1, p);
    if OthersSettled(s, p) { OthersStay(s, s1, p); }
  }

  /** The same when the record stays with its group. */
  lemma StaySound(s: Port, s1: Port, p: Ptr)
    requires Sound(s) && Elsewhere(s, s1, p) && Frame(s1)
    requires RecordOk(s1, p) && RequestOk(s1, p) && OwnEntry(s1, p)
    requires s1.groups == s.groups && s1.peak == s.peak
    requires p in s.socks && p in s1.socks && s1.socks[p].group == s.socks[p].group
    ensures Sound(s1) && (OthersSettled(s, p) ==> OthersSettled(s1, p))
  {
    forall q
      ensures q in s1.socks <==> q in s.socks
      ensures q in s.socks ==> s1.socks[q].group == s.socks[q].group
    {
      if q != p { assert Same(s, s1, q); }
    }
    assert s1.socks.Keys == s.socks.Keys;
    GroupsStay(s, s1);
    LocalSound(s, s1, p);
  }

  /** What an operation on a deleted record leads to. */
  ghost predicate Settling(s: Port, s1: Port, p: Ptr, kept: bool) {
    Sound(s1) && AllSettled(s1) && Elsewhere(s, s1, p) && s1.updateQueue == s.updateQueue &&
    s1.requests == s.requests && Deliveries(s1.log) == Deliveries(s.log) && (p in s1.socks <==> kept)
  }

  lemma QueuedDeleted(s: Port, p: Ptr)
    requires p in s.socks && s.socks[p].deletePending && s.socks[p].status != Idle && RecordOk(s, p)
    ensures var s1 := AddDeleted(s, p);
      RecordOk(s1, p) && Settled(s1, p) && (RequestOk(s1, p) <==> RequestOk(s, p)) &&
        s1 == s.(deletedQueue := s1.deletedQueue)
  {
  }

  lemma AddDeletedSound(s: Port, p: Ptr)
    requires Sound(s) && p in s.socks && s.socks[p].deletePending && s.socks[p].status != Idle && OthersSettled(s, p)
    ensures Settling(s, AddDeleted(s, p), p, true)
  {
    var s1 := AddDeleted(s, p);
    assert RecordOk(s, p) && RequestOk(s, p);
    AddDeletedLocal(s, p);
    QueuedDeleted(s, p);
    StaySound(s, s1, p);
  }

  lemma ReleasedSound(s: Port, p: Ptr)
    requires Sound(s) && p in s.socks && s.socks[p].deletePending && s.socks[p].status == Idle && OthersSettled(s, p)
    ensures Settling(s, Released(s, p), p, false)
  {
    DeliveriesSnoc(s.log, Freed(p));
    assert RecordOk(s, p) && RequestOk(s, p);
    HolderCounts(s, p);
    FreeLocal(s, p);
    ReleasedGroups(s, p);
    LocalSound(s, Released(s, p), p);
  }

  /** A deleted record whose request has come back is freed; otherwise it waits in the deleted queue. */
  lemma FreeOrDeferSound(s: Port, p: Ptr)
    requires Sound(s) && p in s.socks && s.socks[p].deletePending && OthersSettled(s, p)
    ensures Settling(s, FreeOrDefer(s, p, false), p, s.socks[p].status != Idle)
  {
    if s.socks[p].status == Idle {
      ReleasedSound(s, p);
    } else {
      AddDeletedSound(s, p);
    }
  }

  lemma UnregisterSound(s: Port, p: Ptr, kernel: Kernel)
    requires Sound(s) && p in s.socks && !s.socks[p].deletePending
    ensures var s1 := Unregister(s, p, kernel);
      Sound(s1) && Elsewhere(s, s1, p) && Left(s, s1, p) && (OthersSettled(s, p) ==> OthersSettled(s1, p))
  {
    var s1 := Unregister(s, p, kernel);
    assert RecordOk(s, p) && RequestOk(s, p);
    UnregisterLocal(s, p, kernel);
    UnregisterLeft(s, p, kernel);
    StaySound(s, s1, p);
  }

  lemma DeleteSound(s: Port, p: Ptr, kernel: Kernel)
    requires Sound(s) && p in s.socks && !s.socks[p].deletePending && OthersSettled(s, p)
    ensures var s1 := Delete(s, p, false, kernel);
      Sound(s1) && AllSettled(s1) && Elsewhere(s, s1, p) && s1.updateQueue == Without(s.updateQueue, p) &&
      (p in s1.socks <==> s.socks[p].status != Idle) && s1.requests == s.requests &&
      Deliveries(s1.log) == Deliveries(s.log)
  {
    var u := Unregister(s, p, kernel);
    UnregisterSound(s, p, kernel);
    DeliveriesSnoc(s.log, Removed(p));
    FreeOrDeferSound(u, p);
    Further(s, u, FreeOrDefer(u, p, false), p);
  }

  /** The state after a forced release. */
  function ForceReleased(s: Port, p: Ptr): Port
    requires p in s.socks
  {
    Released(Abandon(s, p), p)
  }

  lemma AbandonLocal(s: Port, p: Ptr)
    requires Frame(s) && p in s.socks && Track(s.log, p) == Gone
    requires s.socks[p].group in s.groups.size && 0 < s.groups.size[s.socks[p].group] <= PollGroups.MAX_GROUP_SIZE
    ensures var s1 := ForceReleased(s, p);
      Elsewhere(s, s1, p) && Frame(s1) && NoTrace(s1, p) && s1.socks == s.socks - {p} && s1.tree == s.tree &&
        p !in s1.requests
  {
    var a := Abandon(s, p);
    FreeLocal(a, p);
    assert Elsewhere(s, a, p);
    Further(s, a, Released(a, p), p);
  }

  lemma AbandonGroups(s: Port, p: Ptr)
    requires GroupsOk(s) && p in s.socks && s.ok
    ensures GroupsOk(ForceReleased(s, p))
  {
    var a := Abandon(s, p);
    GroupsStay(s, a);
    ReleasedGroups(a, p);
  }

  /** A forced deletion frees the record whatever its status. */
  lemma AbandonSound(s: Port, p: Ptr)
    requires Sound(s) && p in s.socks && s.socks[p].deletePending && OthersSettled(s, p)
    ensures var s1 := ForceReleased(s, p);
      Sound(s1) && AllSettled(s1) && Elsewhere(s, s1, p) && s1.socks == s.socks - {p} && s1.tree == s.tree
  {
    assert RecordOk(s, p);
    HolderCounts(s, p);
    AbandonLocal(s, p);
    AbandonGroups(s, p);
    LocalSound(s, ForceReleased(s, p), p);
  }

  function FreedIn(log: seq<Entry>): multiset<Ptr> {
    if log == [] then multiset{}
    else FreedIn(log[..|log| - 1]) + (if log[|log| - 1].Freed? then multiset{log[|log| - 1].ptr} else multiset{})
  }

  lemma FreedSnoc(log: seq<Entry>, x: Entry)
    ensures FreedIn(log + [x]) == FreedIn(log) + (if x.Freed? then multiset{x.ptr} else multiset{})
  {
    assert (log + [x])[..|log|] == log;
  }

  /** One step of port_delete. */
  ghost predicate Forced(s: Port, s1: Port, p: Ptr) {
    Sound(s1) && AllSettled(s1) && Elsewhere(s, s1, p) && s1.socks == s.socks - {p} &&
    FreedIn(s1.log) == FreedIn(s.log) + multiset{p}
  }

  lemma ForcedAfter(s: Port, u: Port, s1: Port, p: Ptr)
    requires Elsewhere(s, u, p) && u.socks.Keys == s.socks.Keys && FreedIn(u.log) == FreedIn(s.log)
    requires (forall q :: q in s.socks && q != p ==> u.socks[q] == s.socks[q]) && Forced(u, s1, p)
    ensures Forced(s, s1, p)
  {
    Further(s, u, s1, p);
    assert s1.socks == s.socks - {p};
  }

  lemma ForceReleaseForced(s: Port, p: Ptr)
    requires Sound(s) && p in s.socks && s.socks[p].deletePending && OthersSettled(s, p)
    ensures Forced(s, ForceReleased(s, p), p)
  {
    AbandonSound(s, p);
    FreedSnoc(s.log, Freed(p));
  }

  lemma UnregisterQueues(s: Port, p: Ptr, kernel: Kernel)
    requires RecordOk(s, p) && p in s.socks && !s.socks[p].deletePending
    ensures var u := Unregister(s, p, kernel);
      u.tree == s.tree - {s.socks[p].socket} && u.deletedQueue == s.deletedQueue && p !in s.deletedQueue
  {
  }

  lemma ForceAfter(s: Port, u: Port, p: Ptr)
    requires Sound(u) && OthersSettled(u, p) && Elsewhere(s, u, p) && Left(s, u, p)
    requires u.deletedQueue == s.deletedQueue && p !in s.deletedQueue
    ensures var s1 := ForceReleased(u, p); Forced(s, s1, p) && s1.tree == u.tree && s1.deletedQueue == s.deletedQueue
  {
    FreedSnoc(s.log, Removed(p));
    ForceReleaseForced(u, p);
    ForceReleaseQueues(u, p);
    ForcedAfter(s, u, ForceReleased(u, p), p);
  }

  lemma ForceReleaseQueues(s: Port, p: Ptr)
    requires p in s.socks
    ensures var s1 := ForceReleased(s, p); s1.tree == s.tree && s1.deletedQueue == Without(s.deletedQueue, p)
  {
  }

  lemma ForceDeleteIs(s: Port, p: Ptr, kernel: Kernel)
    requires p in s.socks && !s.socks[p].deletePending && p in Unregister(s, p, kernel).socks
    ensures Delete(s, p, true, kernel) == ForceReleased(Unregister(s, p, kernel), p)
  {
  }

  /** sock_force_delete of a record in the tree, which no longer is in the tree then. */
  lemma ForceDeleteInTree(s: Port, p: Ptr, kernel: Kernel)
    requires Sound(s) && AllSettled(s) && p in s.socks && !s.socks[p].deletePending
    ensures var s1 := Delete(s, p, true, kernel);
      Forced(s, s1, p) && s1.tree == s.tree - {s.socks[p].socket} && s1.deletedQueue == s.deletedQueue
  {
    UnregisterSound(s, p, kernel);
    UnregisterQueues(s, p, kernel);
    ForceAfter(s, Unregister(s, p, kernel), p);
    ForceDeleteIs(s, p, kernel);
  }

  /** sock_force_delete of a record in the deleted queue, which leaves the queue. */
  lemma ForceDeleteQueued(s: Port, p: Ptr, kernel: Kernel)
    requires Sound(s) && AllSettled(s) && p in s.deletedQueue
    ensures var s1 := Delete(s, p, true, kernel);
      Forced(s, s1, p) && s1.tree == s.tree && s1.deletedQueue == Without(s.deletedQueue, p)
  {
    assert RecordOk(s, p);
    AbandonSound(s, p);
    ForceReleaseForced(s, p);
  }

  // ---------- sock_set_event, sock_update ----------

  /** A change to the record itself that leaves it where it is. */
  lemma PutSound(s: Port, p: Ptr, k: Sock)
    requires Sound(s) && p in s.socks
    requires k.socket == s.socks[p].socket && k.deletePending == s.socks[p].deletePending && k.group == s.socks[p].group
    requires RequestOk(Put(s, p, k), p) && Agrees(Track(s.log, p), k)
    ensures Sound(Put(s, p, k)) && Elsewhere(s, Put(s, p, k), p)
    ensures OthersSettled(s, p) ==> OthersSettled(Put(s, p, k), p)
  {
    assert RecordOk(s, p);
    PutLocal(s, p, k);
    StaySound(s, Put(s, p, k), p);
  }

  lemma QueuedForUpdate(s: Port, p: Ptr)
    requires p in s.socks && !s.socks[p].deletePending && RecordOk(s, p)
    ensures var s1 := RequestUpdate(s, p); RecordOk(s1, p) && Settled(s1, p) && RequestOk(s1, p) == RequestOk(s, p)
    ensures RequestUpdate(s, p).log == s.log && RequestUpdate(s, p).tree == s.tree &&
      RequestUpdate(s, p).socks == s.socks
  {
  }

  lemma RequestUpdateSound(s: Port, p: Ptr)
    requires Sound(s) && p in s.socks && !s.socks[p].deletePending && OthersSettled(s, p)
    ensures var s1 := RequestUpdate(s, p);
      Sound(s1) && AllSettled(s1) && Elsewhere(s, s1, p) && s1.socks == s.socks && s1.log == s.log
  {
    var s1 := RequestUpdate(s, p);
    assert RecordOk(s, p) && RequestOk(s, p);
    RequestUpdateLocal(s, p);
    QueuedForUpdate(s, p);
    StaySound(s, s1, p);
  }

  function WithEvent(s: Port, p: Ptr, e: Event): Port
    requires p in s.socks
  {
    Put(s, p, s.socks[p].(userEvents := Wanted(e), data := e.data)).(log := s.log + [Set(p, e)])
  }

  lemma WithEventSound(s: Port, p: Ptr, e: Event)
    requires Sound(s) && p in s.socks && !s.socks[p].deletePending
    ensures Sound(WithEvent(s, p, e)) && Elsewhere(s, WithEvent(s, p, e), p)
    ensures OthersSettled(s, p) ==> OthersSettled(WithEvent(s, p, e), p)
  {
    assert RecordOk(s, p) && RequestOk(s, p);
    var k := s.socks[p].(userEvents := Wanted(e), data := e.data);
    PutLocal(s, p, k);
    LogLocal(Put(s, p, k), Set(p, e));
    Further(s, Put(s, p, k), WithEvent(s, p, e), p);
    StaySound(s, WithEvent(s, p, e), p);
  }

  lemma WantedNotCovered(e: Event)
    ensures !Covered(Wanted(e), {})
  {
    assert Err in Wanted(e) * KNOWN;
  }

  lemma SetEventSound(s: Port, p: Ptr, e: Event)
    requires Sound(s) && p in s.socks && !s.socks[p].deletePending && OthersSettled(s, p)
    ensures var s1 := SetEvent(s, p, e); Sound(s1) && AllSettled(s1) && Elsewhere(s, s1, p) && s1.requests == s.requests
  {
    var s1 := WithEvent(s, p, e);
    WithEventSound(s, p, e);
    WantedNotCovered(e);
    assert RequestOk(s, p);
    if !Covered(Wanted(e), s.socks[p].pendingEvents) {
      RequestUpdateSound(s1, p);
      Further(s, s1, RequestUpdate(s1, p), p);
    }
  }

  lemma DequeueSound(s: Port, p: Ptr)
    requires Sound(s) && p in s.socks && !s.socks[p].deletePending && OthersSettled(s, p)
    requires (s.socks[p].status == Pending && Covered(s.socks[p].userEvents, s.socks[p].pendingEvents)) ||
      s.socks[p].status == Cancelled
    ensures Sound(Dequeue(s, p)) && AllSettled(Dequeue(s, p)) && Elsewhere(s, Dequeue(s, p), p)
  {
    var s1 := Dequeue(s, p);
    assert RecordOk(s, p) && RequestOk(s, p);
    DequeueLocal(s, p);
    StaySound(s, s1, p);
    assert Settled(s1, p);
  }

  lemma CancelledSound(s: Port, p: Ptr, kernel: Kernel)
    requires Sound(s) && AllSettled(s) && p in s.socks && !s.socks[p].deletePending && s.socks[p].status == Pending
    ensures var (s1, done) := CancelPoll(s, p, kernel);
      (!done ==> s1 == s) && (done ==> var d := Dequeue(s1, p); Sound(d) && AllSettled(d) && Elsewhere(s, d, p))
  {
    var (s1, done) := CancelPoll(s, p, kernel);
    assert RecordOk(s, p) && RequestOk(s, p);
    CancelPollLocal(s, p, kernel);
    if done {
      PutSound(s, p, s.socks[p].(status := Cancelled, pendingEvents := {}));
      DequeueSound(s1, p);
      Further(s, s1, Dequeue(s1, p), p);
    }
  }

  lemma CoversItself(user: Mask)
    ensures Covered(user, user)
  {
  }

  lemma SubmitLocal(s: Port, p: Ptr)
    requires Frame(s) && p in s.socks && p !in s.requests
    ensures Elsewhere(s, Submit(s, p), p) && Frame(Submit(s, p))
  {
  }

  lemma SubmitSound(s: Port, p: Ptr)
    requires Sound(s) && p in s.socks && !s.socks[p].deletePending && s.socks[p].status == Idle
    ensures Sound(Submit(s, p)) && Elsewhere(s, Submit(s, p), p)
    ensures OthersSettled(s, p) ==> OthersSettled(Submit(s, p), p)
  {
    assert RecordOk(s, p) && RequestOk(s, p);
    SubmitLocal(s, p);
    StaySound(s, Submit(s, p), p);
  }

  lemma SubmittedSound(s: Port, p: Ptr)
    requires Sound(s) && OthersSettled(s, p) && p in s.socks && !s.socks[p].deletePending && s.socks[p].status == Idle
    ensures var d := Dequeue(Submit(s, p), p); Sound(d) && AllSettled(d) && Elsewhere(s, d, p)
  {
    SubmitSound(s, p);
    CoversItself(s.socks[p].userEvents);
    DequeueSound(Submit(s, p), p);
    Further(s, Submit(s, p), Dequeue(Submit(s, p), p), p);
  }

  lemma AskingSound(s: Port, p: Ptr)
    requires Sound(s) && AllSettled(s) && p in s.updateQueue && p in s.socks && !s.socks[p].deletePending
    requires s.socks[p].status == Idle
    ensures var s1 := Put(s, p, Asking(s.socks[p])); Sound(s1) && AllSettled(s1) && Elsewhere(s, s1, p)
  {
    assert RecordOk(s, p) && RequestOk(s, p);
    PutSound(s, p, Asking(s.socks[p]));
    assert Settled(Put(s, p, Asking(s.socks[p])), p);
  }

  /** What sock_update gives on record `p` when it succeeds, or fails. */
  ghost predicate Updated(s: Port, s1: Port, p: Ptr, done: bool) {
    Sound(s1) && AllSettled(s1) && Elsewhere(s, s1, p) &&
    (s1.requests == s.requests || (p !in s.requests && s1.requests == s.requests[p := Submitted])) &&
    s1.updateQueue == if done then Without(s.updateQueue, p) else s.updateQueue
  }

  lemma GoneSound(s: Port, p: Ptr, kernel: Kernel)
    requires Sound(s) && AllSettled(s) && p in s.updateQueue && p in s.socks && !s.socks[p].deletePending
    requires s.socks[p].status == Idle
    ensures Updated(s, Delete(Put(s, p, Asking(s.socks[p])), p, false, kernel), p, true)
  {
    var s1 := Put(s, p, Asking(s.socks[p]));
    AskingSound(s, p);
    DeleteSound(s1, p, kernel);
    Further(s, s1, Delete(s1, p, false, kernel), p);
  }

  lemma UpdateIdleSound(s: Port, p: Ptr, kernel: Kernel)
    requires Sound(s) && AllSettled(s) && p in s.updateQueue && p in s.socks && !s.socks[p].deletePending
    requires s.socks[p].status == Idle
    ensures Updated(s, Update(s, p, kernel).0, p, Update(s, p, kernel).1)
  {
    match kernel.poll(p)
    case Accepted => SubmittedSound(s, p);
    case SocketGone => GoneSound(s, p, kernel);
    case Refused => AskingSound(s, p);
  }

  lemma UpdatePendingSound(s: Port, p: Ptr, kernel: Kernel)
    requires Sound(s) && AllSettled(s) && p in s.updateQueue && p in s.socks && !s.socks[p].deletePending
    requires s.socks[p].status == Pending
    ensures Updated(s, Update(s, p, kernel).0, p, Update(s, p, kernel).1)
  {
    var k := s.socks[p];
    if Covered(k.userEvents, k.pendingEvents) { DequeueSound(s, p); } else { CancelledSound(s, p, kernel); }
  }

  /** sock_update takes the record off the queue unless it fails, and never loses interest. */
  lemma UpdateSound(s: Port, p: Ptr, kernel: Kernel)
    requires Sound(s) && AllSettled(s) && p in s.updateQueue
    ensures Updated(s, Update(s, p, kernel).0, p, Update(s, p, kernel).1)
  {
    assert RecordOk(s, p);
    match s.socks[p].status
    case Pending => UpdatePendingSound(s, p, kernel);
    case Cancelled => DequeueSound(s, p);
    case Idle => UpdateIdleSound(s, p, kernel);
  }

  // ---------- sock_feed_event ----------

  lemma ReturnedLocal(s: Port, p: Ptr)
    requires Frame(s) && p in s.socks
    ensures Elsewhere(s, Returned(s, p), p) && Frame(Returned(s, p))
  {
  }

  lemma ReturnedSound(s: Port, p: Ptr)
    requires Sound(s) && p in s.socks
    ensures Sound(Returned(s, p)) && Elsewhere(s, Returned(s, p), p)
    ensures OthersSettled(s, p) ==> OthersSettled(Returned(s, p), p)
  {
    assert RecordOk(s, p) && RequestOk(s, p);
    ReturnedLocal(s, p);
    StaySound(s, Returned(s, p), p);
  }

  /** Only events that were asked for are handed out, to a record that still watches. */
  lemma FiredAllowed(s: Port, p: Ptr, a: Mask)
    requires p in s.socks && !s.socks[p].deletePending && RecordOk(s, p) && a * s.socks[p].userEvents != {}
    ensures var e := Event(a * s.socks[p].userEvents, s.socks[p].data);
      Allowed(Track(s.log, p), Delivered(p, e)) &&
      Agrees(Next(Track(s.log, p), Delivered(p, e), p), Fired(s, p, e.events).socks[p])
  {
    var w := Track(s.log, p);
    assert a * {} == {};
    assert w.Watching?;
  }

  lemma FiredSound(s: Port, p: Ptr, a: Mask)
    requires Sound(s) && AllSettled(s) && p in s.updateQueue && p in s.socks && !s.socks[p].deletePending
    requires a * s.socks[p].userEvents != {}
    ensures var s1 := Fired(s, p, a * s.socks[p].userEvents); Sound(s1) && AllSettled(s1) && Elsewhere(s, s1, p)
  {
    var events := a * s.socks[p].userEvents;
    var s1 := Fired(s, p, events);
    var x := Delivered(p, Event(events, s.socks[p].data));
    assert RecordOk(s, p) && RequestOk(s, p);
    FiredAllowed(s, p, a);
    var s0 := s.(log := s.log + [x]);
    LogLocal(s, x);
    PutLocal(s0, p, s1.socks[p]);
    Further(s, s0, s1, p);
    StaySound(s, s1, p);
    assert Settled(s1, p);
  }

  /** What taking in the packet of `p` leads to. */
  ghost predicate Fed(s: Port, s1: Port, p: Ptr, e: Option<Event>) {
    Sound(s1) && AllSettled(s1) && Elsewhere(s, s1, p) && s1.requests == s.requests - {p} &&
    Deliveries(s1.log) == Deliveries(s.log) + AsSeq(e)
  }

  lemma RequeuedSound(s: Port, p: Ptr)
    requires Sound(s) && p in s.socks && !s.socks[p].deletePending && OthersSettled(s, p)
    ensures var s1 := RequestUpdate(s, p);
      Sound(s1) && AllSettled(s1) && Elsewhere(s, s1, p) && s1.socks == s.socks && p in s1.updateQueue &&
        s1.requests == s.requests &&
      s1.log == s.log
  {
    RequestUpdateSound(s, p);
    RequestUpdateLocal(s, p);
    assert RecordOk(RequestUpdate(s, p), p);
  }

  lemma ReportNothing(s: Port, s1: Port, p: Ptr, a: Mask)
    requires Fed(s, s1, p, None)
    requires p in s1.updateQueue && p in s1.socks && !s1.socks[p].deletePending
    requires a * s1.socks[p].userEvents == {}
    ensures Fed(s, Report(s1, p, a).0, p, Report(s1, p, a).1)
  {
  }

  lemma ReportEvent(s: Port, s1: Port, p: Ptr, a: Mask)
    requires Fed(s, s1, p, None)
    requires p in s1.updateQueue && p in s1.socks && !s1.socks[p].deletePending
    requires a * s1.socks[p].userEvents != {}
    ensures Fed(s, Report(s1, p, a).0, p, Report(s1, p, a).1)
  {
    FiredSound(s1, p, a);
    DeliveriesSnoc(s1.log, Delivered(p, Event(a * s1.socks[p].userEvents, s1.socks[p].data)));
    Further(s, s1, Fired(s1, p, a * s1.socks[p].userEvents), p);
  }

  /** The state between taking in the packet of `p` and settling its record. */
  ghost predicate Between(s: Port, s1: Port, p: Ptr) {
    Sound(s1) && OthersSettled(s1, p) && Elsewhere(s, s1, p) && s1.requests == s.requests - {p} && p in s1.socks &&
    Deliveries(s1.log) == Deliveries(s.log)
  }

  lemma FedAfter(s: Port, s1: Port, s2: Port, p: Ptr)
    requires Between(s, s1, p)
    requires Sound(s2) && AllSettled(s2) && Elsewhere(s1, s2, p) && s2.requests == s1.requests &&
      Deliveries(s2.log) == Deliveries(s1.log)
    ensures Fed(s, s2, p, None)
  {
    Further(s, s1, s2, p);
  }

  lemma Requeue(s: Port, s1: Port, p: Ptr)
    requires Between(s, s1, p) && !s1.socks[p].deletePending
    ensures var s2 := RequestUpdate(s1, p);
      Fed(s, s2, p, None) && p in s2.updateQueue && s2.socks == s1.socks
  {
    RequeuedSound(s1, p);
    Further(s, s1, RequestUpdate(s1, p), p);
  }

  lemma ReportSound(s: Port, s1: Port, p: Ptr, a: Mask)
    requires Fed(s, s1, p, None) && p in s1.updateQueue && p in s1.socks && !s1.socks[p].deletePending
    ensures Fed(s, Report(s1, p, a).0, p, Report(s1, p, a).1)
  {
    if a * s1.socks[p].userEvents == {} {
      ReportNothing(s, s1, p, a);
    } else {
      ReportEvent(s, s1, p, a);
    }
  }

  lemma FeedWatching(s: Port, s1: Port, p: Ptr, a: Mask)
    requires Between(s, s1, p) && !s1.socks[p].deletePending
    ensures Fed(s, Report(RequestUpdate(s1, p), p, a).0, p, Report(RequestUpdate(s1, p), p, a).1)
  {
    Requeue(s, s1, p);
    ReportSound(s, RequestUpdate(s1, p), p, a);
  }

  lemma FeedDeleting(s: Port, s1: Port, p: Ptr)
    requires Between(s, s1, p) && s1.socks[p].deletePending
    ensures Fed(s, FreeOrDefer(s1, p, false), p, None)
  {
    FreeOrDeferSound(s1, p);
    FedAfter(s, s1, FreeOrDefer(s1, p, false), p);
  }

  lemma FeedClosing(s: Port, s1: Port, p: Ptr, kernel: Kernel)
    requires Between(s, s1, p) && !s1.socks[p].deletePending
    ensures Fed(s, Delete(s1, p, false, kernel), p, None)
  {
    DeleteSound(s1, p, kernel);
    FedAfter(s, s1, Delete(s1, p, false, kernel), p);
  }

  /** Feeding a packet settles its record, whatever the kernel answered. */
  lemma FeedSound(s: Port, p: Ptr)
    requires Sound(s) && AllSettled(s) && p in s.requests && s.requests[p].Taken?
    ensures Fed(s, Feed(s, p).0, p, Feed(s, p).1)
  {
    assert RequestOk(s, p);
    ReturnedSound(s, p);
    if s.socks[p].deletePending {
      FeedDeleting(s, Returned(s, p), p);
    } else if ReportsClose(s.requests[p].result) {
      FeedClosing(s, Returned(s, p), p, Kernel(_ => Refused, _ => true));
    } else {
      FeedWatching(s, Returned(s, p), p, EventsOf(s.requests[p].result));
    }
  }
}
