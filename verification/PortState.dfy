/** The port as the program keeps it: one object whose fields its functions rewrite in place. Each
    method is proved against the operation of the same name in PortModel. */
module PortState {
  import opened EventMasks
  import opened Options
  import opened Sequences
  import opened PortModel
  import opened PortInv
  import opened PortSteps
  import opened PortRuns
  import PollGroups

  lemma Overwritten<K, V>(m: map<K, V>, k: K, v: V, w: V)
    ensures m[k := v][k := w] == m[k := w]
  {
  }

  lemma FedFirst(s: Port, s1: Port, b: seq<Ptr>, e: Option<Event>)
    requires b != [] && (s1, e) == Feed(s, b[0])
    ensures FeedAll(s, b) == (FeedAll(s1, b[1..]).0, AsSeq(e) + FeedAll(s1, b[1..]).1)
  {
  }

  lemma ReportsNothing(s: Port, p: Ptr, a: Mask)
    requires p in s.socks && a * s.socks[p].userEvents == {}
    ensures Report(s, p, a) == (s, None)
  {
  }

  lemma ReportsEvent(s: Port, p: Ptr, a: Mask)
    requires p in s.socks && a * s.socks[p].userEvents != {}
    ensures var events := a * s.socks[p].userEvents;
      Report(s, p, a) == (Fired(s, p, events), Some(Event(events, s.socks[p].data)))
  {
  }

  // ---------- port_delete ----------

  lemma OneFreed(keys: set<Ptr>, left: set<Ptr>, rest: set<Ptr>, p: Ptr)
    requires left <= keys && p in left && rest == left - {p}
    ensures multiset(keys - rest) == multiset(keys - left) + multiset{p} && |rest| < |left|
  {
    assert keys - rest == (keys - left) + {p};
  }

  /** Of the records `keys`, exactly those that are gone have been freed, each once. */
  ghost predicate Emptied(s: Port, keys: set<Ptr>, freed: multiset<Ptr>) {
    Sound(s) && AllSettled(s) && s.socks.Keys <= keys && FreedIn(s.log) == freed + multiset(keys - s.socks.Keys)
  }

  lemma EmptiedStep(s: Port, s1: Port, keys: set<Ptr>, freed: multiset<Ptr>, p: Ptr)
    requires Emptied(s, keys, freed) && p in s.socks && Forced(s, s1, p)
    ensures Emptied(s1, keys, freed) && |s1.socks.Keys| < |s.socks.Keys|
  {
    assert s1.socks.Keys == s.socks.Keys - {p};
    OneFreed(keys, s.socks.Keys, s1.socks.Keys, p);
  }

  lemma TwoParts(keys: set<Ptr>, part: set<Ptr>)
    requires part <= keys
    ensures multiset(keys) == multiset(keys - part) + multiset(part)
  {
    assert (keys - part) + part == keys;
  }

  lemma NoRecords(s: Port)
    requires Sound(s) && AllSettled(s) && s.tree == map[] && s.deletedQueue == []
    ensures s.socks == map[] && s.updateQueue == []
  {
    assert s.updateQueue != [] ==> s.updateQueue[0] in s.updateQueue;
    forall p
      ensures p !in s.socks && p !in s.updateQueue
    {
      assert RecordOk(s, p) && Settled(s, p);
    }
    assert s.socks == map[];
  }

  lemma NoSlots(s: Port)
    requires GroupsOk(s) && s.socks == map[]
    ensures forall g :: g in s.groups.size ==> s.groups.size[g] == 0
  {
    forall g | g in s.groups.size
      ensures s.groups.size[g] == 0
    {
      assert Holders(s.socks, g) == {};
    }
  }

  /** With the tree and the deleted queue empty there are no records left, no slot is in use and nothing
      is queued for update. */
  lemma NothingLeft(s: Port, s1: Port, keys: set<Ptr>, freed: multiset<Ptr>)
    requires Emptied(s, keys, freed) && Emptied(s1, s.socks.Keys, FreedIn(s.log))
    requires s1.tree == map[] && s1.deletedQueue == []
    ensures s1.socks == map[] && s1.updateQueue == [] && FreedIn(s1.log) == freed + multiset(keys)
    ensures forall g :: g in s1.groups.size ==> s1.groups.size[g] == 0
  {
    NoRecords(s1);
    NoSlots(s1);
    assert s.socks.Keys - s1.socks.Keys == s.socks.Keys;
    TwoParts(keys, s.socks.Keys);
  }

  /** port_state_t with the memory its records live in. */
  class PortState {
    var open: bool
    var socks: map<Ptr, Sock>
    var tree: map<Socket, Ptr>
    var updateQueue: seq<Ptr>
    var deletedQueue: seq<Ptr>
    var groups: PollGroups.Groups
    var active: nat
    var requests: map<Ptr, Request>
    var waiters: map<Thread, Waiter>
    ghost var log: seq<Entry>
    ghost var peak: nat
    ghost var late: bool
    ghost var ok: bool

    ghost function State(): Port
      reads this
    {
      Port(open, socks, tree, updateQueue, deletedQueue, groups, active, requests, waiters, log, peak, late, ok)
    }

    constructor ()
      ensures State() == EMPTY && Inv(State())
    {
      open, socks, tree, updateQueue, deletedQueue := true, map[], map[], [], [];
      groups, active, requests, waiters := PollGroups.Groups([], map[]), 0, map[], map[];
      log, peak, late, ok := [], 0, false, true;
      new;
      EmptyInv();
    }

    // ---------- queues of the port ----------

    method CancelSocketUpdate(p: Ptr)
      modifies this`updateQueue, this`deletedQueue
      ensures State() == Dequeue(old(State()), p)
    {
      updateQueue, deletedQueue := Without(updateQueue, p), Without(deletedQueue, p);
    }

    method RequestSocketUpdate(p: Ptr)
      modifies this`updateQueue
      ensures State() == RequestUpdate(old(State()), p)
    {
      if p in updateQueue || p in deletedQueue { return; }
      updateQueue := updateQueue + [p];
    }

    method AddDeletedSocket(p: Ptr)
      modifies this`deletedQueue
      ensures State() == AddDeleted(old(State()), p)
    {
      if p in updateQueue || p in deletedQueue { return; }
      deletedQueue := deletedQueue + [p];
    }

    // ---------- records ----------

    method SockCancelPoll(p: Ptr, kernel: Kernel) returns (done: bool)
      requires p in socks && socks[p].status == Pending
      modifies this`socks
      ensures (State(), done) == CancelPoll(old(State()), p, kernel)
    {
      if p in requests && requests[p] == Submitted && !kernel.cancel(p) { return false; }
      socks := socks[p := socks[p].(status := Cancelled)];
      socks := socks[p := socks[p].(pendingEvents := {})];
      Overwritten(old(socks), p, old(socks)[p].(status := Cancelled), socks[p]);
      return true;
    }

    method SockUnregister(p: Ptr, kernel: Kernel)
      requires p in socks
      modifies this`socks, this`updateQueue, this`deletedQueue, this`tree, this`log
      ensures State() == Unregister(old(State()), p, kernel)
    {
      if !socks[p].deletePending {
        if socks[p].status == Pending {
          var _ := SockCancelPoll(p, kernel);
        }
        CancelSocketUpdate(p);
        tree := tree - {socks[p].socket};
        log := log + [Removed(p)];
        socks := socks[p := socks[p].(deletePending := true)];
      }
    }

    method SockRelease(p: Ptr)
      requires p in socks && ok
      requires socks[p].group in groups.size && 0 < groups.size[socks[p].group] <= PollGroups.MAX_GROUP_SIZE
      modifies this`socks, this`updateQueue, this`deletedQueue, this`groups, this`log
      ensures State() == Released(old(State()), p)
    {
      CancelSocketUpdate(p);
      GroupRelease(socks[p].group);
      socks := socks - {p};
      log := log + [Freed(p)];
    }

    method SockDelete(p: Ptr, kernel: Kernel)
      requires Sound(State()) && p in socks && !socks[p].deletePending && OthersSettled(State(), p)
      modifies this`socks, this`updateQueue, this`deletedQueue, this`tree, this`log, this`groups
      ensures State() == PortModel.Delete(old(State()), p, false, kernel)
    {
      UnregisterSound(State(), p, kernel);
      SockUnregister(p, kernel);
      HolderCounts(State(), p);
      if socks[p].status == Idle {
        SockRelease(p);
      } else {
        AddDeletedSocket(p);
      }
    }

    method SockForceRelease(p: Ptr)
      requires p in socks && ok
      requires socks[p].group in groups.size && 0 < groups.size[socks[p].group] <= PollGroups.MAX_GROUP_SIZE
      modifies this`socks, this`updateQueue, this`deletedQueue, this`groups, this`log, this`requests
      ensures State() == ForceReleased(old(State()), p)
    {
      requests := requests - {p};
      SockRelease(p);
    }

    method SockForceDelete(p: Ptr, kernel: Kernel)
      requires Sound(State()) && AllSettled(State()) && p in socks
      modifies this`socks, this`updateQueue, this`deletedQueue, this`tree, this`log, this`groups, this`requests
      ensures State() == PortModel.Delete(old(State()), p, true, kernel)
    {
      if !socks[p].deletePending { UnregisterSound(State(), p, kernel); }
      SockUnregister(p, kernel);
      HolderCounts(State(), p);
      SockForceRelease(p);
    }

    method SockSetEvent(p: Ptr, e: Event)
      requires p in socks
      modifies this`socks, this`log, this`updateQueue
      ensures State() == SetEvent(old(State()), p, e)
    {
      var events := e.events + {Err, Hup};
      socks := socks[p := socks[p].(userEvents := events, data := e.data)];
      log := log + [Set(p, e)];
      if !Covered(events, socks[p].pendingEvents) {
        RequestSocketUpdate(p);
      }
    }

    /** The kernel has accepted the request. */
    method SockSubmitted(p: Ptr)
      requires p in socks
      modifies this`socks, this`updateQueue, this`deletedQueue, this`requests, this`ok
      ensures State() == Dequeue(Submit(old(State()), p), p)
    {
      ok := ok && p !in requests;
      requests := requests[p := Submitted];
      socks := socks[p := Asking(socks[p]).(status := Pending, pendingEvents := socks[p].userEvents)];
      CancelSocketUpdate(p);
    }

    /** sock_update for an idle record: the kernel's answer decides. */
    method SockSubmit(p: Ptr, kernel: Kernel) returns (done: bool)
      requires Sound(State()) && AllSettled(State()) && p in updateQueue
      requires p in socks && !socks[p].deletePending && socks[p].status == Idle
      modifies this`socks, this`updateQueue, this`deletedQueue, this`tree, this`log, this`groups, this`requests, this`ok
      ensures (State(), done) == Update(old(State()), p, kernel)
    {
      var answer := kernel.poll(p);
      if answer == Accepted {
        SockSubmitted(p);
        return true;
      }
      AskingSound(State(), p);
      socks := socks[p := Asking(socks[p])];
      if answer == SocketGone { SockDelete(p, kernel); }
      return answer == SocketGone;
    }

    method SockUpdate(p: Ptr, kernel: Kernel) returns (done: bool)
      requires Sound(State()) && AllSettled(State()) && p in updateQueue && p in socks && !socks[p].deletePending
      modifies this`socks, this`updateQueue, this`deletedQueue, this`tree, this`log, this`groups, this`requests, this`ok
      ensures (State(), done) == Update(old(State()), p, kernel)
    {
      var k := socks[p];
      if k.status == Idle {
        done := SockSubmit(p, kernel);
        return;
      }
      if k.status == Pending && !Covered(k.userEvents, k.pendingEvents) {
        var cancelled := SockCancelPoll(p, kernel);
        if !cancelled { return false; }
      }
      CancelSocketUpdate(p);
      return true;
    }

    // ---------- the port ----------

    /** Walks the update queue until it is empty or a record cannot be updated. */
    method UpdateEvents(kernel: Kernel) returns (done: bool)
      requires Inv(State())
      modifies this`socks, this`updateQueue, this`deletedQueue, this`tree, this`log, this`groups, this`requests, this`ok
      ensures (State(), done) == PortModel.UpdateEvents(old(State()), kernel)
      ensures Inv(State()) && (done <==> updateQueue == [])
    {
      ghost var s0 := State();
      UpdateEventsSound(s0, kernel, 0, []);
      while updateQueue != []
        invariant Inv(State()) && PortModel.UpdateEvents(State(), kernel) == PortModel.UpdateEvents(s0, kernel)
        decreases |updateQueue|
      {
        ghost var s := State();
        var p := updateQueue[0];
        assert RecordOk(s, p);
        UpdateSound(s, p, kernel);
        UpdateEventsSound(s, kernel, 0, []);
        WaitersStay(s, Update(s, p, kernel).0, p, 0, []);
        var updated := SockUpdate(p, kernel);
        if !updated { return false; }
      }
      return true;
    }

    method SockFire(p: Ptr, events: Mask)
      requires p in socks
      modifies this`socks, this`log
      ensures State() == Fired(old(State()), p, events)
    {
      log := log + [Delivered(p, Event(events, socks[p].data))];
      var left := if OneShot in socks[p].userEvents then {} else socks[p].userEvents;
      socks := socks[p := socks[p].(userEvents := left)];
    }

    /** Hands out the events that were asked for. */
    method SockReport(p: Ptr, a: Mask) returns (e: Option<Event>)
      requires p in socks
      modifies this`socks, this`log
      ensures (State(), e) == Report(old(State()), p, a)
    {
      if a * socks[p].userEvents == {} {
        ReportsNothing(State(), p, a);
        return None;
      }
      ReportsEvent(State(), p, a);
      var events := a * socks[p].userEvents;
      e := Some(Event(events, socks[p].data));
      SockFire(p, events);
    }

    method SockFeedEvent(p: Ptr) returns (e: Option<Event>)
      requires Sound(State()) && AllSettled(State()) && p in requests && requests[p].Taken?
      modifies this`socks, this`updateQueue, this`deletedQueue, this`tree, this`log, this`groups, this`requests
      ensures (State(), e) == Feed(old(State()), p)
    {
      assert RequestOk(State(), p);
      ReturnedSound(State(), p);
      var result := requests[p].result;
      socks := socks[p := socks[p].(status := Idle, pendingEvents := {})];
      requests := requests - {p};
      assert State() == Returned(old(State()), p);
      if socks[p].deletePending {
        HolderCounts(State(), p);
        SockRelease(p);
        return None;
      }
      if ReportsClose(result) {
        SockDelete(p, Kernel(_ => Refused, _ => true));
        return None;
      }
      RequestSocketUpdate(p);
      e := SockReport(p, EventsOf(result));
    }

    /** Feeds a batch of packets; the events go to the front of `events`. */
    method FeedEvents(t: Thread, batch: seq<Ptr>, events: array<Event>) returns (count: nat)
      requires Feeding(State(), t, batch) && |batch| <= events.Length
      modifies events, this`socks, this`updateQueue, this`deletedQueue, this`tree, this`log, this`groups, this`requests
      ensures count <= |batch| && (State(), events[..count]) == FeedAll(old(State()), batch)
      ensures Feeding(State(), t, [])
    {
      ghost var s0 := State();
      FeedAllSound(s0, t, batch);
      count := 0;
      var i := 0;
      assert batch[i..] == batch && events[..count] + FeedAll(s0, batch).1 == FeedAll(s0, batch).1;
      while i < |batch|
        invariant count <= i <= |batch| && Feeding(State(), t, batch[i..])
        invariant FeedAll(s0, batch) == (FeedAll(State(), batch[i..]).0,
          events[..count] + FeedAll(State(), batch[i..]).1)
      {
        ghost var s, rest, before := State(), batch[i..], events[..count];
        FeedFirst(s, t, rest);
        assert Holds(s, t, rest[0]);
        var e := SockFeedEvent(batch[i]);
        if e.Some? {
          events[count] := e.value;
          count := count + 1;
        }
        i := i + 1;
        assert rest[1..] == batch[i..];
        assert events[..count] == before + AsSeq(e);
        FedFirst(s, State(), rest, e);
        Regroup(before, AsSeq(e), FeedAll(State(), batch[i..]).1);
      }
      assert events[..count] + [] == events[..count];
    }

    // ---------- epoll_ctl ----------

    /** poll_group__new */
    method GroupNew(input: NewInput) returns (g: Option<PollGroups.Group>)
      modifies this`groups, this`late
      ensures late == (old(late) || !open)
      ensures groups == (if input.canCreate then
        PollGroups.Groups(old(groups).queue + [input.group], old(groups).size[input.group := 0]) else old(groups))
      ensures g == if input.canCreate then Some(input.group) else None
    {
      late := late || !open;
      if !input.canCreate { return None; }
      groups := PollGroups.Groups(groups.queue + [input.group], groups.size[input.group := 0]);
      return Some(input.group);
    }

    method GroupAcquire(input: NewInput) returns (g: Option<PollGroups.Group>)
      requires PollGroups.Inv(groups)
      modifies this`groups, this`late, this`peak
      ensures (State(), g) == AcquireGroup(old(State()), input)
    {
      var q := groups.queue;
      g := if q != [] then Some(q[|q| - 1]) else None;
      if g.None? || groups.size[g.value] >= PollGroups.MAX_GROUP_SIZE {
        g := GroupNew(input);
      }
      if g.None? { return; }
      var n := groups.size[g.value] + 1;
      groups := groups.(size := groups.size[g.value := n]);
      if n == PollGroups.MAX_GROUP_SIZE {
        groups := groups.(queue := [g.value] + Without(groups.queue, g.value));
      }
      peak := if |socks| + 1 > peak then |socks| + 1 else peak;
    }

    method GroupRelease(g: PollGroups.Group)
      requires g in groups.size && 0 < groups.size[g] <= PollGroups.MAX_GROUP_SIZE
      modifies this`groups
      ensures State() == ReleaseGroup(old(State()), g)
    {
      groups := groups.(size := groups.size[g := groups.size[g] - 1]);
      assert groups.size[g] < PollGroups.MAX_GROUP_SIZE;
      groups := groups.(queue := Without(groups.queue, g) + [g]);
    }

    method SockRegister(p: Ptr, socket: Socket, g: PollGroups.Group)
      modifies this`socks, this`tree
      ensures State() == Registered(old(State()), p, socket, g)
    {
      socks := socks[p := Sock(socket, g, 0, {}, {}, Idle, false, {})];
      tree := tree[socket := p];
    }

    method SockNew(socket: Socket, input: NewInput) returns (p: Option<Ptr>)
      requires Inv(State()) && input.group !in groups.size && (input.memory.Some? ==> input.memory.value !in socks)
      modifies this`socks, this`tree, this`groups, this`late, this`peak
      ensures (State(), p) == NewSock(old(State()), socket, input)
    {
      if socket == 0 || socket == INVALID_SOCKET || !input.hasBase { return None; }
      AcquireSound(State(), input);
      var g := GroupAcquire(input);
      if g.None? { return None; }
      if input.memory.None? || socket in tree {
        GroupRelease(g.value);
        return None;
      }
      p := input.memory;
      SockRegister(p.value, socket, g.value);
    }

    method UpdateEventsIfPolling(kernel: Kernel)
      requires Inv(State())
      modifies this`socks, this`updateQueue, this`deletedQueue, this`tree, this`log, this`groups, this`requests, this`ok
      ensures State() == UpdateIfPolling(old(State()), kernel) && Inv(State())
    {
      if active > 0 {
        var _ := UpdateEvents(kernel);
      }
    }

    method CtlAdd(socket: Socket, e: Event, input: NewInput, kernel: Kernel) returns (done: bool)
      requires Inv(State()) && Enabled(State(), DoAdd(socket, e, input, kernel))
      modifies this
      ensures (State(), done) == PortModel.CtlAdd(old(State()), socket, e, input, kernel) && Inv(State())
    {
      NewSockSound(State(), socket, input);
      CtlAddInv(State(), socket, e, input, kernel);
      var p := SockNew(socket, input);
      if p.None? { return false; }
      SetEventInv(State(), p.value, e);
      SockSetEvent(p.value, e);
      UpdateEventsIfPolling(kernel);
      return true;
    }

    method CtlMod(socket: Socket, e: Event, kernel: Kernel) returns (done: bool)
      requires Inv(State())
      modifies this
      ensures (State(), done) == PortModel.CtlMod(old(State()), socket, e, kernel) && Inv(State())
    {
      if socket !in tree { return false; }
      var p := tree[socket];
      assert Settled(State(), p);
      SetEventInv(State(), p, e);
      SockSetEvent(p, e);
      UpdateEventsIfPolling(kernel);
      return true;
    }

    method CtlDel(socket: Socket, kernel: Kernel) returns (done: bool)
      requires Inv(State())
      modifies this
      ensures (State(), done) == PortModel.CtlDel(old(State()), socket, kernel) && Inv(State())
    {
      CtlDelInv(State(), socket, kernel);
      if socket !in tree { return false; }
      SockDelete(tree[socket], kernel);
      return true;
    }

    // ---------- epoll_wait ----------

    /** The part of port__poll before the lock is given up. */
    method PollEnter(t: Thread, maxEvents: nat, kernel: Kernel) returns (done: bool)
      requires Inv(State()) && t !in waiters
      modifies this
      ensures (State(), done) == PortModel.PollEnter(old(State()), t, maxEvents, kernel) && Inv(State())
    {
      PollEnterInv(State(), t, maxEvents, kernel);
      done := UpdateEvents(kernel);
      if !done { return; }
      active := active + 1;
      waiters := waiters[t := Waiter(maxEvents, None)];
    }

    /** The part of port__poll after the lock is taken back; -1 stands for a wait that failed. */
    method PollLeave(t: Thread, events: array<Event>) returns (count: int)
      requires Inv(State()) && t in waiters && waiters[t].maxEvents <= events.Length
      modifies this, events
      ensures Inv(State()) && State() == PortModel.PollLeave(old(State()), t).0
      ensures -1 <= count <= old(waiters)[t].maxEvents
      ensures PortModel.PollLeave(old(State()), t).1 == if count < 0 then None else Some(events[..count])
    {
      PollLeaveInv(State(), t);
      WaiterLeaves(State(), t);
      var w := waiters[t];
      ok := ok && active > 0;
      active := active - 1;
      waiters := waiters - {t};
      assert State() == Woken(old(State()), t);
      OtherFields(old(State()), State());
      if w.batch.None? { return -1; }
      count := FeedEvents(t, w.batch.value, events);
    }

    // ---------- port_delete ----------

    /** Frees the records in the tree one by one, whichever the root is each time. */
    method DeleteTree(kernel: Kernel)
      requires Sound(State()) && AllSettled(State())
      modifies this`socks, this`updateQueue, this`deletedQueue, this`tree, this`log, this`groups, this`requests
      ensures Emptied(State(), old(socks.Keys), old(FreedIn(log))) && tree == map[]
    {
      ghost var keys, freed := socks.Keys, FreedIn(log);
      assert keys - keys == {};
      while tree != map[]
        invariant Emptied(State(), keys, freed)
        decreases |socks.Keys|
      {
        var socket :| socket in tree.Keys;
        var p := tree[socket];
        ghost var s := State();
        ForceDeleteInTree(s, p, kernel);
        SockForceDelete(p, kernel);
        EmptiedStep(s, State(), keys, freed, p);
      }
    }

    /** Frees the records in the deleted queue. */
    method DeleteQueued(kernel: Kernel)
      requires Sound(State()) && AllSettled(State()) && tree == map[]
      modifies this`socks, this`updateQueue, this`deletedQueue, this`tree, this`log, this`groups, this`requests
      ensures Emptied(State(), old(socks.Keys), old(FreedIn(log))) && tree == map[] && deletedQueue == []
    {
      ghost var keys, freed := socks.Keys, FreedIn(log);
      assert keys - keys == {};
      while deletedQueue != []
        invariant Emptied(State(), keys, freed) && tree == map[]
        decreases |socks.Keys|
      {
        var p := deletedQueue[0];
        ghost var s := State();
        assert RecordOk(s, p);
        ForceDeleteQueued(s, p, kernel);
        SockForceDelete(p, kernel);
        EmptiedStep(s, State(), keys, freed, p);
      }
    }

    /** Deletes the poll groups; `met` says whether the assertion held that each is empty. */
    method DeleteGroups() returns (met: bool)
      requires PollGroups.Inv(groups)
      modifies this`groups
      ensures groups.queue == []
      ensures met <==> forall g :: g in old(groups.queue) ==> old(groups.size)[g] == 0
    {
      met := true;
      ghost var size, queue, n := groups.size, groups.queue, 0;
      while groups.queue != []
        invariant 0 <= n <= |queue| && groups.size == size && groups.queue == queue[n..]
        invariant met <==> forall k :: 0 <= k < n ==> size[queue[k]] == 0
        decreases |groups.queue|
      {
        met := met && groups.size[groups.queue[0]] == 0;
        groups := PollGroups.Groups(groups.queue[1..], groups.size);
        n := n + 1;
      }
    }

    /** port_delete, once the handle is closed and no thread is inside: every record is freed once, and
        the assertions on the way hold: the handle is closed, each group is empty when it goes, and so
        is the update queue. */
    method Delete(kernel: Kernel) returns (met: bool)
      requires Inv(State()) && !open && waiters == map[]
      modifies this
      ensures met && ok && socks == map[] && tree == map[]
      ensures updateQueue == [] && deletedQueue == [] && groups.queue == []
      ensures FreedIn(log) == old(FreedIn(log)) + multiset(old(socks.Keys))
    {
      ghost var keys, freed := socks.Keys, FreedIn(log);
      met := !open;
      DeleteTree(kernel);
      ghost var left := State();
      DeleteQueued(kernel);
      NothingLeft(left, State(), keys, freed);
      var empty := DeleteGroups();
      met := met && empty && updateQueue == [];
    }
  }
}
