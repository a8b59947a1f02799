/** Whole operations of a port, and every run of them. */
module PortRuns {
  import opened EventMasks
  import opened Options
  import opened Sequences
  import opened PortModel
  import opened PortInv
  import opened PortSteps
  import PollGroups

  // ---------- packets in the hands of threads ----------

  predicate Holds(s: Port, t: Thread, p: Ptr) {
    p in s.requests && s.requests[p].Taken? && s.requests[p].holder == t
  }

  ghost predicate WaiterOk(s: Port, t: Thread) {
    t in s.waiters && s.waiters[t].batch.Some? ==>
      var b := s.waiters[t].batch.value;
      Distinct(b) && |b| <= s.waiters[t].maxEvents && forall p :: p in b ==> Holds(s, t, p)
  }

  /** A packet that was taken is still in the batch of the thread that took it. */
  predicate InHand(s: Port, p: Ptr, t: Thread, b: seq<Ptr>) {
    p in s.requests && s.requests[p].Taken? ==>
      var h := s.requests[p].holder;
      (h == t && p in b) || (h in s.waiters && s.waiters[h].batch.Some? && p in s.waiters[h].batch.value)
  }

  /** Besides the waiters, thread `t` still has to feed the packets `b`. */
  ghost predicate WaitersOk(s: Port, t: Thread, b: seq<Ptr>) {
    && s.active == |s.waiters| && Distinct(b) && (b != [] ==> t !in s.waiters)
    && (forall u :: WaiterOk(s, u)) && (forall p :: p in b ==> Holds(s, t, p)) && (forall p :: InHand(s, p, t, b))
  }

  /** In order, but for the packets `b` that thread `t` has still to feed. */
  ghost predicate Feeding(s: Port, t: Thread, b: seq<Ptr>) {
    Sound(s) && AllSettled(s) && WaitersOk(s, t, b)
  }

  /** What holds between any two steps. */
  ghost predicate Inv(s: Port) {
    Feeding(s, 0, [])
  }

  /** Taking in the next packet of a batch. */
  lemma WaitersFed(s: Port, s1: Port, t: Thread, b: seq<Ptr>)
    requires WaitersOk(s, t, b) && b != [] && s1.requests == s.requests - {b[0]}
    requires s1.waiters == s.waiters && s1.active == s.active
    ensures WaitersOk(s1, t, b[1..])
  {
    forall u
      ensures WaiterOk(s1, u)
    {
      assert WaiterOk(s, u) && Holds(s, t, b[0]);
    }
    forall p
      ensures InHand(s1, p, t, b[1..])
    {
      assert InHand(s, p, t, b);
    }
    forall p | p in b[1..]
      ensures Holds(s1, t, p)
    {
      assert p in b && Holds(s, t, p);
    }
  }

  /** A new request, or none, makes no difference to the waiters. */
  lemma WaitersStay(s: Port, s1: Port, p: Ptr, t: Thread, b: seq<Ptr>)
    requires WaitersOk(s, t, b) && s1.waiters == s.waiters && s1.active == s.active
    requires s1.requests == s.requests || (p !in s.requests && s1.requests == s.requests[p := Submitted])
    ensures WaitersOk(s1, t, b)
  {
    forall u
      ensures WaiterOk(s1, u)
    {
      assert WaiterOk(s, u);
    }
    forall q
      ensures InHand(s1, q, t, b)
    {
      assert InHand(s, q, t, b);
    }
    forall q | q in b
      ensures Holds(s1, t, q)
    {
      assert Holds(s, t, q);
    }
  }

  // ---------- port__update_events ----------

  /** The kernel refuses nothing. */
  ghost predicate Willing(kernel: Kernel) {
    forall p :: kernel.cancel(p) && kernel.poll(p) != Refused
  }

  lemma UpdateSucceeds(s: Port, p: Ptr, kernel: Kernel)
    requires Sound(s) && p in s.updateQueue && Willing(kernel)
    ensures Update(s, p, kernel).1
  {
    assert RecordOk(s, p);
    assert kernel.cancel(p) && kernel.poll(p) != Refused;
  }

  /** What operations on several records leave alone. */
  ghost predicate Kept(s: Port, s1: Port) {
    s1.waiters == s.waiters && s1.active == s.active && s1.open == s.open && s1.late == s.late
  }

  /** port__update_events keeps everything in order, empties the queue when it succeeds, and succeeds
      unless the kernel refuses something. */
  lemma {:induction false} UpdateEventsSound(s: Port, kernel: Kernel, t: Thread, b: seq<Ptr>)
    requires Sound(s) && AllSettled(s) && WaitersOk(s, t, b)
    ensures var (s1, done) := UpdateEvents(s, kernel);
      Sound(s1) && AllSettled(s1) && WaitersOk(s1, t, b) && Kept(s, s1) && (done <==> s1.updateQueue == []) &&
      (Willing(kernel) ==> done)
    decreases |s.updateQueue|
  {
    if s.updateQueue != [] {
      var p := s.updateQueue[0];
      var (s1, done) := Update(s, p, kernel);
      UpdateSound(s, p, kernel);
      WaitersStay(s, s1, p, t, b);
      if Willing(kernel) { UpdateSucceeds(s, p, kernel); }
      if done { UpdateEventsSound(s1, kernel, t, b); }
    }
  }

  // ---------- port__feed_events ----------

  /** `es` have been handed out, and the packets `b` are left. */
  ghost predicate FedTo(s: Port, s1: Port, t: Thread, b: seq<Ptr>, es: seq<Event>) {
    Sound(s1) && AllSettled(s1) && WaitersOk(s1, t, b) && Kept(s, s1) && Deliveries(s1.log) == Deliveries(s.log) + es
  }

  lemma FeedFirst(s: Port, t: Thread, b: seq<Ptr>)
    requires Sound(s) && AllSettled(s) && WaitersOk(s, t, b) && b != []
    ensures var (s1, e) := Feed(s, b[0]); FedTo(s, s1, t, b[1..], AsSeq(e))
  {
    assert Holds(s, t, b[0]);
    FeedSound(s, b[0]);
    WaitersFed(s, Feed(s, b[0]).0, t, b);
  }

  lemma FedOn(s: Port, s1: Port, s2: Port, t: Thread, b: seq<Ptr>, es: seq<Event>, es1: seq<Event>)
    requires Kept(s, s1) && Deliveries(s1.log) == Deliveries(s.log) + es && FedTo(s1, s2, t, b, es1)
    ensures FedTo(s, s2, t, b, es + es1)
  {
    assert Deliveries(s.log) + (es + es1) == Deliveries(s.log) + es + es1;
  }

  /** A batch fed to the end: every record settled, nothing in hand, and no more events than packets. */
  lemma {:induction false} FeedAllSound(s: Port, t: Thread, b: seq<Ptr>)
    requires Sound(s) && AllSettled(s) && WaitersOk(s, t, b)
    ensures var (s1, es) := FeedAll(s, b); FedTo(s, s1, t, [], es) && |es| <= |b|
    decreases |b|
  {
    if b == [] {
      assert Deliveries(s.log) + [] == Deliveries(s.log);
    } else {
      var (s1, e) := Feed(s, b[0]);
      FeedFirst(s, t, b);
      FeedAllSound(s1, t, b[1..]);
      var (s2, es) := FeedAll(s1, b[1..]);
      FedOn(s, s1, s2, t, [], AsSeq(e), es);
    }
  }

  // ---------- sock_new ----------

  /** One slot of group `g` is taken and no record has it yet. */
  ghost predicate Acquired(s: Port, g: PollGroups.Group) {
    && PollGroups.Inv(s.groups) && g in s.groups.size
    && (forall p :: p in s.socks ==> s.socks[p].group in s.groups.size)
    && (forall h :: h in s.groups.size ==> s.groups.size[h] == |Holders(s.socks, h)| + (if h == g then 1 else 0))
    && PollGroups.Slots(s.groups.queue, s.groups.size) == |s.socks| + 1 <= s.peak
    && PollGroups.MAX_GROUP_SIZE * |s.groups.queue| < s.peak + PollGroups.MAX_GROUP_SIZE
  }

  lemma AcquireSound(s: Port, input: NewInput)
    requires GroupsOk(s) && input.group !in s.groups.size
    ensures var (s1, g) := AcquireGroup(s, input);
      s1 == s.(groups := s1.groups, late := s1.late, peak := s1.peak) &&
      if g.None? then s1.groups == s.groups && s1.peak == s.peak else Acquired(s1, g.value)
  {
    PollGroups.AcquireInv(s.groups, input.group, input.canCreate);
    PollGroups.AcquireSizes(s.groups, input.group, input.canCreate);
    forall h | h !in s.groups.size
      ensures |Holders(s.socks, h)| == 0
    {
      assert Holders(s.socks, h) == {};
    }
  }

  /** A slot that is given back leaves the groups as they should be. */
  lemma GiveBackSound(s: Port, g: PollGroups.Group)
    requires Acquired(s, g) && s.ok
    ensures var s1 := ReleaseGroup(s, g); GroupsOk(s1) && s1 == s.(groups := s1.groups)
  {
    PollGroups.ReleaseInv(s.groups, g);
  }

  lemma RegisteredGroups(s: Port, p: Ptr, socket: Socket, g: PollGroups.Group)
    requires Acquired(s, g) && p !in s.socks
    ensures GroupsOk(Registered(s, p, socket, g))
  {
    var k := Sock(socket, g, 0, {}, {}, Idle, false, {});
    forall h
      ensures |Holders(s.socks[p := k], h)| == |Holders(s.socks, h)| + (if g == h then 1 else 0)
    {
      HoldersStep(s.socks, p, k, h);
    }
    OneMore(s.socks, p, k);
  }

  /** Everything but the bookkeeping of groups is as before. */
  lemma BookkeepingSound(s: Port, s1: Port, t: Thread, b: seq<Ptr>)
    requires Base(s) && RequestsOk(s) && AllSettled(s) && WaitersOk(s, t, b)
    requires s1 == s.(groups := s1.groups, late := s1.late, peak := s1.peak)
    ensures Base(s1) && RequestsOk(s1) && AllSettled(s1) && WaitersOk(s1, t, b)
  {
    forall p
      ensures RecordOk(s1, p) && RequestOk(s1, p) && Settled(s1, p) && InHand(s1, p, t, b)
    {
      assert RecordOk(s, p) && RequestOk(s, p) && Settled(s, p) && InHand(s, p, t, b);
    }
    forall u
      ensures WaiterOk(s1, u)
    {
      assert WaiterOk(s, u);
    }
    assert forall p :: p in b ==> Holds(s, t, p) && Holds(s1, t, p);
  }

  lemma RegisteredLocal(s: Port, p: Ptr, socket: Socket, g: PollGroups.Group)
    requires Base(s) && RequestsOk(s) && p !in s.socks && socket !in s.tree
    ensures var s1 := Registered(s, p, socket, g);
      Elsewhere(s, s1, p) && RecordOk(s1, p) && RequestOk(s1, p) && OwnEntry(s1, p)
  {
    assert RecordOk(s, p) && RequestOk(s, p);
  }

  lemma RegisteredSound(s: Port, p: Ptr, socket: Socket, g: PollGroups.Group, t: Thread, b: seq<Ptr>)
    requires Base(s) && RequestsOk(s) && AllSettled(s) && WaitersOk(s, t, b)
    requires Acquired(s, g) && p !in s.socks && socket !in s.tree
    ensures var s1 := Registered(s, p, socket, g);
      Sound(s1) && OthersSettled(s1, p) && WaitersOk(s1, t, b) && Elsewhere(s, s1, p) &&
      p in s1.socks && !s1.socks[p].deletePending && s1.socks[p].userEvents == {}
  {
    var s1 := Registered(s, p, socket, g);
    RegisteredLocal(s, p, socket, g);
    RegisteredGroups(s, p, socket, g);
    Local(s, s1, p);
    LocalRequests(s, s1, p);
    OthersStay(s, s1, p);
    WaitersStay(s, s1, p, t, b);
  }

  // ---------- epoll_ctl ----------

  /** The new record waits for its first sock_set_event. */
  ghost predicate Added(s: Port, p: Ptr) {
    Sound(s) && OthersSettled(s, p) && WaitersOk(s, 0, []) &&
    p in s.socks && !s.socks[p].deletePending && s.socks[p].userEvents == {}
  }

  lemma NewSockFails(s: Port, s1: Port, g: PollGroups.Group)
    requires Inv(s) && Acquired(s1, g) && s1 == s.(groups := s1.groups, late := s1.late, peak := s1.peak)
    ensures Inv(ReleaseGroup(s1, g))
  {
    GiveBackSound(s1, g);
    BookkeepingSound(s, ReleaseGroup(s1, g), 0, []);
  }

  lemma NewSockSound(s: Port, socket: Socket, input: NewInput)
    requires Inv(s) && input.group !in s.groups.size && (input.memory.Some? ==> input.memory.value !in s.socks)
    ensures var (s1, p) := NewSock(s, socket, input); if p.None? then Inv(s1) else Added(s1, p.value)
  {
    var (s1, g) := AcquireGroup(s, input);
    AcquireSound(s, input);
    BookkeepingSound(s, s1, 0, []);
    if g.Some? {
      if input.memory.None? || socket in s1.tree {
        NewSockFails(s, s1, g.value);
      } else {
        RegisteredSound(s1, input.memory.value, socket, g.value, 0, []);
      }
    }
  }

  lemma SetEventInv(s: Port, p: Ptr, e: Event)
    requires Sound(s) && OthersSettled(s, p) && WaitersOk(s, 0, [])
    requires p in s.socks && !s.socks[p].deletePending && (s.socks[p].userEvents == {} || Settled(s, p))
    ensures Inv(SetEvent(s, p, e))
  {
    SetEventSound(s, p, e);
    WaitersStay(s, SetEvent(s, p, e), p, 0, []);
  }

  lemma UpdateIfPollingInv(s: Port, kernel: Kernel)
    requires Inv(s)
    ensures Inv(UpdateIfPolling(s, kernel))
  {
    UpdateEventsSound(s, kernel, 0, []);
  }

  lemma CtlAddInv(s: Port, socket: Socket, e: Event, input: NewInput, kernel: Kernel)
    requires Inv(s) && input.group !in s.groups.size && (input.memory.Some? ==> input.memory.value !in s.socks)
    ensures Inv(CtlAdd(s, socket, e, input, kernel).0)
  {
    var (s1, p) := NewSock(s, socket, input);
    NewSockSound(s, socket, input);
    if p.Some? {
      SetEventInv(s1, p.value, e);
      UpdateIfPollingInv(SetEvent(s1, p.value, e), kernel);
    }
  }

  lemma CtlModInv(s: Port, socket: Socket, e: Event, kernel: Kernel)
    requires Inv(s)
    ensures Inv(CtlMod(s, socket, e, kernel).0)
  {
    if socket in s.tree {
      var p := s.tree[socket];
      assert Settled(s, p);
      SetEventInv(s, p, e);
      UpdateIfPollingInv(SetEvent(s, p, e), kernel);
    }
  }

  lemma CtlDelInv(s: Port, socket: Socket, kernel: Kernel)
    requires Inv(s)
    ensures Inv(CtlDel(s, socket, kernel).0)
  {
    if socket in s.tree {
      var p := s.tree[socket];
      DeleteSound(s, p, kernel);
      WaitersStay(s, Delete(s, p, false, kernel), p, 0, []);
    }
  }

  // ---------- epoll_wait and the kernel ----------

  /** Fields that the records do not depend on may change freely. */
  lemma OtherFields(s: Port, s1: Port)
    requires Sound(s) && AllSettled(s)
    requires s1 == s.(waiters := s1.waiters, active := s1.active, requests := s1.requests, open := s1.open)
    requires s1.requests.Keys == s.requests.Keys
    ensures Sound(s1) && AllSettled(s1)
  {
    forall p
      ensures RecordOk(s1, p) && RequestOk(s1, p) && Settled(s1, p)
    {
      assert RecordOk(s, p) && RequestOk(s, p) && Settled(s, p);
      assert p in s1.requests.Keys <==> p in s.requests.Keys;
    }
  }

  lemma WaiterEnters(s: Port, t: Thread, n: nat)
    requires WaitersOk(s, 0, []) && t !in s.waiters
    ensures WaitersOk(s.(active := s.active + 1, waiters := s.waiters[t := Waiter(n, None)]), 0, [])
  {
    var s1 := s.(active := s.active + 1, waiters := s.waiters[t := Waiter(n, None)]);
    forall u
      ensures WaiterOk(s1, u)
    {
      assert WaiterOk(s, u);
    }
    forall p
      ensures InHand(s1, p, 0, [])
    {
      assert InHand(s, p, 0, []);
    }
    assert s1.waiters.Keys == s.waiters.Keys + {t};
    assert |s1.waiters| == |s1.waiters.Keys| && |s.waiters| == |s.waiters.Keys|;
  }

  lemma PollEnterInv(s: Port, t: Thread, n: nat, kernel: Kernel)
    requires Inv(s) && t !in s.waiters
    ensures Inv(PollEnter(s, t, n, kernel).0)
  {
    var s1 := UpdateEvents(s, kernel).0;
    UpdateEventsSound(s, kernel, 0, []);
    WaiterEnters(s1, t, n);
    OtherFields(s1, s1.(active := s1.active + 1, waiters := s1.waiters[t := Waiter(n, None)]));
  }

  /** The state just after thread `t` has stopped waiting. */
  function Woken(s: Port, t: Thread): Port {
    s.(active := if s.active > 0 then s.active - 1 else 0, waiters := s.waiters - {t}, ok := s.ok && s.active > 0)
  }

  function BatchOf(s: Port, t: Thread): seq<Ptr> {
    if t in s.waiters && s.waiters[t].batch.Some? then s.waiters[t].batch.value else []
  }

  lemma WaiterLeaves(s: Port, t: Thread)
    requires WaitersOk(s, 0, []) && t in s.waiters && s.ok
    ensures WaitersOk(Woken(s, t), t, BatchOf(s, t)) && Woken(s, t).ok && |BatchOf(s, t)| <= s.waiters[t].maxEvents
  {
    var s1 := Woken(s, t);
    assert WaiterOk(s, t);
    assert s.waiters.Keys == s1.waiters.Keys + {t};
    assert |s1.waiters| == |s1.waiters.Keys| && |s.waiters| == |s.waiters.Keys|;
    forall u
      ensures WaiterOk(s1, u)
    {
      assert WaiterOk(s, u);
    }
    forall p
      ensures InHand(s1, p, t, BatchOf(s, t))
    {
      assert InHand(s, p, 0, []);
    }
    forall p | p in BatchOf(s, t)
      ensures Holds(s1, t, p)
    {
      assert Holds(s, t, p);
    }
  }

  lemma NoneLeft(s: Port, t: Thread)
    requires WaitersOk(s, t, [])
    ensures WaitersOk(s, 0, [])
  {
    forall p
      ensures InHand(s, p, 0, [])
    {
      assert InHand(s, p, t, []);
    }
  }

  /** One poll delivers no more events than were asked for, and exactly those that are logged. */
  lemma PollLeaveInv(s: Port, t: Thread)
    requires Inv(s) && t in s.waiters
    ensures var (s1, es) := PollLeave(s, t);
      Inv(s1) && t !in s1.waiters && (es.Some? <==> s.waiters[t].batch.Some?) &&
      var events := if es.Some? then es.value else [];
      |events| <= s.waiters[t].maxEvents && Deliveries(s1.log) == Deliveries(s.log) + events
  {
    var w := Woken(s, t);
    WaiterLeaves(s, t);
    OtherFields(s, w);
    if s.waiters[t].batch.None? {
      NoneLeft(w, t);
      assert Deliveries(s.log) + [] == Deliveries(s.log);
    } else {
      var (s1, es) := FeedAll(w, BatchOf(s, t));
      FeedAllSound(w, t, BatchOf(s, t));
      NoneLeft(s1, t);
    }
  }

  lemma CompleteInv(s: Port, p: Ptr, result: Result)
    requires Inv(s) && p in s.requests && s.requests[p] == Submitted
    ensures Inv(s.(requests := s.requests[p := Completed(result)]))
  {
    var s1 := s.(requests := s.requests[p := Completed(result)]);
    assert s1.requests.Keys == s.requests.Keys;
    OtherFields(s, s1);
    forall u
      ensures WaiterOk(s1, u)
    {
      assert WaiterOk(s, u);
      assert forall q :: Holds(s, u, q) ==> Holds(s1, u, q);
    }
    forall q
      ensures InHand(s1, q, 0, [])
    {
      assert InHand(s, q, 0, []);
    }
  }

  function Took(s: Port, t: Thread, batch: seq<Ptr>): Port
    requires t in s.waiters
  {
    s.(requests := Take(s.requests, t, batch), waiters := s.waiters[t := s.waiters[t].(batch := Some(batch))])
  }

  lemma TakeInv(s: Port, t: Thread, batch: seq<Ptr>)
    requires Inv(s) && Enabled(s, DoTake(t, batch))
    ensures Inv(Took(s, t, batch))
  {
    var s1 := Took(s, t, batch);
    assert s1.requests.Keys == s.requests.Keys;
    assert s1.waiters.Keys == s.waiters.Keys;
    OtherFields(s, s1);
    forall u
      ensures WaiterOk(s1, u)
    {
      assert WaiterOk(s, u);
      assert forall q :: Holds(s, u, q) ==> Holds(s1, u, q);
    }
    forall q
      ensures InHand(s1, q, 0, [])
    {
      assert InHand(s, q, 0, []);
    }
    assert |s1.waiters| == |s1.waiters.Keys| && |s.waiters| == |s.waiters.Keys|;
  }

  // ---------- runs ----------

  lemma PollAgainInv(s: Port, t: Thread, n: nat, kernel: Kernel)
    requires Inv(s) && t !in s.waiters
    ensures var (s1, done) := PollEnter(s, t, n, kernel);
      Inv(if done then s1 else UpdateIfPolling(s1, kernel))
  {
    PollEnterInv(s, t, n, kernel);
    if !PollEnter(s, t, n, kernel).1 { UpdateIfPollingInv(PollEnter(s, t, n, kernel).0, kernel); }
  }

  lemma LeaveInv(s: Port, t: Thread, again: bool, kernel: Kernel)
    requires Inv(s) && t in s.waiters
    ensures Inv(Step(s, DoLeave(t, again, kernel)))
  {
    var (s1, es) := PollLeave(s, t);
    PollLeaveInv(s, t);
    if again && es == Some([]) {
      PollAgainInv(s1, t, s.waiters[t].maxEvents, kernel);
    } else {
      UpdateIfPollingInv(s1, kernel);
    }
  }

  lemma CloseInv(s: Port)
    requires Inv(s)
    ensures Inv(s.(open := false))
  {
    var s1 := s.(open := false);
    OtherFields(s, s1);
    WaitersStay(s, s1, 0, 0, []);
  }

  lemma StepInv(s: Port, a: Action)
    requires Inv(s) && Enabled(s, a)
    ensures Inv(Step(s, a))
  {
    match a
    case DoAdd(socket, e, input, kernel) => CtlAddInv(s, socket, e, input, kernel);
    case DoMod(socket, e, kernel) => CtlModInv(s, socket, e, kernel);
    case DoDel(socket, kernel) => CtlDelInv(s, socket, kernel);
    case DoEnter(t, n, kernel) => PollAgainInv(s, t, n, kernel);
    case DoComplete(p, result) => CompleteInv(s, p, result);
    case DoTake(t, batch) => TakeInv(s, t, batch);
    case DoLeave(t, again, kernel) => LeaveInv(s, t, again, kernel);
    case DoClose => CloseInv(s);
  }

  /** The state after `actions`, of which none may come when it is not enabled. */
  ghost predicate Run(s: Port, actions: seq<Action>, s1: Port)
    decreases |actions|
  {
    if actions == [] then s1 == s else Enabled(s, actions[0]) && Run(Step(s, actions[0]), actions[1..], s1)
  }

  lemma {:induction false} RunInv(s: Port, actions: seq<Action>, s1: Port)
    requires Inv(s) && Run(s, actions, s1)
    ensures Inv(s1)
    decreases |actions|
  {
    if actions != [] {
      StepInv(s, actions[0]);
      RunInv(Step(s, actions[0]), actions[1..], s1);
    }
  }

  lemma EmptyInv()
    ensures Inv(EMPTY)
  {
  }

  /** A state some run of a new port leads to. */
  ghost predicate Reached(s: Port) {
    exists actions :: Run(EMPTY, actions, s)
  }

  lemma ReachedInv(s: Port)
    requires Reached(s)
    ensures Inv(s)
  {
    var actions :| Run(EMPTY, actions, s);
    EmptyInv();
    RunInv(EMPTY, actions, s);
  }

  predicate InTree(s: Port, p: Ptr) {
    p in s.socks && s.socks[p].socket in s.tree && s.tree[s.socks[p].socket] == p
  }

  /** Every allocated record is in exactly one of the socket tree and the deleted queue, what is in either
      is allocated, and a request is outstanding for exactly the records that are not idle. No assertion
      has failed, and no record was used or freed after it had been freed. */
  lemma RecordsInPlace(s: Port, p: Ptr)
    requires Reached(s)
    ensures s.ok
    ensures p in s.socks ==> (InTree(s, p) <==> p !in s.deletedQueue) && (InTree(s, p) <==> !s.socks[p].deletePending)
    ensures p in s.tree.Values || p in s.deletedQueue || p in s.updateQueue ==> p in s.socks
    ensures p in s.updateQueue ==> InTree(s, p)
    ensures p in s.requests <==> p in s.socks && s.socks[p].status != Idle
    ensures p in s.deletedQueue ==> p in s.requests
  {
    ReachedInv(s);
    assert RecordOk(s, p) && RequestOk(s, p) && Settled(s, p);
  }

  /** The request that the kernel holds for a record watches for all that was asked for and can be reported:
      EPOLLMSG cannot. */
  predicate Watches(k: Sock) {
    forall x :: x in k.userEvents * KNOWN && x != Msg ==> x in AfdToEpoll(k.polled)
  }

  /** No interest is lost: a record in the tree is queued for update, or the request that the kernel holds for
      it watches for all that was last asked for, or it has been cancelled and will come back. */
  lemma NoInterestLost(s: Port, p: Ptr)
    requires Reached(s) && InTree(s, p)
    ensures p in s.updateQueue || (p in s.requests && s.socks[p].status == Pending && Watches(s.socks[p])) ||
      (p in s.requests && s.socks[p].status == Cancelled)
  {
    ReachedInv(s);
    RecordsInPlace(s, p);
    assert Settled(s, p) && RequestOk(s, p);
    var k := s.socks[p];
    if k.status == Pending && Covered(k.userEvents, k.pendingEvents) {
      forall x | x in k.userEvents * KNOWN && x != Msg
        ensures x in AfdToEpoll(k.polled)
      {
        AskedComesBack(k.pendingEvents, x);
      }
    }
  }

  /** The sizes of the groups are the numbers of their records, at most 32, and there are no more groups
      than the peak use of slots needs. */
  lemma GroupBounds(s: Port, g: PollGroups.Group)
    requires Reached(s) && g in s.groups.size
    ensures s.groups.size[g] == |Holders(s.socks, g)| <= PollGroups.MAX_GROUP_SIZE
    ensures |s.groups.queue| <= (s.peak + PollGroups.MAX_GROUP_SIZE - 1) / PollGroups.MAX_GROUP_SIZE
    ensures PollGroups.FullFirst(s.groups.size, s.groups.queue)
  {
    ReachedInv(s);
  }

  /** port__update_events, from any reachable state, terminates with an empty queue or a refusal. */
  lemma UpdatesFinish(s: Port, kernel: Kernel)
    requires Reached(s)
    ensures var (s1, done) := UpdateEvents(s, kernel);
      Inv(s1) && (done <==> s1.updateQueue == []) && (Willing(kernel) ==> done)
  {
    ReachedInv(s);
    UpdateEventsSound(s, kernel, 0, []);
  }

  // ---------- what callers observe ----------

  lemma TrackAt(log: seq<Entry>, i: nat, p: Ptr)
    requires i < |log|
    ensures Track(log[..i + 1], p) == Next(Track(log[..i], p), log[i], p)
  {
    assert log[..i + 1] == log[..i] + [log[i]];
    TrackSnoc(log[..i], log[i]);
  }

  lemma AllowedAt(log: seq<Entry>, i: nat)
    requires LogOk(log) && i < |log|
    ensures Allowed(Track(log[..i], log[i].ptr), log[i])
  {
  }

  predicate NoSet(log: seq<Entry>, p: Ptr) {
    forall i :: 0 <= i < |log| ==> log[i].ptr == p ==> !log[i].Set?
  }

  /** A record that does not watch does not start to but by sock_set_event. */
  lemma {:induction false} StaysQuiet(log: seq<Entry>, i: nat, j: nat, p: Ptr)
    requires i <= j <= |log| && NoSet(log[i..j], p) && !Track(log[..i], p).Watching?
    ensures !Track(log[..j], p).Watching?
    decreases j - i
  {
    if i < j {
      forall k | i <= k < j
        ensures log[k] == log[i..j][k - i]
      {
      }
      assert log[i..j - 1] == log[i..j][..j - 1 - i];
      StaysQuiet(log, i, j - 1, p);
      TrackAt(log, j - 1, p);
    }
  }

  /** Each delivery is non-empty, within the events last asked for plus ERR and HUP, and carries the data
      last set. */
  lemma DeliveredAsAsked(s: Port, i: nat)
    requires Reached(s) && i < |s.log| && s.log[i].Delivered?
    ensures var w := Track(s.log[..i], s.log[i].ptr);
      w.Watching? && s.log[i].event.data == w.event.data && s.log[i].event.events != {} &&
      s.log[i].event.events <= w.event.events + {Err, Hup}
  {
    ReachedInv(s);
    assert Allowed(Track(s.log[..i], s.log[i].ptr), s.log[i]);
  }

  /** Nothing is delivered for a record after it was deleted or freed, until it is set again. */
  lemma NothingAfterRemoved(s: Port, i: nat, j: nat, p: Ptr)
    requires Reached(s) && i < j < |s.log| && (s.log[i] == Removed(p) || s.log[i] == Freed(p))
    requires NoSet(s.log[i + 1..j], p)
    ensures s.log[j].ptr == p ==> !s.log[j].Delivered?
  {
    ReachedInv(s);
    TrackAt(s.log, i, p);
    StaysQuiet(s.log, i + 1, j, p);
    AllowedAt(s.log, j);
  }

  /** A one-shot record gets at most one event between two calls of sock_set_event. */
  lemma OneShotOnce(s: Port, i: nat, j: nat, p: Ptr)
    requires Reached(s) && i < j < |s.log| && s.log[i].Delivered? && s.log[i].ptr == p
    requires Track(s.log[..i], p).Watching? && OneShot in Track(s.log[..i], p).event.events
    requires NoSet(s.log[i + 1..j], p)
    ensures s.log[j].ptr == p ==> !s.log[j].Delivered?
  {
    ReachedInv(s);
    TrackAt(s.log, i, p);
    StaysQuiet(s.log, i + 1, j, p);
    AllowedAt(s.log, j);
  }

  /** Between two releases of a record its address was set anew: no record is freed twice. */
  lemma FreedOnce(s: Port, i: nat, j: nat, p: Ptr)
    requires Reached(s) && i < j < |s.log| && s.log[i] == Freed(p) && s.log[j] == Freed(p)
    ensures exists k :: i < k < j && s.log[k] == Removed(p)
  {
    ReachedInv(s);
    if forall k :: i < k < j ==> s.log[k] != Removed(p) {
      TrackAt(s.log, i, p);
      AllowedAt(s.log, j);
      StaysHere(s.log, i + 1, j, p);
    }
  }

  lemma {:induction false} StaysHere(log: seq<Entry>, i: nat, j: nat, p: Ptr)
    requires i <= j <= |log| && (forall k :: i <= k < j ==> log[k] != Removed(p)) && !Track(log[..i], p).Gone?
    ensures !Track(log[..j], p).Gone?
    decreases j - i
  {
    if i < j {
      StaysHere(log, i, j - 1, p);
      TrackAt(log, j - 1, p);
    }
  }

  // ---------- the assertion in port_get_iocp_handle ----------

  /** The groups have no free slot, so that sock_new must make one. */
  predicate NeedsGroup(s: Port) {
    s.groups.queue == [] || PollGroups.Full(s.groups.size, s.groups.queue[|s.groups.queue| - 1])
  }

  lemma SetLate(s: Port, p: Ptr, e: Event, kernel: Kernel)
    requires Sound(s) && OthersSettled(s, p) && WaitersOk(s, 0, [])
    requires p in s.socks && !s.socks[p].deletePending && (s.socks[p].userEvents == {} || Settled(s, p))
    ensures UpdateIfPolling(SetEvent(s, p, e), kernel).late == s.late
  {
    SetEventSound(s, p, e);
    SetEventInv(s, p, e);
    UpdateEventsSound(SetEvent(s, p, e), kernel, 0, []);
  }

  lemma AcquireLate(s: Port, input: NewInput)
    ensures AcquireGroup(s, input).0.late <==> s.late || (!s.open && NeedsGroup(s))
  {
  }

  lemma NewSockLate(s: Port, socket: Socket, input: NewInput)
    ensures NewSock(s, socket, input).0.late <==>
      if socket == 0 || socket == INVALID_SOCKET || !input.hasBase then s.late else AcquireGroup(s, input).0.late
  {
  }

  /** The assertion fails exactly when a socket is added that needs a new group after the handle has been
      closed. */
  lemma AddLate(s: Port, socket: Socket, e: Event, input: NewInput, kernel: Kernel)
    requires Inv(s) && input.group !in s.groups.size && (input.memory.Some? ==> input.memory.value !in s.socks)
    ensures CtlAdd(s, socket, e, input, kernel).0.late <==>
      s.late || (!s.open && NeedsGroup(s) && input.hasBase && socket != 0 && socket != INVALID_SOCKET)
  {
    var (s1, p) := NewSock(s, socket, input);
    NewSockSound(s, socket, input);
    NewSockLate(s, socket, input);
    AcquireLate(s, input);
    if p.Some? { SetLate(s1, p.value, e, kernel); }
  }

  lemma ModLate(s: Port, socket: Socket, e: Event, kernel: Kernel)
    requires Inv(s)
    ensures CtlMod(s, socket, e, kernel).0.late == s.late
  {
    if socket in s.tree {
      assert Settled(s, s.tree[socket]);
      SetLate(s, s.tree[socket], e, kernel);
    }
  }

  lemma DelLate(s: Port, socket: Socket, kernel: Kernel)
    requires Inv(s)
    ensures CtlDel(s, socket, kernel).0.late == s.late
  {
    if socket in s.tree { DeleteSound(s, s.tree[socket], kernel); }
  }

  lemma LeaveLate(s: Port, t: Thread, again: bool, kernel: Kernel)
    requires Inv(s) && t in s.waiters
    ensures Step(s, DoLeave(t, again, kernel)).late == s.late
  {
    var (s1, es) := PollLeave(s, t);
    PollLeaveInv(s, t);
    WokenLate(s, t);
    if again && es == Some([]) {
      PollLate(s1, t, s.waiters[t].maxEvents, kernel);
    } else {
      UpdateEventsSound(s1, kernel, 0, []);
    }
  }

  /** No other step makes it fail. */
  lemma StepLate(s: Port, a: Action)
    requires Inv(s) && Enabled(s, a)
    ensures Step(s, a).late <==>
      s.late || (a.DoAdd? && !s.open && NeedsGroup(s) && a.input.hasBase && a.socket != 0 && a.socket != INVALID_SOCKET)
  {
    match a
    case DoAdd(socket, e, input, kernel) => AddLate(s, socket, e, input, kernel);
    case DoMod(socket, e, kernel) => ModLate(s, socket, e, kernel);
    case DoDel(socket, kernel) => DelLate(s, socket, kernel);
    case DoEnter(t, n, kernel) => PollLate(s, t, n, kernel);
    case DoComplete(p, result) =>
    case DoTake(t, batch) =>
    case DoLeave(t, again, kernel) => LeaveLate(s, t, again, kernel);
    case DoClose =>
  }

  lemma PollLate(s: Port, t: Thread, n: nat, kernel: Kernel)
    requires Inv(s) && t !in s.waiters
    ensures var (s1, done) := PollEnter(s, t, n, kernel);
      s1.late == s.late && UpdateIfPolling(s1, kernel).late == s.late
  {
    UpdateEventsSound(s, kernel, 0, []);
    PollEnterInv(s, t, n, kernel);
    UpdateEventsSound(PollEnter(s, t, n, kernel).0, kernel, 0, []);
  }

  lemma WokenLate(s: Port, t: Thread)
    requires Inv(s) && t in s.waiters
    ensures PollLeave(s, t).0.late == s.late
  {
    WaiterLeaves(s, t);
    OtherFields(s, Woken(s, t));
    FeedAllSound(Woken(s, t), t, BatchOf(s, t));
  }

  /** A run in which the assertion fails: the handle is closed while a thread is about to add a socket. */
  lemma LateRun()
    ensures exists s :: Reached(s) && s.late
  {
    var kernel := Kernel(_ => Accepted, _ => true);
    var a := DoAdd(1, Event({}, 0), NewInput(true, None, 0, true), kernel);
    var s := Step(EMPTY, DoClose);
    var s1 := Step(s, a);
    assert Run(s1, [], s1);
    assert [a][1..] == [];
    assert Run(s, [a], s1);
    assert [DoClose, a][1..] == [a];
    assert Run(EMPTY, [DoClose, a], s1);
    assert s1.late;
  }
}
