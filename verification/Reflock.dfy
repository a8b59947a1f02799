/** The reference and destroy protocol of epoll handles: any number of threads run epoll_wait,
    epoll_ctl and epoll_close on one handle, one atomic action at a time. */
module Reflock {
  import opened Options

  const WORD := 0x1_0000_0000       // the lock word is 32 bits wide
  const REF := 1
  const REF_LIMIT := 0x1000_0000    // the reference count has 28 bits
  const DESTROY := 0x1000_0000
  const POISON := 0x300d_ead0

  /** Where a thread stands; each value is the action it takes next. */
  datatype Pc =
    | Idle
    | UserFind      // in epoll_wait or epoll_ctl, tree lock held shared: look the handle up
    | UserRef       // found it: reflock_ref
    | UserUnlock    // give the tree lock back
    | UserLeave     // done with the port: reflock_unref
    | UserSignal    // dropped the last reference of a lock being destroyed: signal the event
    | UserMiss      // not found: give the tree lock back
    | CloserFind    // in epoll_close, tree lock held exclusively: look the handle up
    | CloserRef     // took the node out of the tree: reflock_ref
    | CloserUnlock  // give the tree lock back
    | CloserDestroy // port closed: reflock_unref_and_destroy
    | CloserAwait   // other references remain: wait for the event
    | CloserPoison  // alone: poison the lock word
    | CloserDelete  // delete and free the port
    | CloserMiss    // not found: give the tree lock back

  /** One port: is its node in the handle tree, the lock word, has it been freed, how many closes have
      succeeded, how often has a thread decided to signal the event, and to wait for it, and has every
      assertion held so far with no access to freed memory. */
  datatype Port = Port(inTree: bool, word: int, freed: bool, closes: nat, signals: nat, waits: nat, ok: bool)

  function Wrap(x: int): int { x % WORD }

  /** The word masked with REFLOCK__DESTROY_MASK, as a count of DESTROY bits. */
  function DestroyBits(word: int): int { word / DESTROY }

  function RefCount(word: int): int { word % DESTROY }

  /** InterlockedAdd on the lock word, followed by the assertion on the new value. */
  function Add(p: Port, delta: int, assertion: bool): Port {
    p.(word := Wrap(p.word + delta), ok := p.ok && assertion && !p.freed)
  }

  /** What a thread at `pc` does to the port, and where it goes; an idle thread starts epoll_close if
      `close`. */
  function Act(p: Port, pc: Pc, close: bool): (Port, Pc) {
    match pc
    case Idle => (p, if close then CloserFind else UserFind)
    case UserFind => (p, if p.inTree then UserRef else UserMiss)
    case UserMiss => (p, Idle)
    case UserRef => (Add(p, REF, DestroyBits(Wrap(p.word + REF)) == 0), UserUnlock)
    case UserUnlock => (p, UserLeave)
    case UserLeave =>
      var w := Wrap(p.word - REF);
      var p1 := Add(p, -REF, DestroyBits(w) <= 1);
      if w == DESTROY then (p1.(signals := p.signals + 1), UserSignal) else (p1, Idle)
    case UserSignal => (p, Idle)
    case CloserFind => if p.inTree then (p.(inTree := false), CloserRef) else (p, CloserMiss)
    case CloserMiss => (p, Idle)
    case CloserRef => (Add(p, REF, DestroyBits(Wrap(p.word + REF)) == 0), CloserUnlock)
    case CloserUnlock => (p, CloserDestroy)
    case CloserDestroy =>
      var w := Wrap(p.word + DESTROY - REF);
      var p1 := Add(p, DESTROY - REF, DestroyBits(w) == 1);
      if RefCount(w) != 0 then (p1.(waits := p.waits + 1), CloserAwait) else (p1, CloserPoison)
    case CloserPoison => (p.(word := POISON, ok := p.ok && p.word == DESTROY && !p.freed), CloserDelete)
    case CloserDelete => (p.(freed := true, closes := p.closes + 1, ok := p.ok && !p.freed), Idle)
    case CloserAwait => (p, CloserAwait)
  }

  // ---------- how many threads stand where ----------

  type Tally = Pc -> nat

  function Num(threads: seq<Pc>, pc: Pc): nat {
    if threads == [] then 0 else (if threads[0] == pc then 1 else 0) + Num(threads[1..], pc)
  }

  function TallyOf(threads: seq<Pc>): Tally {
    pc => Num(threads, pc)
  }

  /** Threads holding the tree lock shared, or exclusively. */
  function Shared(n: Tally): nat { n(UserFind) + n(UserRef) + n(UserUnlock) + n(UserMiss) }

  function Exclusive(n: Tally): nat { n(CloserFind) + n(CloserRef) + n(CloserUnlock) + n(CloserMiss) }

  /** Threads holding a reference. */
  function Holders(n: Tally): nat { n(UserUnlock) + n(UserLeave) + n(CloserUnlock) + n(CloserDestroy) }

  function Destroying(n: Tally): nat { n(CloserAwait) + n(CloserPoison) }

  /** Threads whose epoll_close took the node out of the tree and has not returned yet. */
  function Owners(n: Tally): nat {
    n(CloserRef) + n(CloserUnlock) + n(CloserDestroy) + Destroying(n) + n(CloserDelete)
  }

  // ---------- runs ----------

  datatype State = State(port: Port, threads: seq<Pc>)
  datatype Action = Action(t: nat, close: bool)

  /** Locks and the keyed event block; nothing else does. */
  predicate MayAct(n: Tally, pc: Pc, close: bool) {
    match pc
    case Idle => Exclusive(n) == 0 && (close ==> Shared(n) == 0)
    case UserSignal => n(CloserAwait) > 0  // NtReleaseKeyedEvent blocks until a thread waits
    case CloserAwait => false              // NtWaitForKeyedEvent: woken by the signal
    case _ => true
  }

  predicate Enabled(s: State, a: Action) {
    a.t < |s.threads| && MayAct(TallyOf(s.threads), s.threads[a.t], a.close)
  }

  /** A waiting thread is woken. */
  function Wake(threads: seq<Pc>): (r: seq<Pc>)
    ensures |r| == |threads|
  {
    if threads == [] then []
    else if threads[0] == CloserAwait then [CloserPoison] + threads[1..]
    else [threads[0]] + Wake(threads[1..])
  }

  function Step(s: State, a: Action): State
    requires Enabled(s, a)
  {
    var (p, pc) := Act(s.port, s.threads[a.t], a.close);
    State(p, (if s.threads[a.t] == UserSignal then Wake(s.threads) else s.threads)[a.t := pc])
  }

  function Start(n: nat): State {
    State(Port(true, 0, false, 0, 0, 0, true), seq(n, _ => Idle))
  }

  /** A run from the fresh port with `n` threads. */
  function Run(n: nat, actions: seq<Action>): (s: State)
    requires Runnable(n, actions)
    decreases |actions|, 1
  {
    if actions == [] then Start(n)
    else Step(Run(n, actions[..|actions| - 1]), actions[|actions| - 1])
  }

  predicate Runnable(n: nat, actions: seq<Action>)
    decreases |actions|, 0
  {
    actions == [] ||
    (Runnable(n, actions[..|actions| - 1]) &&
     Enabled(Run(n, actions[..|actions| - 1]), actions[|actions| - 1]))
  }

  /** Fewer than 2^28 references are held at every point of the run. */
  ghost predicate Bounded(n: nat, actions: seq<Action>)
    requires Runnable(n, actions)
    decreases |actions|
  {
    Holders(TallyOf(Run(n, actions).threads)) < REF_LIMIT &&
    (actions != [] ==> Bounded(n, actions[..|actions| - 1]))
  }

  // ---------- the invariant ----------

  /** The tree lock excludes as it should, and one closer owns a port that left the tree. */
  ghost predicate LockInv(p: Port, n: Tally) {
    && Exclusive(n) <= 1 && (Exclusive(n) == 1 ==> Shared(n) == 0)
    && (n(UserRef) > 0 ==> p.inTree) && (n(UserMiss) + n(CloserMiss) > 0 ==> !p.inTree)
    && (if p.inTree then Owners(n) == p.closes == 0 else Owners(n) + p.closes == 1)
  }

  /** The lock word counts the references, and exactly the thread that dropped the last reference
      under a waiting closer is about to signal. */
  ghost predicate WordInv(p: Port, n: Tally) {
    && p.ok && (p.freed <==> p.closes == 1)
    && p.waits <= (if Destroying(n) + n(CloserDelete) + p.closes == 0 then 0 else 1)
    && (if n(CloserAwait) == 1 then p.waits == 1 && p.signals == n(UserSignal) else p.signals == p.waits)
    && (if n(CloserDelete) + p.closes == 0 then p.word == Holders(n) + DESTROY * Destroying(n)
        else p.word == POISON && Holders(n) == 0)
    && (n(CloserPoison) > 0 ==> Holders(n) == 0)
    && n(UserSignal) == if n(CloserAwait) == 1 && Holders(n) == 0 then 1 else 0
  }

  ghost predicate Inv(p: Port, n: Tally) {
    LockInv(p, n) && WordInv(p, n)
  }

  /** One thread moved. */
  ghost predicate Moved(n: Tally, m: Tally, from: Pc, to: Pc) {
    n(from) > 0 &&
    forall pc :: m(pc) == n(pc) - (if from == pc then 1 else 0) + (if to == pc then 1 else 0)
  }

  lemma EnterLockInv(p: Port, n: Tally, m: Tally, pc: Pc, close: bool)
    requires Inv(p, n) && MayAct(n, pc, close) && Moved(n, m, pc, Act(p, pc, close).1)
    requires pc in {Idle, UserFind, CloserFind, UserMiss, CloserMiss}
    ensures LockInv(Act(p, pc, close).0, m)
  {
  }

  lemma LeaveLockInv(p: Port, n: Tally, m: Tally, pc: Pc, close: bool)
    requires Inv(p, n) && MayAct(n, pc, close) && Moved(n, m, pc, Act(p, pc, close).1)
    requires pc in {UserRef, UserUnlock, UserLeave}
    ensures LockInv(Act(p, pc, close).0, m)
  {
  }

  lemma CloserLockInv(p: Port, n: Tally, m: Tally, pc: Pc, close: bool)
    requires Inv(p, n) && MayAct(n, pc, close) && Moved(n, m, pc, Act(p, pc, close).1)
    requires pc in {CloserRef, CloserUnlock, CloserDestroy, CloserPoison, CloserDelete}
    ensures LockInv(Act(p, pc, close).0, m)
  {
  }

  lemma QuietWordInv(p: Port, n: Tally, m: Tally, pc: Pc, close: bool)
    requires Inv(p, n) && MayAct(n, pc, close) && Moved(n, m, pc, Act(p, pc, close).1)
    requires pc in {Idle, UserFind, CloserFind, UserMiss, CloserMiss, UserUnlock, CloserUnlock} &&
      Holders(n) < REF_LIMIT && Holders(m) < REF_LIMIT
    ensures WordInv(Act(p, pc, close).0, m)
  {
  }

  lemma RefWordInv(p: Port, n: Tally, m: Tally, pc: Pc, close: bool)
    requires Inv(p, n) && MayAct(n, pc, close) && Moved(n, m, pc, Act(p, pc, close).1)
    requires pc in {UserRef, CloserRef} && Holders(n) < REF_LIMIT && Holders(m) < REF_LIMIT
    ensures WordInv(Act(p, pc, close).0, m)
  {
    assert p.word == Holders(n);
  }

  lemma LeaveWordInv(p: Port, n: Tally, m: Tally, pc: Pc, close: bool)
    requires Inv(p, n) && MayAct(n, pc, close) && Moved(n, m, pc, Act(p, pc, close).1)
    requires pc in {UserLeave} && Holders(n) < REF_LIMIT && Holders(m) < REF_LIMIT
    ensures WordInv(Act(p, pc, close).0, m)
  {
    assert 0 <= Destroying(n) <= 1;
    assert p.word == Holders(n) + DESTROY * Destroying(n) && Holders(n) > 0;
    assert Wrap(p.word - REF) == Holders(n) - 1 + DESTROY * Destroying(n);
  }

  lemma DestroyWordInv(p: Port, n: Tally, m: Tally, pc: Pc, close: bool)
    requires Inv(p, n) && MayAct(n, pc, close) && Moved(n, m, pc, Act(p, pc, close).1)
    requires pc in {CloserDestroy} && Holders(n) < REF_LIMIT && Holders(m) < REF_LIMIT
    ensures WordInv(Act(p, pc, close).0, m)
  {
    assert p.word == Holders(n);
    assert RefCount(Wrap(p.word + DESTROY - REF)) == Holders(n) - 1;
  }

  lemma EndWordInv(p: Port, n: Tally, m: Tally, pc: Pc, close: bool)
    requires Inv(p, n) && MayAct(n, pc, close) && Moved(n, m, pc, Act(p, pc, close).1)
    requires pc in {CloserPoison, CloserDelete} && Holders(n) < REF_LIMIT && Holders(m) < REF_LIMIT
    ensures WordInv(Act(p, pc, close).0, m)
  {
  }

  lemma SignalInv(p: Port, n: Tally, k: Tally, m: Tally)
    requires Inv(p, n) && MayAct(n, UserSignal, false)
    requires Moved(n, k, CloserAwait, CloserPoison) && Moved(k, m, UserSignal, Idle)
    ensures Inv(Act(p, UserSignal, false).0, m)
  {
  }

  lemma ActInv(p: Port, n: Tally, m: Tally, pc: Pc, close: bool)
    requires Inv(p, n) && MayAct(n, pc, close) && Moved(n, m, pc, Act(p, pc, close).1) && pc != UserSignal
    requires Holders(n) < REF_LIMIT && Holders(m) < REF_LIMIT
    ensures Inv(Act(p, pc, close).0, m)
  {
    match pc
    case UserRef => LeaveLockInv(p, n, m, pc, close); RefWordInv(p, n, m, pc, close);
    case UserUnlock => LeaveLockInv(p, n, m, pc, close); QuietWordInv(p, n, m, pc, close);
    case UserLeave => LeaveLockInv(p, n, m, pc, close); LeaveWordInv(p, n, m, pc, close);
    case CloserRef => CloserLockInv(p, n, m, pc, close); RefWordInv(p, n, m, pc, close);
    case CloserUnlock => CloserLockInv(p, n, m, pc, close); QuietWordInv(p, n, m, pc, close);
    case CloserDestroy => CloserLockInv(p, n, m, pc, close); DestroyWordInv(p, n, m, pc, close);
    case CloserPoison => CloserLockInv(p, n, m, pc, close); EndWordInv(p, n, m, pc, close);
    case CloserDelete => CloserLockInv(p, n, m, pc, close); EndWordInv(p, n, m, pc, close);
    case _ => EnterLockInv(p, n, m, pc, close); QuietWordInv(p, n, m, pc, close);
  }

  // ---------- counting threads ----------

  lemma {:induction false} NumUpdate(threads: seq<Pc>, t: nat, to: Pc, pc: Pc)
    requires t < |threads|
    ensures Num(threads[t := to], pc) ==
      Num(threads, pc) - (if threads[t] == pc then 1 else 0) + (if to == pc then 1 else 0)
    ensures Num(threads, threads[t]) > 0
  {
    if t == 0 {
      assert threads[t := to][1..] == threads[1..];
    } else {
      assert threads[t := to][1..] == threads[1..][t - 1 := to];
      NumUpdate(threads[1..], t - 1, to, pc);
    }
  }

  lemma TallyMoved(threads: seq<Pc>, t: nat, to: Pc)
    requires t < |threads|
    ensures Moved(TallyOf(threads), TallyOf(threads[t := to]), threads[t], to)
  {
    NumUpdate(threads, t, to, to);
    forall pc {
      NumUpdate(threads, t, to, pc);
    }
  }

  lemma {:induction false} WakeNum(threads: seq<Pc>, pc: Pc)
    requires Num(threads, CloserAwait) > 0
    ensures Num(Wake(threads), pc) ==
      Num(threads, pc) - (if pc == CloserAwait then 1 else 0) + (if pc == CloserPoison then 1 else 0)
  {
    if threads[0] != CloserAwait {
      WakeNum(threads[1..], pc);
    }
  }

  lemma TallyWoken(threads: seq<Pc>)
    requires Num(threads, CloserAwait) > 0
    ensures Moved(TallyOf(threads), TallyOf(Wake(threads)), CloserAwait, CloserPoison)
  {
    forall pc {
      WakeNum(threads, pc);
    }
  }

  lemma {:induction false} WakeOthers(threads: seq<Pc>, t: nat)
    requires t < |threads| && threads[t] != CloserAwait
    ensures Wake(threads)[t] == threads[t]
  {
    if t > 0 && threads[0] != CloserAwait {
      WakeOthers(threads[1..], t - 1);
    }
  }

  lemma {:induction false} StartNum(n: nat, pc: Pc)
    ensures Num(seq(n, _ => Idle), pc) == if pc == Idle then n else 0
  {
    if n > 0 {
      assert seq(n, _ => Idle)[1..] == seq(n - 1, _ => Idle);
      StartNum(n - 1, pc);
    }
  }

  lemma {:induction false} NumPositive(threads: seq<Pc>, t: nat)
    requires t < |threads|
    ensures TallyOf(threads)(threads[t]) > 0
  {
    NumUpdate(threads, t, Idle, Idle);
  }

  lemma {:induction false} Somewhere(threads: seq<Pc>, pc: Pc) returns (t: nat)
    requires Num(threads, pc) > 0
    ensures t < |threads| && threads[t] == pc
  {
    if threads[0] == pc {
      t := 0;
    } else {
      t := Somewhere(threads[1..], pc);
      t := t + 1;
    }
  }

  // ---------- every run ----------

  lemma StartInv(n: nat)
    ensures Inv(Start(n).port, TallyOf(Start(n).threads))
  {
    forall pc
      ensures TallyOf(Start(n).threads)(pc) == if pc == Idle then n else 0
    {
      StartNum(n, pc);
    }
  }

  lemma StepInv(s: State, a: Action)
    requires Inv(s.port, TallyOf(s.threads)) && Enabled(s, a)
    requires Holders(TallyOf(s.threads)) < REF_LIMIT && Holders(TallyOf(Step(s, a).threads)) < REF_LIMIT
    ensures Inv(Step(s, a).port, TallyOf(Step(s, a).threads))
  {
    var pc := s.threads[a.t];
    var (_, to) := Act(s.port, pc, a.close);
    if pc == UserSignal {
      TallyWoken(s.threads);
      WakeOthers(s.threads, a.t);
      TallyMoved(Wake(s.threads), a.t, to);
      SignalInv(s.port, TallyOf(s.threads), TallyOf(Wake(s.threads)), TallyOf(Step(s, a).threads));
    } else {
      TallyMoved(s.threads, a.t, to);
      ActInv(s.port, TallyOf(s.threads), TallyOf(Step(s, a).threads), pc, a.close);
    }
  }

  /** Every state of every run satisfies the invariant. */
  lemma {:induction false} RunInv(n: nat, actions: seq<Action>)
    requires Runnable(n, actions) && Bounded(n, actions)
    ensures var s := Run(n, actions); Inv(s.port, TallyOf(s.threads)) && |s.threads| == n
    decreases |actions|
  {
    if actions == [] {
      StartInv(n);
    } else {
      var before := actions[..|actions| - 1];
      RunInv(n, before);
      StepInv(Run(n, before), actions[|actions| - 1]);
    }
  }

  // ---------- what the protocol promises ----------

  /** All assertions hold and freed memory is never touched; at most one epoll_close succeeds; a thread
      decides to signal at most once, and only if the closer has decided to wait; and when no closer waits
      (any more), signals and waits are equally many. */
  lemma Safety(n: nat, actions: seq<Action>)
    requires Runnable(n, actions) && Bounded(n, actions)
    ensures var s := Run(n, actions);
      s.port.ok && s.port.closes + Owners(TallyOf(s.threads)) <= 1 && s.port.signals <= s.port.waits <= 1 &&
      (TallyOf(s.threads)(CloserAwait) == 0 ==> s.port.signals == s.port.waits)
  {
    RunInv(n, actions);
  }

  /** When reflock_unref_and_destroy is past its wait, no thread holds a reference, is about to take
      one, or still has to signal; the same holds when the port is freed and ever after. */
  lemma DestroyIsExclusive(n: nat, actions: seq<Action>, t: nat, u: nat)
    requires Runnable(n, actions) && Bounded(n, actions)
    requires t < |Run(n, actions).threads| && u < |Run(n, actions).threads|
    requires Run(n, actions).threads[t] in {CloserPoison, CloserDelete} || Run(n, actions).port.freed
    ensures Run(n, actions).threads[u] !in
      {UserRef, UserUnlock, UserLeave, UserSignal, CloserRef, CloserUnlock, CloserDestroy}
  {
    RunInv(n, actions);
    var th := Run(n, actions).threads;
    NumPositive(th, t);
    NumPositive(th, u);
  }

  /** A waiting closer is never forgotten: another thread still holds a reference, or is about to
      signal; and a signalling thread always has the closer to meet. */
  lemma NoLostWakeup(n: nat, actions: seq<Action>)
    requires Runnable(n, actions) && Bounded(n, actions)
    ensures var k := TallyOf(Run(n, actions).threads);
      (k(CloserAwait) > 0 ==> Holders(k) > 0 || k(UserSignal) > 0) &&
      (k(UserSignal) > 0 ==> k(CloserAwait) > 0)
  {
    RunInv(n, actions);
  }

  /** The bound on references is exact: the assertion in reflock_ref holds precisely when the new
      reference keeps within it. */
  lemma RefBoundExact(p: Port, n: Tally, m: Tally)
    requires Inv(p, n) && Holders(n) < REF_LIMIT && Moved(n, m, UserRef, UserUnlock)
    ensures Act(p, UserRef, false).0.ok <==> Holders(m) < REF_LIMIT
  {
    assert p.word == Holders(n);
  }

  // ---------- what a call does from start to end ----------

  /** What is known of a thread's latest call: is it epoll_close, was the node in the tree when it was looked
      up, and has the thread held a reference since the call began. */
  datatype Call = NoCall | Call(close: bool, found: Option<bool>, held: bool)

  predicate Holding(pc: Pc) { pc in {UserUnlock, UserLeave, CloserUnlock, CloserDestroy} }

  /** The thread at `pc` takes a step, which leads it to `to`. */
  function Advanced(c: Call, pc: Pc, close: bool, inTree: bool, to: Pc): Call {
    if pc == Idle then Call(close, None, false)
    else if c.NoCall? then c
    else c.(found := if c.found.None? then Some(inTree) else c.found, held := c.held || Holding(to))
  }

  function CallAfter(c: Call, s: State, a: Action, t: nat): Call
    requires Enabled(s, a)
  {
    if a.t != t then c else Advanced(c, s.threads[t], a.close, s.port.inTree, Step(s, a).threads[t])
  }

  function CallOf(n: nat, actions: seq<Action>, t: nat): Call
    requires Runnable(n, actions)
    decreases |actions|
  {
    if actions == [] then NoCall
    else
      var a, before := actions[|actions| - 1], actions[..|actions| - 1];
      CallAfter(CallOf(n, before, t), Run(n, before), a, t)
  }

  /** What must be known of the call of a thread that stands at `pc`. */
  ghost predicate Stage(c: Call, pc: Pc, p: Port) {
    match pc
    case Idle =>
      c.NoCall? ||
      (c.found.Some? && c.held == c.found.value && (c.close && c.held ==> p.freed && p.closes == 1) &&
       (!c.held ==> !p.inTree))
    case UserFind => c == Call(false, None, false)
    case CloserFind => c == Call(true, None, false)
    case UserMiss => c == Call(false, Some(false), false)
    case CloserMiss => c == Call(true, Some(false), false)
    case UserRef => c == Call(false, Some(true), false)
    case CloserRef => c == Call(true, Some(true), false)
    case UserUnlock | UserLeave | UserSignal => c == Call(false, Some(true), true)
    case _ => c == Call(true, Some(true), true)
  }

  /** What stays as it is, whatever a thread does. */
  lemma ActKeeps(p: Port, n: Tally, pc: Pc, close: bool)
    requires Inv(p, n) && MayAct(n, pc, close) && n(pc) > 0
    ensures var p1 := Act(p, pc, close).0; (!p.inTree ==> !p1.inTree) && (p.freed ==> p1.freed && p1.closes == 1)
  {
  }

  lemma ActStage(p: Port, n: Tally, c: Call, pc: Pc, close: bool)
    requires Inv(p, n) && MayAct(n, pc, close) && n(pc) > 0 && Stage(c, pc, p)
    ensures var (p1, pc1) := Act(p, pc, close);
      Stage(Advanced(c, pc, close, p.inTree, pc1), pc1, p1)
  {
  }

  lemma WokenStage(threads: seq<Pc>, t: nat)
    requires t < |threads|
    ensures Wake(threads)[t] == threads[t] || (threads[t] == CloserAwait && Wake(threads)[t] == CloserPoison)
  {
    if threads[t] != CloserAwait { WakeOthers(threads, t); } else if t > 0 && threads[0] != CloserAwait {
      WokenStage(threads[1..], t - 1);
    }
  }

  lemma OtherStage(p: Port, p1: Port, c: Call, pc: Pc, pc1: Pc)
    requires Stage(c, pc, p) && (!p.inTree ==> !p1.inTree) && (p.freed ==> p1.freed && p1.closes == 1)
    requires pc1 == pc || (pc == CloserAwait && pc1 == CloserPoison)
    ensures Stage(c, pc1, p1)
  {
  }

  lemma StepStage(s: State, a: Action, t: nat, c: Call)
    requires Inv(s.port, TallyOf(s.threads)) && Enabled(s, a) && t < |s.threads| && Stage(c, s.threads[t], s.port)
    ensures Stage(CallAfter(c, s, a, t), Step(s, a).threads[t], Step(s, a).port)
  {
    var pc := s.threads[a.t];
    NumPositive(s.threads, a.t);
    if a.t == t {
      if pc == UserSignal { WakeOthers(s.threads, t); }
      ActStage(s.port, TallyOf(s.threads), c, pc, a.close);
    } else {
      ActKeeps(s.port, TallyOf(s.threads), pc, a.close);
      WokenStage(s.threads, t);
      OtherStage(s.port, Step(s, a).port, c, s.threads[t], Step(s, a).threads[t]);
    }
  }

  /** Every thread's call is at the stage that its history says. */
  lemma {:induction false} CallsDoTheirWork(n: nat, actions: seq<Action>, t: nat)
    requires Runnable(n, actions) && Bounded(n, actions) && t < n
    ensures |Run(n, actions).threads| == n
    ensures Stage(CallOf(n, actions, t), Run(n, actions).threads[t], Run(n, actions).port)
    decreases |actions|
  {
    RunInv(n, actions);
    if actions != [] {
      var before := actions[..|actions| - 1];
      RunInv(n, before);
      CallsDoTheirWork(n, before, t);
      StepStage(Run(n, before), actions[|actions| - 1], t, CallOf(n, before, t));
    }
  }

  /** And every step of a thread belongs to a call. */
  lemma {:induction false} CallsBegin(n: nat, actions: seq<Action>, i: nat)
    requires Runnable(n, actions) && Bounded(n, actions) && i < |actions|
    ensures actions[i].t < n && !CallOf(n, actions, actions[i].t).NoCall?
    decreases |actions|
  {
    var a, before := actions[|actions| - 1], actions[..|actions| - 1];
    RunInv(n, before);
    if i < |actions| - 1 {
      CallsBegin(n, before, i);
    } else {
      CallsDoTheirWork(n, before, a.t);
    }
  }

  /** Every call that has returned looked the handle up. If the node was not in the tree, the call held no
      reference, and the node is not in the tree any more; if it was, the call held a reference, and when it was
      epoll_close, the port has been deleted. */
  lemma CallReturned(n: nat, actions: seq<Action>, i: nat)
    requires Runnable(n, actions) && Bounded(n, actions) && i < |actions|
    requires actions[i].t < |Run(n, actions).threads| && Run(n, actions).threads[actions[i].t] == Idle
    ensures var c, p := CallOf(n, actions, actions[i].t), Run(n, actions).port;
      c.Call? && c.found.Some? && c.held == c.found.value &&
      (if c.held then c.close ==> p.freed && p.closes == 1 else !p.inTree)
  {
    CallsBegin(n, actions, i);
    CallsDoTheirWork(n, actions, actions[i].t);
  }

  lemma {:induction false} NoCloseCall(n: nat, actions: seq<Action>, t: nat)
    requires Runnable(n, actions) && forall i :: 0 <= i < |actions| ==> !actions[i].close
    ensures var c := CallOf(n, actions, t); c.Call? ==> !c.close
    decreases |actions|
  {
    if actions != [] { NoCloseCall(n, actions[..|actions| - 1], t); }
  }

  /** Nothing but epoll_close takes the port out of the tree or deletes it. */
  lemma {:induction false} OnlyCloseCloses(n: nat, actions: seq<Action>)
    requires Runnable(n, actions) && Bounded(n, actions) && forall i :: 0 <= i < |actions| ==> !actions[i].close
    ensures var p := Run(n, actions).port; p.inTree && !p.freed && p.closes == 0
    decreases |actions|
  {
    RunInv(n, actions);
    if actions != [] {
      var a, before := actions[|actions| - 1], actions[..|actions| - 1];
      OnlyCloseCloses(n, before);
      RunInv(n, before);
      CallsDoTheirWork(n, before, a.t);
      NoCloseCall(n, before, a.t);
    }
  }

  /** Action `i` begins an epoll_close. */
  ghost predicate Begins(n: nat, actions: seq<Action>, i: nat) {
    i < |actions| && actions[i].close && Runnable(n, actions[..i]) &&
    actions[i].t < |Run(n, actions[..i]).threads| && Run(n, actions[..i]).threads[actions[i].t] == Idle
  }

  lemma {:induction false} CloseBegun(n: nat, actions: seq<Action>, i: nat)
    requires Runnable(n, actions) && Bounded(n, actions) && Begins(n, actions, i)
    ensures var s := Run(n, actions); Num(s.threads, CloserFind) > 0 || !s.port.inTree
    decreases |actions|
  {
    var a, before := actions[|actions| - 1], actions[..|actions| - 1];
    var s := Run(n, before);
    var pc := s.threads[a.t];
    var to := Act(s.port, pc, a.close).1;
    RunInv(n, before);
    NumPositive(s.threads, a.t);
    if i < |actions| - 1 {
      assert before[..i] == actions[..i];
      CloseBegun(n, before, i);
      ActKeeps(s.port, TallyOf(s.threads), pc, a.close);
    } else {
      assert before == actions[..i];
    }
    if pc == UserSignal {
      TallyWoken(s.threads);
      WakeOthers(s.threads, a.t);
      NumUpdate(Wake(s.threads), a.t, to, CloserFind);
    } else {
      NumUpdate(s.threads, a.t, to, CloserFind);
    }
  }

  lemma {:induction false} AllIdle(threads: seq<Pc>, pc: Pc)
    requires pc != Idle && forall t :: 0 <= t < |threads| ==> threads[t] == Idle
    ensures Num(threads, pc) == 0
    decreases |threads|
  {
    if threads != [] { AllIdle(threads[1..], pc); }
  }

  /** Once an epoll_close has begun, and all calls have returned, the port is out of the tree, and exactly one
      epoll_close has deleted it. */
  lemma ClosedInTheEnd(n: nat, actions: seq<Action>, i: nat)
    requires Runnable(n, actions) && Bounded(n, actions) && Begins(n, actions, i)
    requires forall t :: 0 <= t < |Run(n, actions).threads| ==> Run(n, actions).threads[t] == Idle
    ensures var p := Run(n, actions).port; !p.inTree && p.freed && p.closes == 1 && p.word == POISON
  {
    RunInv(n, actions);
    CloseBegun(n, actions, i);
    forall pc | pc != Idle ensures TallyOf(Run(n, actions).threads)(pc) == 0 {
      AllIdle(Run(n, actions).threads, pc);
    }
  }

  /** Steps left in the call a thread is in. */
  function Rank(pc: Pc): nat {
    match pc
    case Idle => 0
    case UserFind => 5
    case UserRef => 4
    case UserUnlock => 3
    case UserLeave => 2
    case UserSignal => 1
    case UserMiss => 1
    case CloserFind => 7
    case CloserRef => 6
    case CloserUnlock => 5
    case CloserDestroy => 4
    case CloserAwait => 3
    case CloserPoison => 2
    case CloserDelete => 1
    case CloserMiss => 1
  }

  function TotalRank(threads: seq<Pc>): nat {
    if threads == [] then 0 else Rank(threads[0]) + TotalRank(threads[1..])
  }

  lemma {:induction false} TotalRankUpdate(threads: seq<Pc>, t: nat, to: Pc)
    requires t < |threads|
    ensures TotalRank(threads[t := to]) == TotalRank(threads) - Rank(threads[t]) + Rank(to)
  {
    if t == 0 {
      assert threads[t := to][1..] == threads[1..];
    } else {
      assert threads[t := to][1..] == threads[1..][t - 1 := to];
      TotalRankUpdate(threads[1..], t - 1, to);
    }
  }

  lemma {:induction false} WakeRank(threads: seq<Pc>)
    ensures TotalRank(Wake(threads)) <= TotalRank(threads)
  {
    if threads != [] && threads[0] != CloserAwait {
      WakeRank(threads[1..]);
    }
  }

  /** No deadlock: while any call is in progress, some thread inside a call can take a step. */
  lemma Progress(n: nat, actions: seq<Action>, t: nat) returns (a: Action)
    requires Runnable(n, actions) && Bounded(n, actions)
    requires t < |Run(n, actions).threads| && Run(n, actions).threads[t] != Idle
    ensures Enabled(Run(n, actions), a) && Run(n, actions).threads[a.t] != Idle
  {
    RunInv(n, actions);
    var th := Run(n, actions).threads;
    NumPositive(th, t);
    var u := t;
    if th[t] == CloserAwait {
      if Num(th, UserSignal) > 0 {
        u := Somewhere(th, UserSignal);
      } else if Num(th, UserUnlock) > 0 {
        u := Somewhere(th, UserUnlock);
      } else {
        u := Somewhere(th, UserLeave);
      }
    }
    a := Action(u, false);
  }

  /** And every step inside a call brings the calls in progress closer to their end, so that once no
      call starts any more they all return. */
  lemma StepsRunOut(s: State, a: Action)
    requires Enabled(s, a) && s.threads[a.t] != Idle
    ensures TotalRank(Step(s, a).threads) < TotalRank(s.threads)
  {
    var (_, to) := Act(s.port, s.threads[a.t], a.close);
    if s.threads[a.t] == UserSignal {
      WakeOthers(s.threads, a.t);
      WakeRank(s.threads);
      TotalRankUpdate(Wake(s.threads), a.t, to);
    } else {
      TotalRankUpdate(s.threads, a.t, to);
    }
  }
}
