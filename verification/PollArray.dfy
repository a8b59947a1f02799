/** The poll array of a reactor context: sockets are appended, removed lazily, and the array is
    compacted in place after each round, while every socket keeps the index of its slot. */
module PollArray {

  const SIZE_MAX := 0xffff_ffff_ffff_ffff
  const UINT32_MAX := 0xffff_ffff

  datatype Flag = PollIn | PollOut | PollErr | Other(bit: nat)

  /** struct pollfd. */
  datatype PollFd = PollFd(fd: int, events: set<Flag>, revents: set<Flag>)

  /** dap_events_socket_t, as far as the poll array is concerned. */
  class Socket {
    const socket: int
    const base: set<Flag>
    var readyToRead: bool
    var readyToWrite: bool
    var connecting: bool
    var pollIndex: nat
    var attached: bool

    constructor (socket: int, base: set<Flag>)
      ensures this.socket == socket && this.base == base && !attached
      ensures !readyToRead && !readyToWrite && !connecting
    {
      this.socket, this.base := socket, base;
      readyToRead, readyToWrite, connecting, pollIndex, attached := false, false, false, 0, false;
    }
  }

  /** The events a socket waits for. */
  function Wanted(base: set<Flag>, read: bool, write: bool): set<Flag> {
    base + (if read then {PollIn} else {}) + (if write then {PollOut} else {})
  }

  // ---------- slots ----------

  /** One slot of the two parallel arrays. */
  datatype Slot = Slot(poll: PollFd, owner: Socket?)

  function Zip(polls: seq<PollFd>, owners: seq<Socket?>): (r: seq<Slot>)
    requires |polls| == |owners|
    ensures |r| == |polls| && forall k :: 0 <= k < |r| ==> r[k] == Slot(polls[k], owners[k])
  {
    seq(|polls|, k requires 0 <= k < |polls| => Slot(polls[k], owners[k]))
  }

  lemma ZipDrop(p: seq<PollFd>, e: seq<Socket?>, i: nat)
    requires |p| == |e| && i < |p|
    ensures Zip(p[..i] + p[i + 1..], e[..i] + e[i + 1..]) == Zip(p, e)[..i] + Zip(p, e)[i + 1..]
  {
  }

  ghost function Owners(owners: seq<Socket?>): set<Socket> { set s: Socket | s in owners }

  /** The slots that are in use, in order. */
  function Live(slots: seq<Slot>): seq<Slot> {
    if slots == [] then []
    else Live(slots[..|slots| - 1]) + (if slots[|slots| - 1].poll.fd == -1 then [] else [slots[|slots| - 1]])
  }

  lemma LiveSnoc(slots: seq<Slot>, x: Slot)
    ensures Live(slots + [x]) == Live(slots) + (if x.poll.fd == -1 then [] else [x])
  {
    assert (slots + [x])[..|slots|] == slots;
  }

  lemma {:induction false} LiveParts(a: seq<Slot>, b: seq<Slot>)
    ensures Live(a + b) == Live(a) + Live(b)
  {
    if b == [] {
      assert a + b == a;
    } else {
      var c := b[..|b| - 1];
      assert a + b == (a + c) + [b[|b| - 1]] && b == c + [b[|b| - 1]];
      LiveSnoc(a + c, b[|b| - 1]);
      LiveSnoc(c, b[|b| - 1]);
      LiveParts(a, c);
    }
  }

  lemma {:induction false} AllLive(slots: seq<Slot>)
    requires forall k :: 0 <= k < |slots| ==> slots[k].poll.fd != -1
    ensures Live(slots) == slots
  {
    if slots != [] {
      AllLive(slots[..|slots| - 1]);
      assert slots[..|slots| - 1] + [slots[|slots| - 1]] == slots;
    }
  }

  lemma Rejoined<T>(s: seq<T>, i: nat)
    requires i < |s|
    ensures s[..i] + ([s[i]] + s[i + 1..]) == s
  {
  }

  lemma DeadFirst(x: Slot, b: seq<Slot>)
    requires x.poll.fd == -1
    ensures Live([x] + b) == Live(b)
  {
    LiveParts([x], b);
    LiveSnoc([], x);
    assert [] + [x] == [x];
    assert [] + Live(b) == Live(b);
  }

  /** Taking out a slot that is not in use changes nothing about those that are. */
  lemma DropDead(slots: seq<Slot>, i: nat)
    requires i < |slots| && slots[i].poll.fd == -1
    ensures Live(slots[..i] + slots[i + 1..]) == Live(slots)
  {
    var a, b := slots[..i], slots[i + 1..];
    DeadFirst(slots[i], b);
    LiveParts(a, [slots[i]] + b);
    LiveParts(a, b);
    Rejoined(slots, i);
  }

  lemma OwnersSnoc(owners: seq<Socket?>, s: Socket)
    ensures Owners(owners + [s]) == Owners(owners) + {s}
  {
  }

  lemma OwnersWithout(owners: seq<Socket?>, i: nat)
    requires i < |owners| && owners[i] != null && forall k :: 0 <= k < |owners| && k != i ==> owners[k] != owners[i]
    ensures Owners(owners[i := null]) == Owners(owners) - {owners[i]}
  {
    forall s: Socket | s in Owners(owners) - {owners[i]}
      ensures s in owners[i := null]
    {
      var k :| 0 <= k < |owners| && owners[k] == s;
      assert owners[i := null][k] == s;
    }
  }

  /** `s` with the elements after `i` up to `j` moved down by one. */
  function Shifted<T>(s: seq<T>, i: nat, j: nat): (r: seq<T>)
    requires i <= j < |s|
    ensures |r| == |s|
  {
    s[..i] + s[i + 1..j + 1] + s[j..]
  }

  lemma ShiftedOn<T>(s: seq<T>, i: nat, j: nat)
    requires i <= j && j + 1 < |s|
    ensures Shifted(s, i, j)[j + 1] == s[j + 1]
    ensures Shifted(s, i, j)[j := s[j + 1]] == Shifted(s, i, j + 1)
  {
  }

  lemma DropNull(owners: seq<Socket?>, i: nat)
    requires i < |owners| && owners[i] == null
    ensures Owners(owners[..i] + owners[i + 1..]) == Owners(owners)
  {
    assert owners == owners[..i] + [owners[i]] + owners[i + 1..];
  }

  // ---------- the context ----------

  class Context {
    var poll: array<PollFd>
    var pollEsocket: array<Socket?>
    var pollCount: nat
    var pollCountMax: nat
    var pollCompress: bool
    ghost var sockets: set<Socket>   // the attached ones

    ghost predicate Arrays()
      reads this
    {
      poll.Length == pollEsocket.Length == pollCountMax > 0 && pollCount <= pollCountMax && pollCount <= UINT32_MAX
    }

    /** A slot has a descriptor and the socket it belongs to, whose index is that of the slot, or neither. */
    ghost predicate SlotOk(k: int)
      requires Arrays() && 0 <= k < pollCount
      reads this, poll, pollEsocket, pollEsocket[k]
    {
      if pollEsocket[k] == null then poll[k].fd == -1
      else
        pollEsocket[k].pollIndex == k && pollEsocket[k].attached && poll[k].fd == pollEsocket[k].socket != -1
    }

    /** Every slot is as it should be, every attached socket has one, and all slots are live unless the
        array is to be compacted. */
    ghost predicate Valid()
      reads this, poll, pollEsocket, pollEsocket[..]
    {
      && Arrays() && sockets == Owners(pollEsocket[..pollCount])
      && (forall k {:trigger SlotOk(k)} {:trigger pollEsocket[k]} :: 0 <= k < pollCount ==> SlotOk(k))
      && (!pollCompress ==> forall k :: 0 <= k < pollCount ==> pollEsocket[k] != null)
    }

    /** The index of an attached socket leads to its own descriptor and to itself. */
    lemma IndexLeadsBack(s: Socket)
      requires Valid() && s in sockets
      ensures s.attached && s.pollIndex < pollCount && pollEsocket[s.pollIndex] == s &&
        poll[s.pollIndex].fd == s.socket != -1
    {
      var k :| 0 <= k < pollCount && pollEsocket[..pollCount][k] == s;
      assert SlotOk(k);
    }

    ghost function Slots(): (r: seq<Slot>)
      requires Arrays()
      reads this, poll, pollEsocket
    {
      Zip(poll[..pollCount], pollEsocket[..pollCount])
    }

    constructor (max: nat)
      requires max > 0
      ensures Valid() && Slots() == [] && sockets == {} && !pollCompress && fresh(poll) && fresh(pollEsocket)
    {
      poll := new PollFd[max](_ => PollFd(0, {}, {}));
      pollEsocket := new Socket?[max](_ => null);
      pollCount, pollCountMax, pollCompress, sockets := 0, max, false, {};
    }

    /** Doubles both arrays. */
    method Grow()
      requires Valid()
      modifies this`poll, this`pollEsocket, this`pollCountMax
      ensures Arrays() && pollCountMax == 2 * old(pollCountMax) && Valid() && fresh(poll) && fresh(pollEsocket)
      ensures Slots() == old(Slots())
    {
      pollCountMax := pollCountMax * 2;
      var poll1 := new PollFd[pollCountMax](_ => PollFd(0, {}, {}));
      var esocket1 := new Socket?[pollCountMax](_ => null);
      forall k | 0 <= k < pollCount {
        poll1[k] := poll[k];
      }
      forall k | 0 <= k < pollCount {
        esocket1[k] := pollEsocket[k];
      }
      assert esocket1[..pollCount] == pollEsocket[..pollCount] && poll1[..pollCount] == poll[..pollCount];
      poll, pollEsocket := poll1, esocket1;
      forall k | 0 <= k < pollCount
        ensures SlotOk(k)
        ensures pollEsocket[k] == old(pollEsocket[k])
      {
        assert old(SlotOk(k)) && old(pollEsocket[k]) == pollEsocket[k] && old(poll[k]) == poll[k];
      }
      assert pollEsocket[..pollCount] == old(pollEsocket[..pollCount]);
    }

    /** dap_context_add: appends the socket, whose index is that of the new slot. */
    method Add(s: Socket)
      requires Valid() && !s.attached && s !in sockets && s.socket != -1 && pollCount < UINT32_MAX
      modifies this, poll, pollEsocket, s`pollIndex, s`attached
      ensures Valid() && sockets == old(sockets) + {s} && s.pollIndex == old(pollCount)
      ensures (poll == old(poll) || fresh(poll)) && (pollEsocket == old(pollEsocket) || fresh(pollEsocket))
      ensures pollCount == old(pollCount) + 1 && Slots()[..old(pollCount)] == old(Slots())
      ensures pollEsocket[old(pollCount)] == s && poll[old(pollCount)].fd == s.socket &&
              poll[old(pollCount)].events == Wanted(s.base, s.readyToRead, s.readyToWrite || s.connecting)
    {
      if pollCount == pollCountMax { Grow(); }
      Append(s);
    }

    method Append(s: Socket)
      requires Valid() && !s.attached && s !in sockets && s.socket != -1 && pollCount < pollCountMax &&
        pollCount < UINT32_MAX
      modifies this`pollCount, this`sockets, poll, pollEsocket, s`pollIndex, s`attached
      ensures Valid() && sockets == old(sockets) + {s} && s.pollIndex == old(pollCount)
      ensures pollCount == old(pollCount) + 1 && Slots()[..old(pollCount)] == old(Slots())
      ensures pollEsocket[old(pollCount)] == s && poll[old(pollCount)].fd == s.socket &&
              poll[old(pollCount)].events == Wanted(s.base, s.readyToRead, s.readyToWrite || s.connecting)
    {
      ghost var e := pollEsocket[..pollCount];
      var events := s.base;
      if s.readyToRead { events := events + {PollIn}; }
      if s.readyToWrite || s.connecting { events := events + {PollOut}; }
      poll[pollCount] := poll[pollCount].(fd := s.socket, events := events);
      s.pollIndex := pollCount;
      pollEsocket[pollCount] := s;
      pollCount := pollCount + 1;
      s.attached := true;
      OwnersSnoc(e, s);
      assert pollEsocket[..pollCount] == e + [s];
      sockets := sockets + {s};
    }

    /** dap_context_remove: the slot stays, without a descriptor, until the array is compacted. */
    method Remove(s: Socket) returns (ok: bool)
      requires Valid() && s in sockets
      modifies this, poll, pollEsocket, s`attached
      ensures ok && Valid() && sockets == old(sockets) - {s} && pollCompress && !s.attached
      ensures Slots() == old(Slots()[s.pollIndex := Slot(poll[s.pollIndex].(fd := -1), null)])
      ensures poll == old(poll) && pollEsocket == old(pollEsocket)
    {
      IndexLeadsBack(s);
      ghost var e := pollEsocket[..pollCount];
      assert forall k :: 0 <= k < pollCount ==> SlotOk(k) && e[k] == pollEsocket[k];
      OwnersWithout(e, s.pollIndex);
      ok := s.pollIndex < pollCount;
      if ok {
        poll[s.pollIndex] := poll[s.pollIndex].(fd := -1);
        pollEsocket[s.pollIndex] := null;
        pollCompress := true;
      }
      assert pollEsocket[..pollCount] == e[s.pollIndex := null];
      s.attached := false;
      sockets := sockets - {s};
    }

    /** dap_context_poll_update of an attached socket: its own slot gets the events it waits for. */
    method PollUpdate(s: Socket) returns (ok: bool)
      requires Valid() && s in sockets
      modifies poll
      ensures ok && Valid()
      ensures Slots() == old(Slots()[s.pollIndex := Slot(
                poll[s.pollIndex].(events := Wanted(s.base + {PollErr}, s.readyToRead, s.readyToWrite ||
                  s.connecting)), s)])
    {
      IndexLeadsBack(s);
      if s.pollIndex >= pollCount { return false; }
      var events := s.base + {PollErr};
      if s.readyToRead { events := events + {PollIn}; }
      if s.readyToWrite || s.connecting { events := events + {PollOut}; }
      assert events == Wanted(s.base + {PollErr}, s.readyToRead, s.readyToWrite || s.connecting);
      poll[s.pollIndex] := poll[s.pollIndex].(events := events);
      return true;
    }

    // ---------- compaction ----------

    /** Copies the slots from `i` + 1 on down by one. */
    method ShiftSlots(i: nat)
      requires Valid() && i < pollCount && pollEsocket[i] == null
      modifies poll, pollEsocket, sockets
      ensures poll[..] == Shifted(old(poll[..]), i, pollCount - 1)
      ensures pollEsocket[..] == Shifted(old(pollEsocket[..]), i, pollCount - 1)
      ensures forall k :: 0 <= k < pollCount - 1 ==> SlotOk(k)
    {
      ghost var p, e := poll[..], pollEsocket[..];
      var j := i;
      while j < pollCount - 1
        invariant i <= j <= pollCount - 1
        invariant poll[..] == Shifted(p, i, j) && pollEsocket[..] == Shifted(e, i, j)
        invariant forall k :: 0 <= k < pollCount && k != j ==> SlotOk(k)
      {
        ShiftedOn(p, i, j);
        ShiftedOn(e, i, j);
        assert pollEsocket[j + 1] == pollEsocket[..][j + 1] == e[j + 1] == old(pollEsocket[..pollCount][j + 1]);
        CopyDown(j);
        j := j + 1;
      }
    }

    /** Copies slot `j` + 1 to slot `j`, and tells its socket. */
    method CopyDown(j: nat)
      requires Arrays() && j + 1 < pollCount && SlotOk(j + 1) &&
        (pollEsocket[j + 1] == null || pollEsocket[j + 1] in sockets)
      requires forall k :: 0 <= k < pollCount && k != j ==> SlotOk(k)
      modifies poll, pollEsocket, sockets
      ensures poll[..] == old(poll[..][j := poll[j + 1]]) &&
        pollEsocket[..] == old(pollEsocket[..][j := pollEsocket[j + 1]])
      ensures forall k :: 0 <= k < pollCount && k != j + 1 ==> SlotOk(k)
    {
      poll[j] := poll[j].(fd := poll[j + 1].fd);
      poll[j] := poll[j].(events := poll[j + 1].events);
      poll[j] := poll[j].(revents := poll[j + 1].revents);
      pollEsocket[j] := pollEsocket[j + 1];
      if pollEsocket[j] != null { pollEsocket[j].pollIndex := j; }
      forall k | 0 <= k < pollCount && k != j + 1
        ensures SlotOk(k)
      {
        if k != j { assert old(SlotOk(k)) && old(SlotOk(j + 1)); }
      }
    }

    /** Moves the slots from `i` + 1 on down by one, over the dead slot `i`. */
    method ShiftDown(i: nat)
      requires Valid() && pollCompress && i < pollCount && pollEsocket[i] == null
      modifies this`pollCount, poll, pollEsocket, sockets
      ensures Valid() && pollCount == old(pollCount) - 1
      ensures Slots() == old(Slots()[..i] + Slots()[i + 1..])
      ensures forall k :: 0 <= k < i ==> pollEsocket[k] == old(pollEsocket[k])
    {
      ghost var p, e := poll[..pollCount], pollEsocket[..pollCount];
      ShiftSlots(i);
      label L:
      pollCount := pollCount - 1;
      forall k | 0 <= k < pollCount
        ensures SlotOk(k)
      {
        assert old@L(SlotOk(k));
      }
      assert poll[..pollCount] == p[..i] + p[i + 1..];
      assert pollEsocket[..pollCount] == e[..i] + e[i + 1..];
      DropNull(e, i);
      ZipDrop(p, e, i);
    }

    /** Drops the dead slot `i`. */
    method DropSlot(i: nat)
      requires Valid() && pollCompress && i < pollCount && poll[i].fd == -1
      modifies this`pollCount, poll, pollEsocket, sockets
      ensures Valid() && pollCount == old(pollCount) - 1 && Live(Slots()) == old(Live(Slots()))
      ensures forall k :: 0 <= k < i ==> pollEsocket[k] == old(pollEsocket[k])
    {
      DropDead(Slots(), i);
      ShiftDown(i);
    }

    lemma FullIsLive()
      requires Valid() && forall k :: 0 <= k < pollCount ==> pollEsocket[k] != null
      ensures Live(Slots()) == Slots()
    {
      AllLive(Slots());
    }

    /** The compaction loop at the end of s_thread_loop. Its counter is unsigned, and wraps round when the
        first slot is dead. */
    method DropDeadSlots()
      requires Valid() && pollCompress
      modifies this`pollCount, poll, pollEsocket, sockets
      ensures Valid() && forall k :: 0 <= k < pollCount ==> pollEsocket[k] != null
      ensures Live(Slots()) == old(Live(Slots()))
    {
      var i := 0;
      while i < pollCount
        invariant 0 <= i <= pollCount && Valid()
        invariant forall k :: 0 <= k < i ==> pollEsocket[k] != null
        invariant Live(Slots()) == old(Live(Slots()))
        decreases pollCount - i
      {
        if poll[i].fd == -1 {
          DropSlot(i);
          i := if i == 0 then SIZE_MAX else i - 1;
        }
        i := if i == SIZE_MAX then 0 else i + 1;
      }
    }

    /** Compacts the array if need be: exactly the live slots are left, in order, and the sockets know
        where they are. */
    method Compact()
      requires Valid()
      modifies this`pollCount, this`pollCompress, poll, pollEsocket, sockets
      ensures Valid() && !pollCompress && sockets == old(sockets)
      ensures Slots() == old(Live(Slots()))
    {
      if pollCompress {
        DropDeadSlots();
        pollCompress := false;
      }
      FullIsLive();
    }
  }
}
