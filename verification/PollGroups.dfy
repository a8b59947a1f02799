/** The poll groups of a port: each AFD handle serves at most 32 sockets, and a port keeps its groups
    in a queue with the full ones first. */
module PollGroups {
  import opened Options
  import opened Sequences

  const MAX_GROUP_SIZE := 32

  type Group = nat

  datatype Groups = Groups(queue: seq<Group>, size: map<Group, nat>)

  /** The group to use next: the last one unless it is full; a new one then, if it can be made. */
  function Choose(s: Groups, made: Group, canCreate: bool): (Groups, Option<Group>) {
    if s.queue != [] && s.queue[|s.queue| - 1] in s.size && s.size[s.queue[|s.queue| - 1]] < MAX_GROUP_SIZE then
      (s, Some(s.queue[|s.queue| - 1]))
    else if canCreate then (Groups(s.queue + [made], s.size[made := 0]), Some(made))
    else (s, None)
  }

  function Acquire(s: Groups, made: Group, canCreate: bool): (Groups, Option<Group>) {
    var (c, g) := Choose(s, made, canCreate);
    if g.None? || g.value !in c.size then (c, None)
    else
      var n := c.size[g.value] + 1;
      (Groups(if n == MAX_GROUP_SIZE then [g.value] + Without(c.queue, g.value) else c.queue,
              c.size[g.value := n]), g)
  }

  function Release(s: Groups, g: Group): Groups
    requires g in s.size && s.size[g] > 0
  {
    Groups(Without(s.queue, g) + [g], s.size[g := s.size[g] - 1])
  }

  // ---------- the invariant ----------

  predicate Full(size: map<Group, nat>, g: Group) {
    g in size && size[g] == MAX_GROUP_SIZE
  }

  /** No full group stands behind one that is not full. */
  predicate FullFirst(size: map<Group, nat>, q: seq<Group>) {
    q == [] ||
    if Full(size, q[0]) then FullFirst(size, q[1..]) else forall g :: g in q[1..] ==> !Full(size, g)
  }

  /** The queue holds every group once, none is over-full, and the full ones come first. */
  ghost predicate Inv(s: Groups) {
    Distinct(s.queue) && FullFirst(s.size, s.queue) &&
    (forall g :: g in s.queue <==> g in s.size) &&
    (forall g :: g in s.size ==> s.size[g] <= MAX_GROUP_SIZE)
  }

  /** Slots in use. */
  function Slots(q: seq<Group>, size: map<Group, nat>): nat {
    if q == [] then 0 else (if q[0] in size then size[q[0]] else 0) + Slots(q[1..], size)
  }

  lemma {:induction false} WithoutKeeps(q: seq<Group>, size: map<Group, nat>, g: Group)
    requires Distinct(q) && FullFirst(size, q)
    ensures Distinct(Without(q, g)) && FullFirst(size, Without(q, g))
    ensures |Without(q, g)| == |q| - (if g in q then 1 else 0)
    ensures Slots(Without(q, g), size) == Slots(q, size) - (if g in q && g in size then size[g] else 0)
  {
    if q != [] {
      var w := Without(q[1..], g);
      if Full(size, q[0]) {
        WithoutKeeps(q[1..], size, g);
      } else {
        NoneFullFirst(size, q[1..]);
        WithoutKeeps(q[1..], size, g);
      }
      if q[0] != g {
        assert Without(q, g) == [q[0]] + w;
        assert ([q[0]] + w)[1..] == w;
      } else {
        assert Without(q, g) == w;
      }
    }
  }

  lemma {:induction false} NoneFullFirst(size: map<Group, nat>, q: seq<Group>)
    requires forall g :: g in q ==> !Full(size, g)
    ensures FullFirst(size, q)
  {
    if q != [] {
      NoneFullFirst(size, q[1..]);
    }
  }

  lemma {:induction false} SizeElsewhere(q: seq<Group>, size: map<Group, nat>, g: Group, n: nat)
    requires g !in q
    ensures FullFirst(size[g := n], q) == FullFirst(size, q) && Slots(q, size[g := n]) == Slots(q, size)
  {
    if q != [] {
      SizeElsewhere(q[1..], size, g, n);
      assert forall x :: x in q ==> Full(size[g := n], x) == Full(size, x);
    }
  }

  /** A group that is not full may stand at the end. */
  lemma {:induction false} Appended(q: seq<Group>, size: map<Group, nat>, g: Group)
    requires Distinct(q) && FullFirst(size, q) && g !in q && g in size && !Full(size, g)
    ensures Distinct(q + [g]) && FullFirst(size, q + [g]) && Slots(q + [g], size) == Slots(q, size) + size[g]
  {
    if q == [] {
      assert q + [g] == [g];
    } else {
      assert (q + [g])[1..] == q[1..] + [g];
      if Full(size, q[0]) {
        Appended(q[1..], size, g);
      } else {
        NoneFullFirst(size, q[1..]);
        Appended(q[1..], size, g);
      }
    }
  }

  lemma ChooseInv(s: Groups, made: Group, canCreate: bool)
    requires Inv(s) && made !in s.size
    ensures var (c, g) := Choose(s, made, canCreate);
      Inv(c) && Slots(c.queue, c.size) == Slots(s.queue, s.size) &&
      (g.Some? ==> g.value in c.size && c.size[g.value] < MAX_GROUP_SIZE) &&
      (g.Some? ==> c.queue != [] && c.queue[|c.queue| - 1] == g.value)
  {
    SizeElsewhere(s.queue, s.size, made, 0);
    Appended(s.queue, s.size[made := 0], made);
  }

  /** A group that becomes full moves to the front. */
  lemma FilledInv(c: Groups, g: Group)
    requires Inv(c) && g in c.size && c.size[g] + 1 == MAX_GROUP_SIZE
    ensures var r := Groups([g] + Without(c.queue, g), c.size[g := MAX_GROUP_SIZE]);
      Inv(r) && Slots(r.queue, r.size) == Slots(c.queue, c.size) + 1
  {
    var w := Without(c.queue, g);
    WithoutKeeps(c.queue, c.size, g);
    SizeElsewhere(w, c.size, g, MAX_GROUP_SIZE);
    assert ([g] + w)[1..] == w;
  }

  /** The last group with one slot more in use, but not full. */
  lemma CountedInv(c: Groups, g: Group)
    requires Inv(c) && g in c.size && c.size[g] + 1 < MAX_GROUP_SIZE && c.queue != [] && c.queue[|c.queue| - 1] == g
    ensures var r := Groups(c.queue, c.size[g := c.size[g] + 1]);
      Inv(r) && Slots(r.queue, r.size) == Slots(c.queue, c.size) + 1
  {
    CountedQueue(c.queue, c.size, g);
  }

  lemma CountedQueue(q: seq<Group>, size: map<Group, nat>, g: Group)
    requires Distinct(q) && FullFirst(size, q)
    requires q != [] && q[|q| - 1] == g && g in size && size[g] + 1 < MAX_GROUP_SIZE
    ensures var n := size[g] + 1; FullFirst(size[g := n], q) && Slots(q, size[g := n]) == Slots(q, size) + 1
  {
    var w, n := Without(q, g), size[g] + 1;
    WithoutKeeps(q, size, g);
    SizeElsewhere(w, size, g, n);
    LastOut(q);
    Appended(w, size[g := n], g);
  }

  lemma AcquireInv(s: Groups, made: Group, canCreate: bool)
    requires Inv(s) && made !in s.size
    ensures var (r, g) := Acquire(s, made, canCreate);
      Inv(r) && Slots(r.queue, r.size) == Slots(s.queue, s.size) + (if g.Some? then 1 else 0)
  {
    ChooseInv(s, made, canCreate);
    var (c, g) := Choose(s, made, canCreate);
    if g.Some? {
      if c.size[g.value] + 1 == MAX_GROUP_SIZE { FilledInv(c, g.value); } else { CountedInv(c, g.value); }
    }
  }

  /** The last group of a queue stands only there. */
  lemma {:induction false} LastOut(q: seq<Group>)
    requires q != [] && Distinct(q)
    ensures Without(q, q[|q| - 1]) + [q[|q| - 1]] == q
  {
    if |q| > 1 {
      LastOut(q[1..]);
    }
  }

  lemma ReleaseInv(s: Groups, g: Group)
    requires Inv(s) && g in s.size && s.size[g] > 0
    ensures Inv(Release(s, g)) && Release(s, g).size[g] < MAX_GROUP_SIZE
    ensures |Release(s, g).queue| == |s.queue|
    ensures Slots(Release(s, g).queue, Release(s, g).size) == Slots(s.queue, s.size) - 1
  {
    var w, n := Without(s.queue, g), s.size[g] - 1;
    WithoutKeeps(s.queue, s.size, g);
    SizeElsewhere(w, s.size, g, n);
    Appended(w, s.size[g := n], g);
  }

  lemma {:induction false} SlotsFull(q: seq<Group>, size: map<Group, nat>)
    requires forall g :: g in q ==> Full(size, g)
    ensures Slots(q, size) == MAX_GROUP_SIZE * |q|
  {
    if q != [] {
      assert Full(size, q[0]);
      SlotsFull(q[1..], size);
    }
  }

  lemma {:induction false} LastFull(q: seq<Group>, size: map<Group, nat>)
    requires q != [] && FullFirst(size, q) && Full(size, q[|q| - 1])
    ensures forall g :: g in q ==> Full(size, g)
  {
    if |q| > 1 {
      assert q[1..][|q| - 2] == q[|q| - 1];
      LastFull(q[1..], size);
    }
  }

  /** A new group is made only when every group is full. */
  lemma MadeOnlyWhenFull(s: Groups, made: Group, canCreate: bool)
    requires Inv(s) && made !in s.size && |Acquire(s, made, canCreate).0.size| > |s.size|
    ensures Slots(s.queue, s.size) == MAX_GROUP_SIZE * |s.queue|
  {
    if s.queue != [] {
      var last := s.queue[|s.queue| - 1];
      assert last in s.queue;
      assert s.size[last := s.size[last] + 1].Keys == s.size.Keys;
    }
    AllFull(s);
  }

  /** A slot is found exactly if a group has one free, or one more group can be made. */
  lemma AcquireExact(s: Groups, made: Group, canCreate: bool)
    requires Inv(s) && made !in s.size
    ensures Acquire(s, made, canCreate).1.Some? <==>
      canCreate || exists g :: g in s.size && s.size[g] < MAX_GROUP_SIZE
  {
    if s.queue != [] {
      var last := s.queue[|s.queue| - 1];
      assert last in s.queue;
      if s.size[last] == MAX_GROUP_SIZE { LastFull(s.queue, s.size); }
    }
  }

  /** Taking a slot counts for one group only, and makes a group only when all slots are in use. */
  lemma AcquireSizes(s: Groups, made: Group, canCreate: bool)
    requires Inv(s) && made !in s.size
    ensures var (r, g) := Acquire(s, made, canCreate);
      if g.None? then r == s
      else
        g.value in r.size && (forall h :: h in s.size ==> h in r.size) &&
        (forall h :: h in r.size ==>
          r.size[h] == (if h in s.size then s.size[h] else 0) + (if h == g.value then 1 else 0))
    ensures var r := Acquire(s, made, canCreate).0;
      |r.queue| == |s.queue| || (|r.queue| == |s.queue| + 1 && Slots(s.queue, s.size) == MAX_GROUP_SIZE * |s.queue|)
  {
    ChooseInv(s, made, canCreate);
    var (c, g) := Choose(s, made, canCreate);
    if g.Some? {
      WithoutKeeps(c.queue, c.size, g.value);
      if |c.queue| > |s.queue| { AllFull(s); }
    }
  }

  lemma AllFull(s: Groups)
    requires Inv(s) && (s.queue == [] || Full(s.size, s.queue[|s.queue| - 1]))
    ensures Slots(s.queue, s.size) == MAX_GROUP_SIZE * |s.queue|
  {
    if s.queue != [] {
      LastFull(s.queue, s.size);
      SlotsFull(s.queue, s.size);
    }
  }
}
