/** An open-addressing hash table whose live slots are also linked in the order they were filled. */
module LinkHash {
  import opened Options

  const INT_MAX := 0x7fff_ffff

  /** What a slot holds: nothing since the table was made, nothing any more, or a key. */
  datatype Key<K> = Empty | Freed | Live(key: K)

  /** lh_entry; the links are indices of slots, -1 for none. */
  datatype Slot<K, V> = Slot(k: Key<K>, v: Option<V>, constant: bool, next: int, prev: int)

  datatype Binding<K, V> = Binding(key: K, value: Option<V>, constant: bool)

  // ---------- probing ----------

  /** Steps from `home` to slot `n`, going round. */
  function Steps(home: nat, n: nat, size: nat): int {
    if home <= n then n - home else n + size - home
  }

  /** Slot `i` is among the first `c` slots from `home`, going round. */
  predicate Passed(home: nat, c: int, size: nat, i: nat) {
    home <= i < home + c || i < home + c - size
  }

  function Home<K(!new)>(hash: K -> nat, key: K, size: nat): nat
    requires size > 0
    ensures Home(hash, key, size) < size
  {
    hash(key) % size
  }

  // ---------- the invariant, on the slots as a sequence ----------

  /** No key hides behind an empty slot. */
  ghost predicate Reachable<K(!new), V>(s: seq<Slot<K, V>>, hash: K -> nat) {
    forall n: nat, i: nat {:trigger s[n], s[i]} :: n < |s| && i < |s| && s[n].k.Live? ==>
      var home := Home(hash, s[n].k.key, |s|);
      Passed(home, Steps(home, n, |s|), |s|, i) ==> s[i].k != Empty
  }

  ghost predicate Unique<K, V>(s: seq<Slot<K, V>>) {
    forall m: nat, n: nat {:trigger s[m], s[n]} :: m < |s| && n < |s| && s[m].k.Live? && s[n].k == s[m].k ==> m == n
  }

  /** `order` lists the live slots, each once. */
  ghost predicate Lists<K, V>(s: seq<Slot<K, V>>, order: seq<nat>) {
    && (forall i :: 0 <= i < |order| ==> order[i] < |s| && s[order[i]].k.Live?)
    && (forall i, j :: 0 <= i < j < |order| ==> order[i] != order[j])
    && (forall n: nat :: n < |s| && s[n].k.Live? ==> n in order)
  }

  function At(order: seq<nat>, i: int): int {
    if 0 <= i < |order| then order[i] else -1
  }

  predicate Neighbours<K(==), V(==)>(s: seq<Slot<K, V>>, order: seq<nat>, i: int)
    requires 0 <= i < |order|
  {
    order[i] < |s| && s[order[i]].next == At(order, i + 1) && s[order[i]].prev == At(order, i - 1)
  }

  /** The links follow `order`. */
  ghost predicate Linked<K, V>(s: seq<Slot<K, V>>, order: seq<nat>) {
    forall i :: 0 <= i < |order| ==> Neighbours(s, order, i)
  }

  ghost predicate SlotsOk<K(!new), V>(s: seq<Slot<K, V>>, order: seq<nat>, hash: K -> nat) {
    Reachable(s, hash) && Unique(s) && Lists(s, order) && Linked(s, order)
  }

  function BindingOf<K, V>(e: Slot<K, V>): Binding<K, V>
    requires e.k.Live?
  {
    Binding(e.k.key, e.v, e.constant)
  }

  /** The bindings in insertion order. */
  ghost function Bindings<K, V>(s: seq<Slot<K, V>>, order: seq<nat>): (r: seq<Binding<K, V>>)
    requires Lists(s, order)
  {
    seq(|order|, i requires 0 <= i < |order| => BindingOf(s[order[i]]))
  }

  function Below(size: nat): set<nat> {
    if size == 0 then {} else Below(size - 1) + {size - 1}
  }

  lemma {:induction false} BelowAll(size: nat)
    ensures |Below(size)| == size && (forall n: nat :: n in Below(size) <==> n < size)
  {
    if size > 0 { BelowAll(size - 1); }
  }

  /** Fewer live slots than slots leave one to find. */
  lemma FreeSlot<K, V>(s: seq<Slot<K, V>>, order: seq<nat>) returns (n: nat)
    requires Lists(s, order) && |order| < |s|
    ensures n < |s| && !s[n].k.Live?
  {
    if forall n: nat :: n < |s| ==> s[n].k.Live? {
      var used := set n: nat | n in order;
      BelowAll(|s|);
      assert Below(|s|) <= used;
      Distinct(order);
      Subset(Below(|s|), used);
    }
    n :| n < |s| && !s[n].k.Live?;
  }

  lemma {:induction false} Distinct(order: seq<nat>)
    ensures |set n: nat | n in order| <= |order|
  {
    var used := set n: nat | n in order;
    if order == [] {
      assert used == {};
    } else {
      Distinct(order[1..]);
      assert used == (set n: nat | n in order[1..]) + {order[0]};
    }
  }

  lemma {:induction false} Subset(a: set<nat>, b: set<nat>)
    requires a <= b
    ensures |a| <= |b|
  {
    if a != {} {
      var x :| x in a;
      Subset(a - {x}, b - {x});
    }
  }

  // ---------- insertion ----------

  /** The slots after `slot` has been filled and linked behind the last one. */
  function Appended<K, V>(s: seq<Slot<K, V>>, tail: int, n: nat, k: K, v: Option<V>, constant: bool)
      : (r: seq<Slot<K, V>>)
    requires n < |s| && -1 <= tail < |s|
  {
    var s1 := s[n := Slot(Live(k), v, constant, -1, tail)];
    if tail < 0 then s1 else s1[tail := s1[tail].(next := n)]
  }

  /** Nothing but links differs outside slot `n`. */
  ghost predicate SameBut<K, V>(s: seq<Slot<K, V>>, s1: seq<Slot<K, V>>, n: nat) {
    |s1| == |s| && forall m: nat {:trigger s1[m]} {:trigger s[m]} :: m < |s| && m != n ==>
      s1[m].k == s[m].k && s1[m].v == s[m].v && s1[m].constant == s[m].constant
  }

  lemma AppendedReachable<K(!new), V>(s: seq<Slot<K, V>>, s1: seq<Slot<K, V>>, hash: K -> nat, n: nat, k: K)
    requires Reachable(s, hash) && Unique(s) && n < |s| && !s[n].k.Live? && SameBut(s, s1, n) && s1[n].k == Live(k)
    requires forall m: nat :: m < |s| ==> s[m].k != Live(k)
    requires forall i: nat {:trigger s[i]} ::
      i < |s| && Passed(Home(hash, k, |s|), Steps(Home(hash, k, |s|), n, |s|), |s|, i) ==> s[i].k != Empty
    ensures Reachable(s1, hash) && Unique(s1)
  {
  }

  lemma AppendedBindings<K(!new), V>(s: seq<Slot<K, V>>, s1: seq<Slot<K, V>>, order: seq<nat>, n: nat)
    requires Lists(s, order) && Lists(s1, order + [n]) && n < |s| && SameBut(s, s1, n)
    ensures Bindings(s1, order + [n]) == Bindings(s, order) + [BindingOf(s1[(order + [n])[|order|]])]
  {
    var o1 := order + [n];
    forall i | 0 <= i < |order|
      ensures Bindings(s1, o1)[i] == Bindings(s, order)[i]
    {
      assert o1[i] == order[i] && o1[i] != o1[|order|];
    }
  }

  lemma AppendedOk<K(!new), V>(s: seq<Slot<K, V>>, order: seq<nat>, hash: K -> nat, n: nat, k: K, v: Option<V>,
    constant: bool)
    requires SlotsOk(s, order, hash) && n < |s| && !s[n].k.Live?
    requires forall m: nat :: m < |s| ==> s[m].k != Live(k)
    requires forall i: nat {:trigger s[i]} ::
      i < |s| && Passed(Home(hash, k, |s|), Steps(Home(hash, k, |s|), n, |s|), |s|, i) ==> s[i].k != Empty
    ensures var s1 := Appended(s, At(order, |order| - 1), n, k, v, constant);
      SlotsOk(s1, order + [n], hash) && Bindings(s1, order + [n]) == Bindings(s, order) + [Binding(k, v, constant)]
  {
    var s1 := Appended(s, At(order, |order| - 1), n, k, v, constant);
    AppendedReachable(s, s1, hash, n, k);
    AppendedLinks(s, order, n, k, v, constant);
    AppendedBindings(s, s1, order, n);
  }

  lemma AppendedLinks<K, V>(s: seq<Slot<K, V>>, order: seq<nat>, n: nat, k: K, v: Option<V>, constant: bool)
    requires Lists(s, order) && Linked(s, order) && n < |s| && !s[n].k.Live?
    ensures var s1 := Appended(s, At(order, |order| - 1), n, k, v, constant);
      Lists(s1, order + [n]) && Linked(s1, order + [n])
  {
    var o1 := order + [n];
    var s1 := Appended(s, At(order, |order| - 1), n, k, v, constant);
    assert n !in order;
    forall m: nat | m < |s1| && s1[m].k.Live?
      ensures m in o1
    {
      if m == n { assert o1[|order|] == n; } else { assert s[m].k.Live?; }
    }
    forall i | 0 <= i < |o1|
      ensures Neighbours(s1, o1, i)
    {
      if i < |order| { assert Neighbours(s, order, i); }
      if i < |order| - 1 { assert order[i] != order[|order| - 1]; }
    }
  }

  // ---------- deletion ----------

  /** The slots after slot `n` has been freed and its neighbours linked to each other. */
  function Unlinked<K, V>(s: seq<Slot<K, V>>, n: nat): seq<Slot<K, V>>
    requires n < |s| && -1 <= s[n].next < |s| && -1 <= s[n].prev < |s|
  {
    var p, q := s[n].prev, s[n].next;
    var s1 := s[n := s[n].(k := Freed, v := None)];
    var s2 := if q < 0 then s1 else s1[q := s1[q].(prev := p)];
    var s3 := if p < 0 then s2 else s2[p := s2[p].(next := q)];
    s3[n := s3[n].(next := -1, prev := -1)]
  }

  function Dropping(order: seq<nat>, i: nat): (r: seq<nat>)
    requires i < |order|
    ensures |r| == |order| - 1 && forall j :: 0 <= j < |r| ==> r[j] == order[if j < i then j else j + 1]
  {
    order[..i] + order[i + 1..]
  }

  /** Slot by slot: the links that led to `n` now lead past it. */
  lemma UnlinkedAt<K, V>(s: seq<Slot<K, V>>, n: nat, m: nat)
    requires n < |s| && -1 <= s[n].next < |s| && -1 <= s[n].prev < |s| && m < |s| && m != n
    ensures Unlinked(s, n)[m] == s[m].(next := if m == s[n].prev then s[n].next else s[m].next,
                                       prev := if m == s[n].next then s[n].prev else s[m].prev)
  {
  }

  lemma UnlinkedLists<K, V>(s: seq<Slot<K, V>>, order: seq<nat>, i: nat)
    requires Lists(s, order) && i < |order| && Neighbours(s, order, i)
    ensures Lists(Unlinked(s, order[i]), Dropping(order, i))
  {
    var n, o1 := order[i], Dropping(order, i);
    var s1 := Unlinked(s, n);
    forall m: nat | m < |s1| && s1[m].k.Live?
      ensures m in o1
    {
      if m != n { UnlinkedAt(s, n, m); }
      assert m in order;
      var j :| 0 <= j < |order| && order[j] == m;
      assert o1[if j < i then j else j - 1] == m;
    }
    forall j | 0 <= j < |o1|
      ensures o1[j] < |s1| && s1[o1[j]].k.Live?
    {
      UnlinkedAt(s, n, o1[j]);
    }
  }

  /** The place in the old order of what is at `j` in the new one. */
  function Before(i: nat, j: int): int { if j < i then j else j + 1 }

  lemma NeighboursAfter<K, V>(s: seq<Slot<K, V>>, order: seq<nat>, i: nat, j: nat)
    requires Lists(s, order) && i < |order| && j < |order| - 1 && Neighbours(s, order, i) &&
      Neighbours(s, order, Before(i, j))
    ensures Neighbours(Unlinked(s, order[i]), Dropping(order, i), j)
  {
    var m, n := order[Before(i, j)], order[i];
    UnlinkedAt(s, n, m);
    assert j != i - 1 && i > 0 ==> m != order[i - 1];
    assert j != i && i + 1 < |order| ==> m != order[i + 1];
  }

  lemma UnlinkedLinks<K, V>(s: seq<Slot<K, V>>, order: seq<nat>, i: nat)
    requires Lists(s, order) && Linked(s, order) && i < |order| && Neighbours(s, order, i)
    ensures Linked(Unlinked(s, order[i]), Dropping(order, i))
  {
    forall j | 0 <= j < |order| - 1
      ensures Neighbours(Unlinked(s, order[i]), Dropping(order, i), j)
    {
      NeighboursAfter(s, order, i, j);
    }
  }

  /** The first and the last in order, seen from the one at `i`. */
  lemma EndsAfter<K, V>(s: seq<Slot<K, V>>, order: seq<nat>, i: nat)
    requires Lists(s, order) && i < |order| && Neighbours(s, order, i)
    ensures var n, o1 := order[i], Dropping(order, i);
      (At(order, 0) == n <==> s[n].prev == -1) && (At(order, |order| - 1) == n <==> s[n].next == -1) &&
      At(o1, 0) == (if At(order, 0) == n then s[n].next else At(order, 0)) &&
      At(o1, |o1| - 1) == (if At(order, |order| - 1) == n then s[n].prev else At(order, |order| - 1)) &&
      s[n].next != n && s[n].prev != n && -1 <= s[n].next < |s| && -1 <= s[n].prev < |s|
  {
  }

  lemma UnlinkedOk<K(!new), V>(s: seq<Slot<K, V>>, order: seq<nat>, hash: K -> nat, i: nat)
    requires SlotsOk(s, order, hash) && i < |order| && Neighbours(s, order, i)
    ensures var s1 := Unlinked(s, order[i]);
      SlotsOk(s1, Dropping(order, i), hash) &&
      Bindings(s1, Dropping(order, i)) == Bindings(s, order)[..i] + Bindings(s, order)[i + 1..]
  {
    var n, o1 := order[i], Dropping(order, i);
    var s1 := Unlinked(s, n);
    UnlinkedLists(s, order, i);
    UnlinkedLinks(s, order, i);
    forall m: nat | m < |s| && m != n
      ensures s1[m].k == s[m].k && s1[m].v == s[m].v && s1[m].constant == s[m].constant
    {
      UnlinkedAt(s, n, m);
    }
    assert SameBut(s, s1, n);
    forall j | 0 <= j < |o1|
      ensures Bindings(s1, o1)[j] == Bindings(s, order)[if j < i then j else j + 1]
    {
      assert o1[j] != n;
    }
  }

  // ---------- lookup ----------

  ghost predicate HasKey<K, V>(bindings: seq<Binding<K, V>>, k: K) {
    exists i :: 0 <= i < |bindings| && bindings[i].key == k
  }

  lemma KeyInSlots<K(!new), V>(s: seq<Slot<K, V>>, order: seq<nat>, k: K)
    requires Lists(s, order)
    ensures HasKey(Bindings(s, order), k) <==> exists n: nat :: n < |s| && s[n].k == Live(k)
  {
    if n: nat :| n < |s| && s[n].k == Live(k) {
      var i :| 0 <= i < |order| && order[i] == n;
      assert Bindings(s, order)[i].key == k;
    }
    if i :| 0 <= i < |order| && Bindings(s, order)[i].key == k {
      assert s[order[i]].k == Live(k);
    }
  }

  lemma NotHidden<K(!new), V>(s: seq<Slot<K, V>>, hash: K -> nat, n: nat, m: nat)
    requires Reachable(s, hash) && n < |s| && m < |s| && s[n].k == Empty && s[m].k.Live?
    ensures var home := Home(hash, s[m].k.key, |s|); !Passed(home, Steps(home, m, |s|), |s|, n)
  {
  }

  /** A probe that has met neither the key nor an empty slot in `c` steps misses nothing if it meets an
      empty slot next, or has gone all the way round. */
  lemma ProbeEnds<K(!new), V>(s: seq<Slot<K, V>>, order: seq<nat>, hash: K -> nat, k: K, n: nat, c: nat)
    requires SlotsOk(s, order, hash) && c <= |s| && n < |s|
    requires c == |s| || (s[n].k == Empty && c == Steps(Home(hash, k, |s|), n, |s|))
    requires forall i: nat {:trigger s[i]} :: i < |s| && Passed(Home(hash, k, |s|), c, |s|, i) ==> s[i].k != Live(k)
    ensures !HasKey(Bindings(s, order), k)
  {
    KeyInSlots(s, order, k);
    forall m: nat | m < |s|
      ensures s[m].k != Live(k)
    {
      if s[n].k == Empty && s[m].k.Live? { NotHidden(s, hash, n, m); }
    }
  }

  /** A binding's key does not come before it. */
  lemma NotAmong<K(!new), V>(s: seq<Slot<K, V>>, order: seq<nat>, i: nat)
    requires Lists(s, order) && Unique(s) && i < |order|
    ensures !HasKey(Bindings(s, order)[..i], Bindings(s, order)[i].key)
  {
    forall j | 0 <= j < i
      ensures Bindings(s, order)[j].key != Bindings(s, order)[i].key
    {
      assert order[j] != order[i] && s[order[j]].k.Live? && s[order[i]].k.Live?;
    }
  }

  // ---------- the load ----------

  /** The test count >= size * LH_LOAD_FACTOR, with the factor 0.66. */
  predicate Loaded(count: nat, size: int) { 100 * count >= 66 * size }

  /** `count` bindings go into a new table of `size` slots without making it grow. */
  predicate Fits(count: nat, size: int) { count == 0 || !Loaded(count - 1, size) }

  function Grown(size: int): int { if size > INT_MAX / 2 then INT_MAX else size * 2 }

  lemma GrownFits(count: nat, size: int)
    requires Fits(count, size) && 0 < size < INT_MAX
    ensures Fits(count, Grown(size)) && !Loaded(count, Grown(size)) && Grown(size) > size
  {
  }

  /** A table of `size` slots that holds `i` bindings can be filled up to `count`: whenever it is loaded, there
      is memory for one that is twice as large. */
  predicate RoomFor(i: nat, count: nat, size: int, memory: int -> bool)
    decreases count - i
  {
    i >= count ||
    if Loaded(i, size) then
      size < INT_MAX && memory(Grown(size)) && RoomFor(i + 1, count, Grown(size), memory)
    else
      RoomFor(i + 1, count, size, memory)
  }

  /** No resize fails for want of room alone. */
  lemma {:induction false} RoomIfMemory(i: nat, count: nat, size: int, memory: int -> bool)
    requires (forall n :: memory(n)) && Fits(count, INT_MAX) && 0 < size <= INT_MAX
    ensures RoomFor(i, count, size, memory)
    decreases count - i
  {
    if i < count { RoomIfMemory(i + 1, count, if Loaded(i, size) then Grown(size) else size, memory); }
  }

  // ---------- the table ----------

  /** lh_table. */
  class Table<K(==, !new), V(==)> {
    const hash: K -> nat
    var size: int
    var table: array<Slot<K, V>>
    var head: int
    var tail: int
    var count: nat
    ghost var order: seq<nat>

    /** The slots, their links and their number are as they should be. */
    ghost predicate Kept()
      reads this, table
    {
      && table.Length > 0 && SlotsOk(table[..], order, hash)
      && head == At(order, 0) && tail == At(order, |order| - 1) && count == |order| && Fits(count, table.Length)
    }

    ghost predicate Valid()
      reads this, table
    {
      Kept() && table.Length == size <= INT_MAX
    }

    ghost function Contents(): seq<Binding<K, V>>
      requires Kept()
      reads this, table
    {
      Bindings(table[..], order)
    }

    ghost predicate NoTombstones()
      reads this, table
    {
      forall n: nat {:trigger table[n]} :: n < table.Length ==> table[n].k != Freed
    }

    /** lh_table_new. */
    constructor (hash: K -> nat, size: int)
      requires 0 < size <= INT_MAX
      ensures Valid() && Contents() == [] && NoTombstones() && fresh(table)
      ensures this.hash == hash && this.size == size && this.count == 0
    {
      this.hash := hash;
      this.size := size;
      this.table := new Slot<K, V>[size](_ => Slot(Empty, None, false, -1, -1));
      this.head, this.tail, this.count, this.order := -1, -1, 0, [];
    }

    /** lh_table_lookup_entry_w_hash: the slot of the key, if it is in the table. */
    method LookupEntry(k: K) returns (e: Option<nat>)
      requires Valid()
      ensures e.None? <==> !HasKey(Contents(), k)
      ensures e.Some? ==> e.value < table.Length && table[e.value].k == Live(k) && e.value in order
    {
      ghost var s := table[..];
      var home := hash(k) % size;
      var n, c := home, 0;
      while c < size
        invariant 0 <= c <= size && 0 <= n < size && (c < size ==> c == Steps(home, n, size))
        invariant forall i: nat {:trigger s[i]} :: i < |s| && Passed(home, c, size, i) ==> s[i].k != Live(k)
      {
        if table[n].k == Empty {
          ProbeEnds(s, order, hash, k, n, c);
          return None;
        }
        if table[n].k == Live(k) {
          assert s[n].k == Live(k);
          KeyInSlots(s, order, k);
          return Some(n);
        }
        n := n + 1;
        if n == size { n := 0; }
        c := c + 1;
      }
      ProbeEnds(s, order, hash, k, n, c);
      return None;
    }

    /** The slot an absent key goes to: the first that is empty or freed. */
    method FindFree(k: K) returns (n: nat)
      requires Valid() && !Loaded(count, size)
      ensures n < size && !table[n].k.Live?
      ensures forall i: nat {:trigger table[i]} ::
        i < size && Passed(Home(hash, k, size), Steps(Home(hash, k, size), n, size), size, i) ==> table[i].k != Empty
    {
      ghost var free := FreeSlot(table[..], order);
      n := hash(k) % size;
      ghost var home, c := n, 0;
      while table[n].k.Live?
        invariant 0 <= c < size && 0 <= n < size && c == Steps(home, n, size)
        invariant forall i: nat {:trigger table[i]} :: i < size && Passed(home, c, size, i) ==> table[i].k.Live?
        decreases size - c
      {
        assert table[..][free] == table[free];
        assert !Passed(home, c, size, free);
        n := n + 1;
        if n == size { n := 0; }
        c := c + 1;
      }
    }

    /** The key is put in slot `n` and linked behind the last one. */
    method Fill(n: nat, k: K, v: Option<V>, constant: bool)
      requires Valid() && !Loaded(count, size) && n < size && !table[n].k.Live? && !HasKey(Contents(), k)
      requires forall i: nat {:trigger table[i]} ::
        i < size && Passed(Home(hash, k, size), Steps(Home(hash, k, size), n, size), size, i) ==> table[i].k != Empty
      modifies this`head, this`tail, this`count, this`order, table
      ensures Valid() && Contents() == old(Contents()) + [Binding(k, v, constant)]
      ensures old(NoTombstones()) ==> NoTombstones()
    {
      ghost var s := table[..];
      KeyInSlots(s, order, k);
      AppendedOk(s, order, hash, n, k, v, constant);
      Link(n, k, v, constant);
      count := count + 1;
      order := order + [n];
      assert table[..] == Appended(s, At(old(order), |old(order)| - 1), n, k, v, constant);
    }

    /** Fills slot `n` and makes it the last one. */
    method Link(n: nat, k: K, v: Option<V>, constant: bool)
      requires n < table.Length && -1 <= tail < table.Length && (head == -1 <==> tail == -1)
      modifies this`head, this`tail, table
      ensures table[..] == Appended(old(table[..]), old(tail), n, k, v, constant)
      ensures tail == n && head == if old(head) == -1 then n else old(head)
    {
      table[n] := Slot(Live(k), v, constant, -1, tail);
      if head == -1 {
        head := n;
      } else {
        table[tail] := table[tail].(next := n);
      }
      tail := n;
    }

    /** lh_table_insert_w_hash of an absent key. `memory` says for which sizes a table can be allocated;
        the insertion fails exactly when the table is loaded and cannot grow. */
    method Insert(k: K, v: Option<V>, constant: bool, memory: int -> bool) returns (done: bool)
      requires Valid() && !HasKey(Contents(), k)
      modifies this, table
      ensures Valid() && (table == old(table) || fresh(table))
      ensures done <==> !Loaded(old(count), old(size)) || (old(size) < INT_MAX && memory(Grown(old(size))))
      ensures Contents() == if done then old(Contents()) + [Binding(k, v, constant)] else old(Contents())
      ensures !done ==> table == old(table) && table[..] == old(table[..]) && size == old(size)
      ensures done ==> size == if Loaded(old(count), old(size)) then Grown(old(size)) else old(size)
      ensures old(NoTombstones()) || size != old(size) ==> NoTombstones()
      decreases count, 1
    {
      if Loaded(count, size) {
        var newSize := if size > INT_MAX / 2 then INT_MAX else size * 2;
        if size == INT_MAX { return false; }
        GrownFits(count, size);
        var grown := Resize(newSize, memory);
        if !grown { return false; }
      }
      var n := FindFree(k);
      Fill(n, k, v, constant);
      return true;
    }

    /** lh_table_resize. When it succeeds the bindings and their order are as before; the table is fit for
        use exactly if the bindings fit into `newSize` slots, because that size is recorded even when the
        new table had to grow while it was filled. */
    method Resize(newSize: int, memory: int -> bool) returns (done: bool)
      requires Valid() && 0 < newSize <= INT_MAX
      modifies this, table
      ensures Kept() && (table == old(table) || fresh(table))
      ensures Contents() == old(Contents()) && count == old(count)
      ensures !done ==> Valid() && table == old(table) && table[..] == old(table[..]) && size == old(size)
      ensures done ==> size == newSize && NoTombstones() && (Valid() <==> Fits(count, newSize))
      ensures Fits(count, newSize) ==> (done <==> memory(newSize))
      ensures done <==> memory(newSize) && RoomFor(0, count, newSize, memory)
      decreases count, 0
    {
      if !memory(newSize) { return false; }
      var t := new Table(hash, newSize);
      done := Refill(t, memory);
      if done {
        table, head, tail, order, size := t.table, t.head, t.tail, t.order, newSize;
      }
    }

    /** Inserts the bindings into the empty table `t`, in order. */
    method Refill(t: Table<K, V>, memory: int -> bool) returns (done: bool)
      requires Valid() && t.Valid() && t.Contents() == [] && t.count == 0 && t.NoTombstones()
      requires t != this && t.table != table && t.hash == hash
      modifies t, t.table
      ensures t.Valid() && t.NoTombstones() && (t.table == old(t.table) || fresh(t.table))
      ensures done ==> t.Contents() == Contents() && t.count == count
      ensures if Fits(count, old(t.size)) then done && t.size == old(t.size) else done ==> t.size > old(t.size)
      ensures done <==> RoomFor(0, count, old(t.size), memory)
      decreases count, 0, 0
    {
      var ent := head;
      ghost var i, bindings, newSize := 0, Contents(), t.size;
      while ent != -1
        invariant 0 <= i <= |order| && ent == At(order, i)
        invariant t.Valid() && t.NoTombstones() && (t.table == old(t.table) || fresh(t.table))
        invariant t.count == i && t.Contents() == bindings[..i]
        invariant RoomFor(0, count, newSize, memory) <==> RoomFor(i, count, t.size, memory)
        invariant if Fits(i, newSize) then t.size == newSize else t.size > newSize
        decreases |order| - i
      {
        var inserted := CopyTo(t, ent, i, memory);
        if !inserted { return false; }
        assert Neighbours(table[..], order, i);
        assert bindings[..i + 1] == bindings[..i] + [bindings[i]];
        ent := table[ent].next;
        i := i + 1;
      }
      return true;
    }

    /** Inserts the binding of slot `ent`, the `i`th in order, after those before it. */
    method CopyTo(t: Table<K, V>, ent: int, ghost i: nat, memory: int -> bool) returns (done: bool)
      requires Valid() && i < |order| && ent == order[i]
      requires t.Valid() && t.Contents() == Contents()[..i] && t.count == i && t.NoTombstones()
      requires t != this && t.table != table && t.hash == hash
      modifies t, t.table
      ensures t.Valid() && t.NoTombstones() && (t.table == old(t.table) || fresh(t.table))
      ensures done ==> t.Contents() == old(t.Contents()) + [Contents()[i]] && t.count == i + 1
      ensures done <==> !Loaded(i, old(t.size)) || (old(t.size) < INT_MAX && memory(Grown(old(t.size))))
      ensures done ==> t.size == if Loaded(i, old(t.size)) then Grown(old(t.size)) else old(t.size)
      decreases i, 2
    {
      var e := table[ent];
      assert Contents()[i] == BindingOf(table[..][order[i]]);
      NotAmong(table[..], order, i);
      done := t.Insert(e.k.key, e.v, e.constant, memory);
    }

    /** lh_table_delete_entry. A slot that holds no key is left as it is. */
    method DeleteEntry(n: nat, ghost i: nat) returns (result: int)
      requires Valid() && n < size && (table[n].k.Live? ==> i < |order| && order[i] == n)
      modifies this`head, this`tail, this`count, this`order, table
      ensures Valid() && result == if old(table[n].k.Live?) then 0 else -1
      ensures old(table[n].k.Live?) ==> Contents() == old(Contents()[..i] + Contents()[i + 1..])
      ensures !old(table[n].k.Live?) ==> table[..] == old(table[..]) && Contents() == old(Contents())
    {
      if !table[n].k.Live? { return -1; }
      Remove(n, i);
      return 0;
    }

    method Remove(n: nat, ghost i: nat)
      requires Valid() && n < size && i < |order| && order[i] == n
      modifies this`head, this`tail, this`count, this`order, table
      ensures Valid() && Contents() == old(Contents()[..i] + Contents()[i + 1..])
    {
      ghost var o1 := Dropping(order, i);
      assert Neighbours(table[..], order, i);
      Unlink(n, i, o1);
      count := count - 1;
      order := o1;
      assert SlotsOk(table[..], order, hash) && count == |order|;
      assert Contents() == Bindings(table[..], o1);
    }

    method Unlink(n: nat, ghost i: nat, ghost o1: seq<nat>)
      requires SlotsOk(table[..], order, hash) && i < |order| && order[i] == n && Neighbours(table[..], order, i) &&
        o1 == Dropping(order, i)
      requires head == At(order, 0) && tail == At(order, |order| - 1)
      modifies this`head, this`tail, table
      ensures SlotsOk(table[..], o1, hash)
      ensures Bindings(table[..], o1) == old(Bindings(table[..], order)[..i] + Bindings(table[..], order)[i + 1..])
      ensures head == At(o1, 0) && tail == At(o1, |o1| - 1)
    {
      ghost var s := table[..];
      EndsAfter(s, order, i);
      UnlinkedOk(s, order, hash, i);
      assert s[n] == table[n];
      Detach(n);
    }

    /** Frees slot `n` and links its neighbours to each other. */
    method Detach(n: nat)
      requires n < table.Length && -1 <= table[n].next < table.Length && -1 <= table[n].prev < table.Length
      requires table[n].next != n && table[n].prev != n
      requires head == n <==> table[n].prev == -1
      requires tail == n <==> table[n].next == -1
      modifies this`head, this`tail, table
      ensures table[..] == Unlinked(old(table[..]), n)
      ensures head == if old(head) == n then old(table[n].next) else old(head)
      ensures tail == if old(tail) == n then old(table[n].prev) else old(tail)
    {
      var p, q := table[n].prev, table[n].next;
      table[n] := table[n].(k := Freed, v := None);
      if tail == n && head == n {
        head, tail := -1, -1;
      } else if head == n {
        table[q] := table[q].(prev := -1);
        head := q;
      } else if tail == n {
        table[p] := table[p].(next := -1);
        tail := p;
      } else {
        table[p] := table[p].(next := q);
        table[q] := table[q].(prev := p);
      }
      table[n] := table[n].(next := -1, prev := -1);
    }

    /** Where a key stands among the bindings. */
    ghost function IndexOf(k: K): (i: nat)
      requires Valid() && HasKey(Contents(), k)
      reads this, table
      ensures i < |Contents()| && Contents()[i].key == k
    {
      var i :| 0 <= i < |Contents()| && Contents()[i].key == k; i
    }

    lemma IndexIs(n: nat, k: K)
      requires Valid() && n < size && table[n].k == Live(k)
      ensures HasKey(Contents(), k) && order[IndexOf(k)] == n
    {
      var s := table[..];
      assert s[n].k == Live(k);
      KeyInSlots(s, order, k);
      var i := IndexOf(k);
      assert s[order[i]].k == Live(k);
    }

    /** lh_table_delete: takes out the binding of the key, if there is one. */
    method Delete(k: K) returns (done: bool)
      requires Valid()
      modifies this`head, this`tail, this`count, this`order, table
      ensures Valid() && done == old(HasKey(Contents(), k))
      ensures done ==> Contents() == old(Contents()[..IndexOf(k)] + Contents()[IndexOf(k) + 1..])
      ensures !done ==> Contents() == old(Contents())
    {
      var e := LookupEntry(k);
      if e.None? { return false; }
      IndexIs(e.value, k);
      var _ := DeleteEntry(e.value, IndexOf(k));
      return true;
    }

    /** Gives a slot another value. */
    method SetValue(n: nat, v: Option<V>, ghost i: nat)
      requires Valid() && i < |order| && n == order[i]
      modifies table
      ensures Valid() && Contents() == old(Contents()[i := Contents()[i].(value := v)])
    {
      ghost var s := table[..];
      table[n] := table[n].(v := v);
      ghost var s1 := table[..];
      assert s1 == s[n := s[n].(v := v)];
      forall j | 0 <= j < |order|
        ensures Neighbours(s1, order, j)
      {
        assert Neighbours(s, order, j);
      }
    }

    /** json_object_object_add_ex: replaces the value of a key that is there, and appends one that is not.
        A value that is the object itself is refused. */
    method ObjectAdd(k: K, v: Option<V>, isSelf: bool, constant: bool, memory: int -> bool) returns (result: int)
      requires Valid()
      modifies this, table
      ensures Valid() && (result == 0 || result == -1) && (table == old(table) || fresh(table))
      ensures result == 0 && old(HasKey(Contents(), k)) ==>
                Contents() == old(Contents()[IndexOf(k) := Contents()[IndexOf(k)].(value := v)])
      ensures result == 0 && !old(HasKey(Contents(), k)) ==> Contents() == old(Contents()) + [Binding(k, v, constant)]
      ensures result == -1 ==> Contents() == old(Contents())
      ensures result == -1 <==> isSelf || (!old(HasKey(Contents(), k)) && Loaded(old(count), old(size)) &&
                                           (old(size) == INT_MAX || !memory(Grown(old(size)))))
    {
      var e := LookupEntry(k);
      if isSelf { return -1; }
      if e.None? {
        var done := Insert(k, v, constant, memory);
        return if done then 0 else -1;
      }
      IndexIs(e.value, k);
      SetValue(e.value, v, IndexOf(k));
      return 0;
    }
  }

  /** Resizing a table of three bindings to two slots, which succeeds if there is memory for two slots and for four,
      leaves the recorded size and the table apart. */
  method ShrunkTooFar<K(==, !new), V(==)>(t: Table<K, V>, memory: int -> bool) returns (done: bool)
    requires t.Valid() && t.count == 3
    modifies t, t.table
    ensures t.Kept() && t.Contents() == old(t.Contents())
    ensures done ==> t.size == 2 && !t.Valid() && t.table.Length != 2
    ensures done <==> memory(2) && memory(4)
  {
    assert RoomFor(2, 3, 2, memory) <==> memory(4) && RoomFor(3, 3, 4, memory);
    assert RoomFor(1, 3, 2, memory) <==> RoomFor(2, 3, 2, memory);
    assert RoomFor(0, 3, 2, memory) <==> RoomFor(1, 3, 2, memory);
    done := t.Resize(2, memory);
  }
}
