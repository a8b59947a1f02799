/** The reference counts of json_object.c, as far as the tokener moves them: which slot of the parser's
    stack, and which caller, holds which node. */
module JsonMemory {
  import opened Json

  /** A node with its own identity and the nodes it holds; or NULL, which stands for the JSON null. */
  datatype Node = NullNode | Node(id: nat, kids: seq<Node>)

  /** The references that a slot holds: one to each node of the tree in it. */
  function Ids(n: Node): multiset<nat>
    decreases n, 1
  {
    if n.NullNode? then multiset{} else multiset{n.id} + KidIds(n, |n.kids|)
  }

  function KidIds(n: Node, i: nat): multiset<nat>
    requires n.Node? && i <= |n.kids|
    decreases n, 0, i
  {
    if i == 0 then multiset{} else KidIds(n, i - 1) + Ids(n.kids[i - 1])
  }

  function StackIds(ns: seq<Node>): multiset<nat> {
    if ns == [] then multiset{} else StackIds(ns[..|ns| - 1]) + Ids(ns[|ns| - 1])
  }

  /** The tree has the shape of the value. */
  ghost predicate Shows(n: Node, v: Json)
    decreases v
  {
    match v
    case Null => n.NullNode?
    case Array(xs) => n.Node? && |n.kids| == |xs| && forall i :: 0 <= i < |xs| ==> Shows(n.kids[i], xs[i])
    case Object(ms) => n.Node? && |n.kids| == |ms| && forall i :: 0 <= i < |ms| ==> Shows(n.kids[i], ms[i].value)
    case _ => n.Node? && n.kids == []
  }

  // ---------- counting ----------

  /** json_object_get. */
  function Get(refs: multiset<nat>, n: Node): multiset<nat> {
    if n.NullNode? then refs else refs + multiset{n.id}
  }

  /** json_object_put: the last reference frees the node and puts the nodes it holds. */
  function Put(refs: multiset<nat>, n: Node): multiset<nat>
    decreases n, 1
  {
    if n.NullNode? then refs
    else if refs[n.id] > 1 then refs - multiset{n.id}
    else PutKids(refs - multiset{n.id}, n, |n.kids|)
  }

  function PutKids(refs: multiset<nat>, n: Node, i: nat): multiset<nat>
    requires n.Node? && i <= |n.kids|
    decreases n, 0, i
  {
    if i == 0 then refs else Put(PutKids(refs, n, i - 1), n.kids[i - 1])
  }

  /** No node has more than one reference. */
  predicate Single(refs: multiset<nat>) { forall id :: id in refs ==> refs[id] == 1 }

  /** Putting a tree whose nodes nobody else holds frees all of it and nothing else. */
  lemma {:induction false} PutFrees(refs: multiset<nat>, n: Node)
    requires Single(refs) && Ids(n) <= refs
    ensures Put(refs, n) == refs - Ids(n) && Single(refs - Ids(n))
    decreases n, 1
  {
    if n.Node? {
      var rest := refs - multiset{n.id};
      assert Single(rest);
      assert refs[n.id] == 1 && KidIds(n, |n.kids|) <= rest;
      PutKidsFrees(rest, n, |n.kids|);
    }
  }

  lemma Remaining(refs: multiset<nat>, a: multiset<nat>, b: multiset<nat>)
    requires a + b <= refs
    ensures a <= refs && b <= refs - a && refs - a - b == refs - (a + b)
  {
  }

  lemma {:induction false} PutKidsFrees(refs: multiset<nat>, n: Node, i: nat)
    requires n.Node? && i <= |n.kids| && Single(refs) && KidIds(n, i) <= refs
    ensures PutKids(refs, n, i) == refs - KidIds(n, i) && Single(refs - KidIds(n, i))
    decreases n, 0, i
  {
    if i > 0 {
      var a, b := KidIds(n, i - 1), Ids(n.kids[i - 1]);
      Remaining(refs, a, b);
      PutKidsFrees(refs, n, i - 1);
      PutFrees(refs - a, n.kids[i - 1]);
    }
  }

  // ---------- the memory of the tokener ----------

  /** The counts of all nodes there are, and the trees in the slots of the stack, the top apart. Nodes from
      `next` on are not used yet. */
  datatype Memory = Memory(refs: multiset<nat>, lower: seq<Node>, top: Node, next: nat)

  const FRESH := Memory(multiset{}, [], NullNode, 0)

  /** Every node has exactly one reference, and that one is in a slot or `outside`. */
  ghost predicate Owned(m: Memory, outside: multiset<nat>) {
    m.refs == outside + StackIds(m.lower) + Ids(m.top) && Single(m.refs) && (forall id :: id in m.refs ==> id < m.next)
  }

  /** A new object for the empty slot on top. */
  function Created(m: Memory): Memory {
    m.(refs := m.refs + multiset{m.next}, top := Node(m.next, []), next := m.next + 1)
  }

  lemma CreatedOwned(m: Memory, outside: multiset<nat>)
    requires Owned(m, outside) && m.top.NullNode?
    ensures Owned(Created(m), outside)
  {
    assert KidIds(Node(m.next, []), 0) == multiset{};
  }

  /** A new level. */
  function Deeper(m: Memory): Memory { m.(lower := m.lower + [m.top], top := NullNode) }

  lemma DeeperOwned(m: Memory, outside: multiset<nat>)
    requires Owned(m, outside)
    ensures Owned(Deeper(m), outside)
  {
    assert Deeper(m).lower[..|m.lower|] == m.lower;
  }

  /** The state finish: the local obj takes a reference, and the level on top is reset and left. */
  function Finished(m: Memory): multiset<nat> { Put(Get(m.refs, m.top), m.top) }

  lemma FinishedSame(m: Memory, outside: multiset<nat>)
    requires Owned(m, outside)
    ensures Finished(m) == m.refs
  {
    if m.top.Node? {
      assert m.refs[m.top.id] == 1;
      assert m.refs + multiset{m.top.id} - multiset{m.top.id} == m.refs;
    }
  }

  /** obj becomes element `k` of the container below: the last one, or in the place of another, which is put. */
  function Attached(m: Memory, k: nat): Memory
    requires m.lower != [] && var p := m.lower[|m.lower| - 1]; p.Node? && k <= |p.kids|
  {
    var p, refs := m.lower[|m.lower| - 1], Finished(m);
    m.(lower := m.lower[..|m.lower| - 1],
       refs := if k < |p.kids| then Put(refs, p.kids[k]) else refs,
       top := Node(p.id, if k < |p.kids| then p.kids[k := m.top] else p.kids + [m.top]))
  }

  lemma {:induction false} KidIdsSame(n: Node, n1: Node, i: nat)
    requires n.Node? && n1.Node? && i <= |n.kids| && i <= |n1.kids| && forall j :: 0 <= j < i ==>
      n.kids[j] == n1.kids[j]
    ensures KidIds(n, i) == KidIds(n1, i)
    decreases i
  {
    if i > 0 { KidIdsSame(n, n1, i - 1); }
  }

  /** The references of a node whose element `k` is another one. */
  lemma {:induction false} KidIdsReplaced(n: Node, n1: Node, k: nat, i: nat)
    requires n.Node? && n1.Node? && k < i <= |n.kids| == |n1.kids| && forall j :: 0 <= j < i && j != k ==>
      n.kids[j] == n1.kids[j]
    ensures KidIds(n1, i) + Ids(n.kids[k]) == KidIds(n, i) + Ids(n1.kids[k])
    decreases i
  {
    if i - 1 == k {
      KidIdsSame(n, n1, k);
      Swapped(KidIds(n, k), Ids(n.kids[k]), Ids(n1.kids[k]));
    } else {
      KidIdsReplaced(n, n1, k, i - 1);
      Extended(KidIds(n1, i - 1), Ids(n.kids[k]), KidIds(n, i - 1), Ids(n1.kids[k]), Ids(n.kids[i - 1]));
    }
  }

  lemma Swapped(a: multiset<nat>, b: multiset<nat>, c: multiset<nat>)
    ensures a + c + b == a + b + c
  {
  }

  lemma Extended(a: multiset<nat>, b: multiset<nat>, c: multiset<nat>, d: multiset<nat>, e: multiset<nat>)
    requires a + b == c + d
    ensures a + e + b == c + e + d
  {
    assert a + e + b == a + b + e && c + e + d == c + d + e;
  }

  lemma {:induction false} KidIn(n: Node, k: nat, i: nat)
    requires n.Node? && k < i <= |n.kids|
    ensures Ids(n.kids[k]) <= KidIds(n, i)
    decreases i
  {
    if k < i - 1 { KidIn(n, k, i - 1); }
  }

  /** One node more, or one for another, in the references of the container. */
  lemma AttachedIds(p: Node, x: Node, k: nat, n: Node, gone: multiset<nat>)
    requires p.Node? && k <= |p.kids| && n == Node(p.id, if k < |p.kids| then p.kids[k := x] else p.kids + [x])
    requires gone == if k < |p.kids| then Ids(p.kids[k]) else multiset{}
    ensures KidIds(n, |n.kids|) + gone == KidIds(p, |p.kids|) + Ids(x)
  {
    if k < |p.kids| {
      KidIdsReplaced(p, n, k, |p.kids|);
    } else {
      KidIdsSame(p, n, |p.kids|);
    }
  }

  lemma AttachedOwned(m: Memory, k: nat, outside: multiset<nat>)
    requires Owned(m, outside) && m.lower != [] && var p := m.lower[|m.lower| - 1]; p.Node? && k <= |p.kids|
    ensures Owned(Attached(m, k), outside)
  {
    var p, rest := m.lower[|m.lower| - 1], StackIds(m.lower[..|m.lower| - 1]);
    var m1 := Attached(m, k);
    var gone := if k < |p.kids| then Ids(p.kids[k]) else multiset{};
    FinishedSame(m, outside);
    AttachedIds(p, m.top, k, m1.top, gone);
    if k < |p.kids| {
      KidIn(p, k, |p.kids|);
      GoneHeld(m.refs, outside, rest, multiset{p.id}, KidIds(p, |p.kids|), Ids(m.top), gone);
      PutFrees(m.refs, p.kids[k]);
    }
    assert m1.refs == m.refs - gone;
    Exchanged(m.refs, outside, rest, multiset{p.id}, KidIds(p, |p.kids|), Ids(m.top), gone,
      KidIds(m1.top, |m1.top.kids|));
  }

  lemma GoneHeld(refs: multiset<nat>, outer: multiset<nat>, rest: multiset<nat>, self: multiset<nat>,
    kids: multiset<nat>,
      top: multiset<nat>, gone: multiset<nat>)
    requires refs == outer + (rest + (self + kids)) + top && gone <= kids
    ensures gone <= refs
  {
  }

  lemma Exchanged(refs: multiset<nat>, outer: multiset<nat>, rest: multiset<nat>, self: multiset<nat>,
    kids: multiset<nat>,
      top: multiset<nat>, gone: multiset<nat>, kids1: multiset<nat>)
    requires refs == outer + (rest + (self + kids)) + top && kids1 + gone == kids + top
    ensures refs - gone == outer + rest + (self + kids1)
  {
    assert refs == outer + rest + self + (kids + top) == outer + rest + self + (kids1 + gone);
  }

  /** The level below was reset: obj has no place to go to and is forgotten with its reference. */
  function Dropped(m: Memory): Memory { m.(refs := Finished(m), top := NullNode) }

  lemma DroppedOwned(m: Memory, outside: multiset<nat>)
    requires Owned(m, outside)
    ensures Owned(Dropped(m), outside + Ids(m.top)) && (Ids(m.top) == multiset{} <==> m.top.NullNode?)
  {
    FinishedSame(m, outside);
    if m.top.Node? { assert m.top.id in Ids(m.top); }
  }

  /** json_tokener_reset_level for all levels, from the top down. */
  function PutStack(refs: multiset<nat>, ns: seq<Node>): multiset<nat>
    decreases |ns|
  {
    if ns == [] then refs else PutStack(Put(refs, ns[|ns| - 1]), ns[..|ns| - 1])
  }

  lemma {:induction false} PutStackFrees(refs: multiset<nat>, ns: seq<Node>)
    requires Single(refs) && StackIds(ns) <= refs
    ensures PutStack(refs, ns) == refs - StackIds(ns) && Single(refs - StackIds(ns))
    decreases |ns|
  {
    if ns != [] {
      var n, rest := ns[|ns| - 1], ns[..|ns| - 1];
      PutFrees(refs, n);
      PutStackFrees(refs - Ids(n), rest);
      assert refs - Ids(n) - StackIds(rest) == refs - StackIds(ns);
    }
  }

  /** A success: the caller gets a reference to the value on top, and all levels are reset. */
  function Returned(m: Memory): Memory {
    m.(refs := PutStack(Put(Get(m.refs, m.top), m.top), m.lower), top := NullNode, lower := [])
  }

  lemma ReturnedOwned(m: Memory, outside: multiset<nat>)
    requires Owned(m, outside)
    ensures Owned(Returned(m), outside + Ids(m.top))
  {
    FinishedSame(m, outside);
    PutStackFrees(m.refs, m.lower);
  }

  /** json_tokener_reset: all levels are reset and left. */
  function Cleared(m: Memory): Memory {
    m.(refs := PutStack(Put(m.refs, m.top), m.lower), top := NullNode, lower := [])
  }

  lemma ClearedOwned(m: Memory, outside: multiset<nat>)
    requires Owned(m, outside)
    ensures Owned(Cleared(m), outside) && Cleared(m).refs == outside
  {
    PutFrees(m.refs, m.top);
    PutStackFrees(m.refs - Ids(m.top), m.lower);
  }
}
