/** The circular doubly linked queues of wepoll. A node is in at most one queue at a time, and a node in
    none is linked to itself; removing a node does not name the queue. */
module Queue {

  class Node {
    var prev: Node
    var next: Node

    /** queue_node_init. */
    constructor ()
      ensures prev == next == this
    {
      prev, next := this, this;
    }
  }

  ghost predicate Distinct(ns: seq<Node>) {
    forall i, j :: 0 <= i < j < |ns| ==> ns[i] != ns[j]
  }

  /** The nodes are linked in this order, and the last one to the first. */
  ghost predicate Ring(ns: seq<Node>)
    reads ns
  {
    ns != [] && Distinct(ns) && ns[|ns| - 1].next == ns[0] && ns[0].prev == ns[|ns| - 1] &&
    (forall i :: 0 <= i < |ns| - 1 ==> ns[i].next == ns[i + 1]) &&
    (forall i :: 0 < i < |ns| ==> ns[i].prev == ns[i - 1])
  }

  /** queue_is_enqueued: is the node in a ring with others? */
  method IsEnqueued(node: Node, ghost before: seq<Node>, ghost after: seq<Node>) returns (b: bool)
    requires Ring(before + [node] + after)
    ensures b <==> before + after != []
  {
    ghost var ns, k := before + [node] + after, |before|;
    assert ns[k] == node && node.prev == ns[if k == 0 then |ns| - 1 else k - 1];
    b := node.prev != node;
  }

  /** queue_prepend. */
  method Prepend(head: Node, node: Node, ghost items: seq<Node>)
    requires Ring([head] + items) && node !in [head] + items
    modifies head, node, items
    ensures Ring([head] + ([node] + items))
  {
    ghost var os := [head] + items;
    assert os[0] == head && head.next == os[if items == [] then 0 else 1];
    node.next := head.next;
    node.prev := head;
    node.next.prev := node;
    head.next := node;
    ghost var ns := [head] + ([node] + items);
    assert ns[1] == node && forall i :: 2 <= i < |ns| ==> ns[i] == os[i - 1];
  }

  /** queue_append. */
  method Append(head: Node, node: Node, ghost items: seq<Node>)
    requires Ring([head] + items) && node !in [head] + items
    modifies head, node, items
    ensures Ring([head] + (items + [node]))
  {
    ghost var os := [head] + items;
    assert os[0] == head && head.prev == os[|os| - 1];
    node.next := head;
    node.prev := head.prev;
    node.prev.next := node;
    head.prev := node;
    ghost var ns := [head] + (items + [node]);
    assert ns[|ns| - 1] == node && forall i :: 0 <= i < |ns| - 1 ==> ns[i] == os[i];
  }

  /** queue__detach_node: the ring closes behind the node. */
  method Detach(node: Node, ghost head: Node, ghost a: seq<Node>, ghost b: seq<Node>)
    requires Ring([head] + (a + [node] + b))
    modifies head, node, a, b
    ensures Ring([head] + (a + b)) && node !in [head] + (a + b)
  {
    ghost var ns, k := [head] + (a + [node] + b), |a| + 1;
    assert ns[k] == node && node.prev == ns[k - 1] && node.next == ns[if b == [] then 0 else k + 1];
    node.prev.next := node.next;
    node.next.prev := node.prev;
    ghost var ms := [head] + (a + b);
    assert forall i :: 0 <= i < |ms| ==> ms[i] == ns[if i < k then i else i + 1];
  }

  /** queue_remove. */
  method Remove(node: Node, ghost head: Node, ghost a: seq<Node>, ghost b: seq<Node>)
    requires Ring([head] + (a + [node] + b))
    modifies head, node, a, b
    ensures Ring([head] + (a + b)) && Ring([node])
  {
    Detach(node, head, a, b);
    node.prev := node;
    node.next := node;
  }

  /** queue_move_to_start. */
  method MoveToStart(head: Node, node: Node, ghost a: seq<Node>, ghost b: seq<Node>)
    requires Ring([head] + (a + [node] + b))
    modifies head, node, a, b
    ensures Ring([head] + ([node] + (a + b)))
  {
    Detach(node, head, a, b);
    Prepend(head, node, a + b);
  }

  /** queue_move_to_end. */
  method MoveToEnd(head: Node, node: Node, ghost a: seq<Node>, ghost b: seq<Node>)
    requires Ring([head] + (a + [node] + b))
    modifies head, node, a, b
    ensures Ring([head] + (a + b + [node]))
  {
    Detach(node, head, a, b);
    Append(head, node, a + b);
  }

  // ---------- the two queues of a port ----------

  function Without(q: seq<Node>, x: Node): (r: seq<Node>)
    ensures x !in q ==> r == q
  {
    if q == [] then [] else (if q[0] == x then [] else [q[0]]) + Without(q[1..], x)
  }

  lemma {:induction false} WithoutSplit(q: seq<Node>, x: Node) returns (a: seq<Node>, b: seq<Node>)
    requires x in q && Distinct(q)
    ensures q == a + [x] + b && Without(q, x) == a + b
  {
    if q[0] == x {
      a, b := [], q[1..];
    } else {
      var a1, b1 := WithoutSplit(q[1..], x);
      a, b := [q[0]] + a1, b1;
    }
  }

  /** What is left of a queue: all but the node. */
  lemma ApartFrom(q: seq<Node>, q1: seq<Node>, node: Node, l: seq<Node>, r: seq<Node>)
    requires q == l + [node] + r && q1 == l + r && Distinct(q)
    ensures forall n :: n in q1 <==> n in q && n != node
  {
    assert forall i :: 0 <= i < |q1| ==> q1[i] == q[if i < |l| then i else i + 1];
    assert q[|l|] == node;
  }

  /** The nodes that are in neither queue are linked to themselves. */
  ghost predicate OthersFree(nodes: set<Node>, q: seq<Node>, r: seq<Node>)
    reads nodes
  {
    forall n :: n in nodes && n !in q && n !in r ==> n.prev == n && n.next == n
  }

  /** Two rings through nodes of `nodes`, with nothing in common. */
  ghost predicate Apart(nodes: set<Node>, head: Node, q: seq<Node>, other: Node, r: seq<Node>) {
    head != other && head !in nodes && other !in nodes && (forall n :: n in q ==> n in nodes) &&
    (forall n :: n in r ==> n in nodes && n !in q)
  }

  /** Removing a node from its ring leaves another ring and the free nodes alone. */
  method RemoveOne(node: Node, ghost nodes: set<Node>, ghost head: Node, ghost q: seq<Node>, ghost other: Node,
      ghost r: seq<Node>)
    returns (ghost q1: seq<Node>)
    requires Apart(nodes, head, q, other, r) && Ring([head] + q) && Ring([other] + r) && OthersFree(nodes, q, r) &&
      node in q
    modifies head, nodes
    ensures q1 == Without(q, node) && (forall n :: n in q1 <==> n in q && n != node)
    ensures Apart(nodes, head, q1, other, r) && Ring([head] + q1) && Ring([other] + r) && OthersFree(nodes, q1, r)
  {
    DistinctTail(head, q);
    ghost var a, b := WithoutSplit(q, node);
    q1 := a + b;
    ApartFrom(q, q1, node, a, b);
    ghost var ring := [other] + r;
    assert forall n :: n in ring ==> n != head && n !in q;
    Remove(node, head, a, b);
    assert [node][0].next == node && [node][0].prev == node;
    assert forall i :: 0 <= i < |ring| ==> ring[i].next == old(ring[i].next) && ring[i].prev == old(ring[i].prev);
  }

  /** The update queue and the deleted queue, which share the nodes of the records. */
  class SockQueues {
    const updateHead: Node
    const deletedHead: Node
    ghost var update: seq<Node>
    ghost var deleted: seq<Node>
    ghost const nodes: set<Node>

    ghost predicate Valid()
      reads this, nodes, updateHead, deletedHead
    {
      Apart(nodes, updateHead, update, deletedHead, deleted) && Ring([updateHead] + update) &&
      Ring([deletedHead] + deleted) && OthersFree(nodes, update, deleted)
    }

    /** queue_init of both; `nodes` are those of the records to come. */
    constructor (ghost nodes: set<Node>)
      requires forall n :: n in nodes ==> n.prev == n.next == n
      ensures Valid() && update == deleted == [] && this.nodes == nodes
    {
      updateHead := new Node();
      deletedHead := new Node();
      update, deleted := [], [];
      this.nodes := nodes;
    }

    /** queue_is_enqueued of a record's node: it is in one queue or the other. */
    method Enqueued(node: Node) returns (b: bool)
      requires Valid() && node in nodes
      ensures b <==> node in update || node in deleted
    {
      b := node.prev != node;
      if node in update {
        ghost var i :| 0 <= i < |update| && update[i] == node;
        ghost var ring := [updateHead] + update;
        assert ring[i + 1] == node && node.prev == ring[i];
      } else if node in deleted {
        ghost var i :| 0 <= i < |deleted| && deleted[i] == node;
        ghost var ring := [deletedHead] + deleted;
        assert ring[i + 1] == node && node.prev == ring[i];
      }
    }

    /** port_cancel_socket_update and port_remove_deleted_socket: the same code takes the node out of
        whichever queue it is in. */
    method Cancel(node: Node)
      requires Valid() && node in nodes
      modifies this, nodes, updateHead, deletedHead
      ensures Valid() && update == Without(old(update), node) && deleted == Without(old(deleted), node)
    {
      var b := Enqueued(node);
      if !b { return; }
      ghost var inUpdate := node in update;
      ghost var head, items := if inUpdate then updateHead else deletedHead, if inUpdate then update else deleted;
      ghost var other, others := if inUpdate then deletedHead else updateHead, if inUpdate then deleted else update;
      ghost var q := RemoveOne(node, nodes, head, items, other, others);
      if inUpdate { update := q; } else { deleted := q; }
    }

    /** port_request_socket_update. */
    method RequestUpdate(node: Node)
      requires Valid() && node in nodes
      modifies this, nodes, updateHead, deletedHead
      ensures Valid() && deleted == old(deleted)
      ensures update == if node in old(update) || node in old(deleted) then old(update) else old(update) + [node]
    {
      var b := Enqueued(node);
      if b { return; }
      Append(updateHead, node, update);
      update := update + [node];
    }

    /** port_add_deleted_socket. */
    method AddDeleted(node: Node)
      requires Valid() && node in nodes
      modifies this, nodes, updateHead, deletedHead
      ensures Valid() && update == old(update)
      ensures deleted == if node in old(update) || node in old(deleted) then old(deleted) else old(deleted) + [node]
    {
      var b := Enqueued(node);
      if b { return; }
      Append(deletedHead, node, deleted);
      deleted := deleted + [node];
    }
  }

  lemma DistinctTail(head: Node, items: seq<Node>)
    requires Distinct([head] + items)
    ensures Distinct(items)
  {
    assert forall i :: 0 <= i < |items| ==> items[i] == ([head] + items)[i + 1];
  }
}
