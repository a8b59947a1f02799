/** Pure theory of the socket tree: red-black shapes, paths from a node to the root, and what the
    rebalancing steps of tree_add and tree_del do to them. Nothing here mentions the heap. */
module RbShape {

  /** A binary tree of node identities; each carries the key and colour stored in the node. */
  datatype Shape<N> = Leaf | Node(left: Shape<N>, node: N, key: nat, red: bool, right: Shape<N>)

  /** What surrounds a subtree: the frames from the subtree's parent up to the root. */
  datatype Path<N> =
    | Top
    | InLeft(up: Path<N>, node: N, key: nat, red: bool, right: Shape<N>)
    | InRight(up: Path<N>, left: Shape<N>, node: N, key: nat, red: bool)

  function Plug<N>(c: Path<N>, t: Shape<N>): Shape<N> {
    match c
    case Top => t
    case InLeft(up, n, k, red, r) => Plug(up, Node(t, n, k, red, r))
    case InRight(up, l, n, k, red) => Plug(up, Node(l, n, k, red, t))
  }

  lemma {:induction false} PlugNode<N>(c: Path<N>, t: Shape<N>)
    requires t.Node?
    ensures Plug(c, t).Node?
  {
    match c
    case Top =>
    case InLeft(up, n, k, red, r) => PlugNode(up, Node(t, n, k, red, r));
    case InRight(up, l, n, k, red) => PlugNode(up, Node(l, n, k, red, t));
  }

  // ---------- contents ----------

  lemma Regroup<T>(b: seq<T>, l: seq<T>, x: seq<T>, r: seq<T>, a: seq<T>)
    ensures b + (l + x + r) + a == (b + l) + x + (r + a)
    ensures b + (l + x + r) + a == b + l + (x + r + a)
    ensures b + (l + x + r) + a == (b + l + x) + r + a
    ensures b + l + (x + r + a) == (b + l + x) + r + a
  {
  }

  /** Nodes with their keys, from left to right. */
  function Inorder<N>(t: Shape<N>): seq<(N, nat)> {
    match t
    case Leaf => []
    case Node(l, n, k, _, r) => Inorder(l) + [(n, k)] + Inorder(r)
  }

  function Before<N>(c: Path<N>): seq<(N, nat)> {
    match c
    case Top => []
    case InLeft(up, _, _, _, _) => Before(up)
    case InRight(up, l, n, k, _) => Before(up) + Inorder(l) + [(n, k)]
  }

  function After<N>(c: Path<N>): seq<(N, nat)> {
    match c
    case Top => []
    case InLeft(up, n, k, _, r) => [(n, k)] + Inorder(r) + After(up)
    case InRight(up, _, _, _, _) => After(up)
  }

  lemma {:induction false} PlugInorder<N>(c: Path<N>, t: Shape<N>)
    ensures Inorder(Plug(c, t)) == Before(c) + Inorder(t) + After(c)
  {
    match c
    case Top =>
    case InLeft(up, n, k, red, r) =>
      PlugInorder(up, Node(t, n, k, red, r));
      Regroup(Before(up), Inorder(t), [(n, k)], Inorder(r), After(up));
    case InRight(up, l, n, k, red) =>
      PlugInorder(up, Node(l, n, k, red, t));
      Regroup(Before(up), Inorder(l), [(n, k)], Inorder(t), After(up));
  }

  ghost predicate Ascending<N>(s: seq<(N, nat)>) {
    forall i, j :: 0 <= i < j < |s| ==> s[i].1 < s[j].1
  }

  /** The set of nodes of a shape, and of the frames of a path with their side trees. */
  ghost function Nodes<N>(t: Shape<N>): set<N> {
    match t
    case Leaf => {}
    case Node(l, n, _, _, r) => Nodes(l) + {n} + Nodes(r)
  }

  ghost function PathNodes<N>(c: Path<N>): set<N> {
    match c
    case Top => {}
    case InLeft(up, n, _, _, r) => {n} + Nodes(r) + PathNodes(up)
    case InRight(up, l, n, _, _) => {n} + Nodes(l) + PathNodes(up)
  }

  /** No node occurs twice. */
  ghost predicate NoDup<N>(t: Shape<N>) {
    match t
    case Leaf => true
    case Node(l, n, _, _, r) =>
      n !in Nodes(l) && n !in Nodes(r) && Nodes(l) !! Nodes(r) && NoDup(l) && NoDup(r)
  }

  /** No node of the path occurs twice or occurs in `below`. */
  ghost predicate NoDupPath<N>(c: Path<N>, below: set<N>) {
    match c
    case Top => true
    case InLeft(up, n, _, _, r) =>
      n !in below && n !in Nodes(r) && below !! Nodes(r) && NoDup(r) && NoDupPath(up, below + {n} + Nodes(r))
    case InRight(up, l, n, _, _) =>
      n !in below && n !in Nodes(l) && below !! Nodes(l) && NoDup(l) && NoDupPath(up, below + {n} + Nodes(l))
  }

  lemma {:induction false} PathApart<N>(c: Path<N>, below: set<N>)
    requires NoDupPath(c, below)
    ensures PathNodes(c) !! below
  {
    match c
    case Top =>
    case InLeft(up, n, _, _, r) => PathApart(up, below + {n} + Nodes(r));
    case InRight(up, l, n, _, _) => PathApart(up, below + {n} + Nodes(l));
  }

  lemma {:induction false} PathShrink<N>(c: Path<N>, below: set<N>, less: set<N>)
    requires NoDupPath(c, below) && less <= below
    ensures NoDupPath(c, less)
  {
    match c
    case Top =>
    case InLeft(up, n, _, _, r) => PathShrink(up, below + {n} + Nodes(r), less + {n} + Nodes(r));
    case InRight(up, l, n, _, _) => PathShrink(up, below + {n} + Nodes(l), less + {n} + Nodes(l));
  }

  lemma {:induction false} PathGrow<N>(c: Path<N>, below: set<N>, x: N)
    requires NoDupPath(c, below) && x !in PathNodes(c)
    ensures NoDupPath(c, below + {x})
  {
    match c
    case Top =>
    case InLeft(up, n, _, _, r) =>
      PathGrow(up, below + {n} + Nodes(r), x);
      assert below + {x} + {n} + Nodes(r) == below + {n} + Nodes(r) + {x};
    case InRight(up, l, n, _, _) =>
      PathGrow(up, below + {n} + Nodes(l), x);
      assert below + {x} + {n} + Nodes(l) == below + {n} + Nodes(l) + {x};
  }

  // ---------- colours and black heights ----------

  predicate IsRed<N>(t: Shape<N>) { t.Node? && t.red }

  /** Black nodes on the leftmost way down; on every way down when Balanced. */
  function BlackHeight<N>(t: Shape<N>): nat {
    match t
    case Leaf => 0
    case Node(l, _, _, red, _) => BlackHeight(l) + if red then 0 else 1
  }

  /** No red node has a red child, and both sides of every node have the same black height. */
  predicate Balanced<N>(t: Shape<N>) {
    match t
    case Leaf => true
    case Node(l, _, _, red, r) =>
      Balanced(l) && Balanced(r) && BlackHeight(l) == BlackHeight(r) &&
      (red ==> !IsRed(l) && !IsRed(r))
  }

  /** Plugging a balanced shape of black height `h`, red only if `mayBeRed`, gives a balanced tree
      with a black root or with the plugged shape itself as root. */
  predicate BalancedPath<N>(c: Path<N>, h: nat, mayBeRed: bool) {
    match c
    case Top => true
    case InLeft(up, _, _, red, r) =>
      Balanced(r) && BlackHeight(r) == h && (red ==> !IsRed(r) && !mayBeRed) &&
      BalancedPath(up, if red then h else h + 1, red)
    case InRight(up, l, _, _, red) =>
      Balanced(l) && BlackHeight(l) == h && (red ==> !IsRed(l) && !mayBeRed) &&
      BalancedPath(up, if red then h else h + 1, red)
  }

  lemma {:induction false} PlugBalanced<N>(c: Path<N>, t: Shape<N>)
    requires Balanced(t) && BalancedPath(c, BlackHeight(t), IsRed(t))
    ensures Balanced(Plug(c, t))
  {
    match c
    case Top =>
    case InLeft(up, n, k, red, r) => PlugBalanced(up, Node(t, n, k, red, r));
    case InRight(up, l, n, k, red) => PlugBalanced(up, Node(l, n, k, red, t));
  }

  lemma {:induction false} UnplugBalanced<N>(c: Path<N>, t: Shape<N>)
    requires Balanced(Plug(c, t))
    ensures Balanced(t) && BalancedPath(c, BlackHeight(t), IsRed(t))
  {
    match c
    case Top =>
    case InLeft(up, n, k, red, r) => UnplugBalanced(up, Node(t, n, k, red, r));
    case InRight(up, l, n, k, red) => UnplugBalanced(up, Node(l, n, k, red, t));
  }

  function Blacken<N>(t: Shape<N>): Shape<N> {
    if t.Node? then t.(red := false) else t
  }

  ghost predicate RedBlack<N>(t: Shape<N>) {
    Balanced(t) && !IsRed(t) && Ascending(Inorder(t)) && NoDup(t)
  }

  // ---------- rotations ----------

  function RotatedLeft<N>(t: Shape<N>): Shape<N>
    requires t.Node? && t.right.Node?
  {
    var q := t.right;
    Node(Node(t.left, t.node, t.key, t.red, q.left), q.node, q.key, q.red, q.right)
  }

  function RotatedRight<N>(t: Shape<N>): Shape<N>
    requires t.Node? && t.left.Node?
  {
    var q := t.left;
    Node(q.left, q.node, q.key, q.red, Node(q.right, t.node, t.key, t.red, t.right))
  }

  lemma RotatedLeftOrder<N>(t: Shape<N>)
    requires t.Node? && t.right.Node?
    ensures Inorder(RotatedLeft(t)) == Inorder(t)
  {
    Regroup(Inorder(t.left), [(t.node, t.key)], Inorder(t.right.left), [(t.right.node, t.right.key)],
            Inorder(t.right.right));
  }

  lemma RotatedRightOrder<N>(t: Shape<N>)
    requires t.Node? && t.left.Node?
    ensures Inorder(RotatedRight(t)) == Inorder(t)
  {
    Regroup(Inorder(t.left.left), [(t.left.node, t.left.key)], Inorder(t.left.right), [(t.node, t.key)],
            Inorder(t.right));
  }

  lemma RotatedLeftSame<N>(t: Shape<N>)
    requires NoDup(t) && t.Node? && t.right.Node?
    ensures Nodes(RotatedLeft(t)) == Nodes(t) && NoDup(RotatedLeft(t))
    ensures Inorder(RotatedLeft(t)) == Inorder(t)
  {
    RotatedLeftOrder(t);
    assert NoDup(t.right);
    assert Nodes(t) == Nodes(t.left) + {t.node} + Nodes(t.right.left) + {t.right.node} + Nodes(t.right.right);
  }

  lemma RotatedRightSame<N>(t: Shape<N>)
    requires NoDup(t) && t.Node? && t.left.Node?
    ensures Nodes(RotatedRight(t)) == Nodes(t) && NoDup(RotatedRight(t))
    ensures Inorder(RotatedRight(t)) == Inorder(t)
  {
    RotatedRightOrder(t);
    assert NoDup(t.left);
    assert Nodes(t) == Nodes(t.left.left) + {t.left.node} + Nodes(t.left.right) + {t.node} + Nodes(t.right);
  }

  // ---------- searching ----------

  ghost predicate Below<N>(s: seq<(N, nat)>, key: nat) {
    forall i :: 0 <= i < |s| ==> s[i].1 < key
  }

  ghost predicate Above<N>(s: seq<(N, nat)>, key: nat) {
    forall i :: 0 <= i < |s| ==> key < s[i].1
  }

  lemma AscendingAround<N>(a: seq<(N, nat)>, e: (N, nat), b: seq<(N, nat)>)
    requires Ascending(a + [e] + b)
    ensures Below(a, e.1) && Above(b, e.1)
  {
    var s := a + [e] + b;
    assert s[|a|] == e;
    assert forall i :: 0 <= i < |a| ==> s[i] == a[i];
    forall i | 0 <= i < |b|
      ensures e.1 < b[i].1
    {
      assert s[|a| + 1 + i] == b[i];
    }
  }

  lemma AscendingBetween<N>(a: seq<(N, nat)>, e: (N, nat), b: seq<(N, nat)>)
    requires Ascending(a + b) && Below(a, e.1) && Above(b, e.1)
    ensures Ascending(a + [e] + b)
  {
    var s, s' := a + b, a + [e] + b;
    assert forall i :: 0 <= i < |a| ==> s'[i] == a[i] == s[i];
    assert forall i :: |a| < i < |s'| ==> s'[i] == b[i - |a| - 1] == s[i - 1];
  }

  /** `key` belongs into the hole of `c`. */
  ghost predicate Between<N>(c: Path<N>, key: nat) {
    Below(Before(c), key) && Above(After(c), key)
  }

  lemma AboveConcat<N>(a: seq<(N, nat)>, b: seq<(N, nat)>, key: nat)
    ensures Above(a + b, key) <==> Above(a, key) && Above(b, key)
  {
    assert forall i :: 0 <= i < |a| ==> (a + b)[i] == a[i];
    assert forall i :: 0 <= i < |b| ==> (a + b)[|a| + i] == b[i];
  }

  lemma BelowConcat<N>(a: seq<(N, nat)>, b: seq<(N, nat)>, key: nat)
    ensures Below(a + b, key) <==> Below(a, key) && Below(b, key)
  {
    assert forall i :: 0 <= i < |a| ==> (a + b)[i] == a[i];
    assert forall i :: 0 <= i < |b| ==> (a + b)[|a| + i] == b[i];
  }

  lemma AroundRoot<N>(c: Path<N>, t: Shape<N>)
    requires t.Node? && Ascending(Inorder(Plug(c, t)))
    ensures Below(Inorder(t.left), t.key) && Above(Inorder(t.right), t.key)
  {
    PlugInorder(c, t);
    Regroup(Before(c), Inorder(t.left), [(t.node, t.key)], Inorder(t.right), After(c));
    AscendingAround(Before(c) + Inorder(t.left), (t.node, t.key), Inorder(t.right) + After(c));
    BelowConcat(Before(c), Inorder(t.left), t.key);
    AboveConcat(Inorder(t.right), After(c), t.key);
  }

  lemma BetweenDown<N>(c: Path<N>, t: Shape<N>, key: nat)
    requires t.Node? && Ascending(Inorder(Plug(c, t))) && Between(c, key)
    ensures key < t.key ==> Between(InLeft(c, t.node, t.key, t.red, t.right), key)
    ensures key > t.key ==> Between(InRight(c, t.left, t.node, t.key, t.red), key)
  {
    AroundRoot(c, t);
    if key < t.key {
      AboveConcat([(t.node, t.key)], Inorder(t.right), key);
      AboveConcat([(t.node, t.key)] + Inorder(t.right), After(c), key);
    } else if key > t.key {
      BelowConcat(Before(c), Inorder(t.left), key);
      BelowConcat(Before(c) + Inorder(t.left), [(t.node, t.key)], key);
    }
  }

  ghost predicate HasKey<N>(s: seq<(N, nat)>, key: nat) {
    exists i :: 0 <= i < |s| && s[i].1 == key
  }

  lemma BetweenMisses<N>(c: Path<N>, key: nat)
    requires Between(c, key)
    ensures !HasKey(Inorder(Plug(c, Leaf)), key)
  {
    PlugInorder(c, Leaf);
  }

  lemma PluggedKey<N>(c: Path<N>, t: Shape<N>)
    requires t.Node?
    ensures HasKey(Inorder(Plug(c, t)), t.key) && (t.node, t.key) in Inorder(Plug(c, t))
  {
    PlugInorder(c, t);
    assert Inorder(Plug(c, t))[|Before(c)| + |Inorder(t.left)|] == (t.node, t.key);
  }

  ghost function InsertedAt<N>(s: seq<(N, nat)>, i: nat, e: (N, nat)): seq<(N, nat)>
    requires i <= |s|
  {
    s[..i] + [e] + s[i..]
  }

  lemma PlugNewLeaf<N>(c: Path<N>, n: N, key: nat)
    requires Between(c, key) && Ascending(Inorder(Plug(c, Leaf)))
    ensures |Before(c)| <= |Inorder(Plug(c, Leaf))|
    ensures Inorder(Plug(c, Node(Leaf, n, key, true, Leaf))) ==
      InsertedAt(Inorder(Plug(c, Leaf)), |Before(c)|, (n, key))
    ensures Ascending(Inorder(Plug(c, Node(Leaf, n, key, true, Leaf))))
  {
    PlugInorder(c, Leaf);
    PlugInorder(c, Node(Leaf, n, key, true, Leaf));
    var b, a := Before(c), After(c);
    assert Inorder(Node(Leaf, n, key, true, Leaf)) == [(n, key)];
    assert b + [] + a == b + a;
    assert (b + a)[..|b|] == b && (b + a)[|b|..] == a;
    AscendingBetween(b, (n, key), a);
  }

  // ---------- repairing after an insertion ----------

  /** The colour of the root of a plugged tree, when the path is not empty. */
  predicate TopRed<N>(c: Path<N>) {
    c != Top && if c.up.Top? then c.red else TopRed(c.up)
  }

  /** The red shape `t` is in place but its parent may be red too; all else is in order. */
  ghost predicate AddInv<N>(c: Path<N>, t: Shape<N>) {
    IsRed(t) && Balanced(t) && BalancedPath(c, BlackHeight(t), false) && !TopRed(c)
  }

  lemma AddInvLeaf<N>(c: Path<N>, n: N, key: nat)
    requires Balanced(Plug(c, Leaf)) && !IsRed(Plug(c, Leaf))
    ensures AddInv(c, Node(Leaf, n, key, true, Leaf))
  {
    UnplugBalanced(c, Leaf);
    PlugTop(c, Leaf);
  }

  lemma {:induction false} PlugTop<N>(c: Path<N>, t: Shape<N>)
    ensures c != Top ==> IsRed(Plug(c, t)) == TopRed(c)
  {
    match c
    case Top =>
    case InLeft(up, n, k, red, r) => PlugTop(up, Node(t, n, k, red, r));
    case InRight(up, l, n, k, red) => PlugTop(up, Node(l, n, k, red, t));
  }

  function Length<N>(c: Path<N>): nat {
    if c.Top? then 0 else 1 + Length(c.up)
  }

  /** `t` with the frame around it. */
  function Framed<N>(c: Path<N>, t: Shape<N>): Shape<N>
    requires c != Top
  {
    if c.InLeft? then Node(t, c.node, c.key, c.red, c.right) else Node(c.left, c.node, c.key, c.red, t)
  }

  /** Red parent and uncle turn black, and the conflict moves to their parent. */
  function PushedUp<N>(g: Shape<N>): Shape<N>
    requires g.Node? && g.left.Node? && g.right.Node?
  {
    Node(g.left.(red := false), g.node, g.key, true, g.right.(red := false))
  }

  /** The parent `p` on the left takes the place of the grandparent. */
  function LiftedLeft<N>(g: Shape<N>): Shape<N>
    requires g.Node? && g.left.Node?
  {
    RotatedRight(Node(g.left.(red := false), g.node, g.key, true, g.right))
  }

  function LiftedRight<N>(g: Shape<N>): Shape<N>
    requires g.Node? && g.right.Node?
  {
    RotatedLeft(Node(g.left, g.node, g.key, true, g.right.(red := false)))
  }

  /** One round of the repair loop: the focus before and after. */
  function AddStep<N>(c: Path<N>, t: Shape<N>): (Path<N>, Shape<N>)
    requires t.Node? && c != Top && c.up != Top
  {
    var p, gg := Framed(c, t), c.up.up;
    if c.up.InLeft? then
      var g := Framed(c.up, p);
      if IsRed(g.right) then (gg, PushedUp(g))
      else
        var h := LiftedLeft(g.(left := if c.InRight? then RotatedLeft(p) else p));
        (InLeft(gg, h.node, h.key, h.red, h.right), h.left)
    else
      var g := Framed(c.up, p);
      if IsRed(g.left) then (gg, PushedUp(g))
      else
        var h := LiftedRight(g.(right := if c.InLeft? then RotatedRight(p) else p));
        (InRight(gg, h.left, h.node, h.key, h.red), h.right)
  }

  /** The subtree at the grandparent after the round. */
  function AddStepTree<N>(c: Path<N>, t: Shape<N>): Shape<N>
    requires t.Node? && c != Top && c.up != Top
  {
    var p := Framed(c, t);
    var g := Framed(c.up, p);
    if c.up.InLeft? then
      if IsRed(g.right) then PushedUp(g)
      else LiftedLeft(g.(left := if c.InRight? then RotatedLeft(p) else p))
    else
      if IsRed(g.left) then PushedUp(g)
      else LiftedRight(g.(right := if c.InLeft? then RotatedRight(p) else p))
  }

  lemma AddStepBalanced<N>(c: Path<N>, t: Shape<N>)
    requires AddInv(c, t) && c != Top && c.red && c.up != Top && !c.up.red
    ensures var h := AddStepTree(c, t);
      Balanced(h) && BlackHeight(h) == BlackHeight(t) + 1 && IsRed(h) == (AddStep(c, t).0 == c.up.up)
    ensures !IsRed(AddStepTree(c, t)) ==> IsRed(AddStepTree(c, t).left) && IsRed(AddStepTree(c, t).right)
  {
    var h, hb := AddStepTree(c, t), BlackHeight(t);
    assert Balanced(t.left) && Balanced(t.right) && BlackHeight(t.left) == BlackHeight(t.right) == hb;
    assert BalancedPath(c.up, hb, true);
    assert Length(c.up) == Length(c.up.up) + 1;
    assert h.Node? && Balanced(h.left) && Balanced(h.right);
    assert BlackHeight(h.left) == BlackHeight(h.right);
  }

  lemma AddStepColours<N>(c: Path<N>, t: Shape<N>)
    requires AddInv(c, t) && c != Top && c.red
    ensures c.up != Top && !c.up.red
    ensures var (d, u) := AddStep(c, t); AddInv(d, u) && Length(d) < Length(c)
  {
    assert c.up != Top && TopRed(c) == TopRed(c.up);
    assert BalancedPath(c.up, BlackHeight(t), true);
    assert BalancedPath(c.up.up, BlackHeight(t) + 1, false);
    assert Length(c) == Length(c.up.up) + 2;
    AddStepBalanced(c, t);
  }

  lemma PlugInorderCong<N>(c: Path<N>, t: Shape<N>, u: Shape<N>)
    requires Inorder(t) == Inorder(u)
    ensures Inorder(Plug(c, t)) == Inorder(Plug(c, u))
  {
    PlugInorder(c, t);
    PlugInorder(c, u);
  }

  lemma AddStepContents<N>(c: Path<N>, t: Shape<N>)
    requires t.Node? && c != Top && c.up != Top && NoDup(Framed(c.up, Framed(c, t)))
    ensures var g, h := Framed(c.up, Framed(c, t)), AddStepTree(c, t);
      Inorder(h) == Inorder(g) && Nodes(h) == Nodes(g)
  {
    var p := Framed(c, t);
    var g := Framed(c.up, p);
    assert NoDup(p);
    if c.up.InLeft? && !IsRed(g.right) {
      if c.InRight? { RotatedLeftSame(p); }
      var q := if c.InRight? then RotatedLeft(p) else p;
      RotatedRightSame(Node(q.(red := false), g.node, g.key, true, g.right));
    } else if c.up.InRight? && !IsRed(g.left) {
      if c.InLeft? { RotatedRightSame(p); }
      var q := if c.InLeft? then RotatedRight(p) else p;
      RotatedLeftSame(Node(g.left, g.node, g.key, true, q.(red := false)));
    }
  }

  lemma AddStepOrder<N>(c: Path<N>, t: Shape<N>)
    requires t.Node? && c != Top && c.up != Top && NoDup(Framed(c.up, Framed(c, t)))
    ensures var (d, u) := AddStep(c, t); Inorder(Plug(d, u)) == Inorder(Plug(c, t))
  {
    var (d, u) := AddStep(c, t);
    var gg, g, h := c.up.up, Framed(c.up, Framed(c, t)), AddStepTree(c, t);
    AddStepContents(c, t);
    assert Plug(c, t) == Plug(c.up, Framed(c, t)) == Plug(gg, g);
    assert Plug(d, u) == Plug(gg, h);
    PlugInorderCong(gg, g, h);
  }

  // ---------- taking a node out ----------

  function Append<N>(c: Path<N>, d: Path<N>): Path<N> {
    match d
    case Top => c
    case InLeft(up, n, k, red, r) => InLeft(Append(c, up), n, k, red, r)
    case InRight(up, l, n, k, red) => InRight(Append(c, up), l, n, k, red)
  }

  lemma {:induction false} PlugAppend<N>(c: Path<N>, d: Path<N>, t: Shape<N>)
    ensures Plug(Append(c, d), t) == Plug(c, Plug(d, t))
  {
    match d
    case Top =>
    case InLeft(up, n, k, red, r) => PlugAppend(c, up, Node(t, n, k, red, r));
    case InRight(up, l, n, k, red) => PlugAppend(c, up, Node(l, n, k, red, t));
  }

  /** The subtree of the leftmost node of `t`, with the path down to it. */
  function Leftmost<N>(c: Path<N>, t: Shape<N>): (r: (Path<N>, Shape<N>))
    requires t.Node?
    ensures r.1.Node? && r.1.left == Leaf && Plug(r.0, r.1) == Plug(c, t)
    decreases t
  {
    if t.left.Leaf? then (c, t) else Leftmost(InLeft(c, t.node, t.key, t.red, t.right), t.left)
  }

  /** `t` without its root, which has at most one child. */
  function Spliced<N>(t: Shape<N>): Shape<N>
    requires t.Node?
  {
    if t.left.Leaf? then t.right else t.left
  }

  /** The focus after the root of `t` left the tree, and the colour that left with it: a node with
      two children is replaced by its successor. */
  function Unlinked<N>(c: Path<N>, t: Shape<N>): (Path<N>, Shape<N>, bool)
    requires t.Node?
  {
    if t.left.Leaf? || t.right.Leaf? then (c, Spliced(t), t.red)
    else
      var (d, m) := Leftmost(Top, t.right);
      (Append(InRight(c, t.left, m.node, m.key, t.red), d), m.right, m.red)
  }

  ghost function Without<N>(s: seq<(N, nat)>, i: nat): seq<(N, nat)>
    requires i < |s|
  {
    s[..i] + s[i + 1..]
  }

  lemma WithoutAscending<N>(s: seq<(N, nat)>, i: nat)
    requires i < |s| && Ascending(s)
    ensures Ascending(Without(s, i))
  {
    var w := Without(s, i);
    assert forall j :: 0 <= j < |w| ==> w[j] == s[if j < i then j else j + 1];
  }

  lemma WithoutMiddle<N>(b: seq<(N, nat)>, l: seq<(N, nat)>, x: (N, nat), r: seq<(N, nat)>, a: seq<(N, nat)>)
    ensures var s, i := b + (l + [x] + r) + a, |b| + |l|; s[i] == x && Without(s, i) == b + (l + r) + a
  {
    Regroup(b, l, [x], r, a);
    assert b + (l + r) + a == (b + l) + (r + a);
  }

  /** The contents of the subtree after the unlinking. */
  lemma UnlinkedInside<N>(c: Path<N>, t: Shape<N>)
    requires t.Node?
    ensures var (e, u, _) := Unlinked(c, t);
      Inorder(Plug(e, u)) == Before(c) + (Inorder(t.left) + Inorder(t.right)) + After(c)
  {
    var (e, u, _) := Unlinked(c, t);
    var l, r := Inorder(t.left), Inorder(t.right);
    if t.left.Leaf? || t.right.Leaf? {
      PlugInorder(c, u);
      assert Inorder(u) == l + r;
    } else {
      var (d, m) := Leftmost(Top, t.right);
      LeftmostOrder(d, m, t.right);
      var t' := Node(t.left, m.node, m.key, t.red, Plug(d, m.right));
      PlugAppend(InRight(c, t.left, m.node, m.key, t.red), d, m.right);
      PlugInorder(c, t');
      assert Inorder(t') == l + r;
    }
  }

  lemma RootOrder<N>(c: Path<N>, t: Shape<N>, s: seq<(N, nat)>, b: seq<(N, nat)>, m: seq<(N, nat)>, a: seq<(N, nat)>)
    requires t.Node? && s == Inorder(Plug(c, t)) && b == Before(c) && m == Inorder(t) && a == After(c)
    ensures s == b + m + a && m == Inorder(t.left) + [(t.node, t.key)] + Inorder(t.right)
  {
    PlugInorder(c, t);
  }

  lemma SplitPosition<N>(s: seq<(N, nat)>, b: seq<(N, nat)>, m: seq<(N, nat)>, l: seq<(N, nat)>, x: (N, nat),
                         r: seq<(N, nat)>, a: seq<(N, nat)>)
    requires s == b + m + a && m == l + [x] + r
    ensures |b| + |l| < |s| && s[|b| + |l|] == x && Without(s, |b| + |l|) == b + (l + r) + a
  {
    MiddlePosition(s, b, l, x, r, a);
  }

  lemma MiddlePosition<N>(s: seq<(N, nat)>, b: seq<(N, nat)>, l: seq<(N, nat)>, x: (N, nat), r: seq<(N, nat)>,
                          a: seq<(N, nat)>)
    requires s == b + (l + [x] + r) + a
    ensures |b| + |l| < |s| && s[|b| + |l|] == x && Without(s, |b| + |l|) == b + (l + r) + a
  {
    WithoutMiddle(b, l, x, r, a);
  }

  lemma RemovedRoot<N>(c: Path<N>, t: Shape<N>) returns (i: nat)
    requires t.Node? && Ascending(Inorder(Plug(c, t)))
    ensures var s, (e, u, _) := Inorder(Plug(c, t)), Unlinked(c, t);
      i < |s| && s[i] == (t.node, t.key) && Inorder(Plug(e, u)) == Without(s, i) && Ascending(Without(s, i))
  {
    var s, b, m, a, l, r := Inorder(Plug(c, t)), Before(c), Inorder(t), After(c), Inorder(t.left), Inorder(t.right);
    RootOrder(c, t, s, b, m, a);
    SplitPosition(s, b, m, l, (t.node, t.key), r, a);
    UnlinkedInside(c, t);
    i := |b| + |l|;
    WithoutAscending(s, i);
  }

  lemma LeftmostOrder<N>(d: Path<N>, m: Shape<N>, t: Shape<N>)
    requires t.Node? && (d, m) == Leftmost(Top, t)
    ensures Inorder(t) == [(m.node, m.key)] + Inorder(Plug(d, m.right))
  {
    LeftmostBefore(Top, t);
    PlugInorder(d, m);
    PlugInorder(d, m.right);
  }

  lemma {:induction false} LeftmostBefore<N>(c: Path<N>, t: Shape<N>)
    requires t.Node?
    ensures Before(Leftmost(c, t).0) == Before(c)
    decreases t
  {
    if t.left.Node? { LeftmostBefore(InLeft(c, t.node, t.key, t.red, t.right), t.left); }
  }

  // ---------- repairing after a removal ----------

  /** The black shape `t` is one black node short; all else is in order. */
  ghost predicate DelInv<N>(c: Path<N>, t: Shape<N>) {
    !IsRed(t) && Balanced(t) && BalancedPath(c, BlackHeight(t) + 1, false) && !TopRed(c)
  }

  /** Blackening `t` completes the repair. */
  ghost predicate Repaired<N>(c: Path<N>, t: Shape<N>) {
    Balanced(Plug(c, Blacken(t))) && !IsRed(Plug(c, Blacken(t)))
  }

  lemma UnlinkedPath<N>(c: Path<N>, t: Shape<N>)
    requires t.Node? && Balanced(Plug(c, t)) && !IsRed(Plug(c, t))
    ensures var (e, u, red) := Unlinked(c, t);
      Balanced(u) && BalancedPath(e, BlackHeight(u) + (if red then 0 else 1), false) && !TopRed(e) &&
      (red ==> !IsRed(u) && e != Top)
  {
    UnplugBalanced(c, t);
    PlugTop(c, t);
    if t.left.Node? && t.right.Node? {
      var (d, m) := Leftmost(Top, t.right);
      var f, f' := InRight(c, t.left, t.node, t.key, t.red), InRight(c, t.left, m.node, m.key, t.red);
      PlugAppend(f', d, m);
      PlugBalanced(f', t.right);
      UnplugBalanced(Append(f', d), m);
      PlugTop(f', t.right);
      PlugTop(Append(f', d), m);
    }
  }

  lemma UnlinkedColours<N>(c: Path<N>, t: Shape<N>)
    requires t.Node? && Balanced(Plug(c, t)) && !IsRed(Plug(c, t))
    ensures var (e, u, red) := Unlinked(c, t);
      if red then Balanced(Plug(e, u)) && !IsRed(Plug(e, u))
      else if IsRed(u) then Repaired(e, u)
      else DelInv(e, u)
  {
    var (e, u, red) := Unlinked(c, t);
    UnlinkedPath(c, t);
    PlugTop(e, u);
    PlugTop(e, Blacken(u));
    if red {
      PlugBalanced(e, u);
    } else if IsRed(u) {
      PlugBalanced(e, Blacken(u));
    }
  }

  /** A red sibling on the right is rotated up first, which gives a black one. */
  function BlackSiblingRight<N>(c: Path<N>, t: Shape<N>): Path<N>
    requires c.InLeft?
  {
    if IsRed(c.right) then
      InLeft(InLeft(c.up, c.right.node, c.right.key, false, c.right.right), c.node, c.key, true, c.right.left)
    else c
  }

  function BlackSiblingLeft<N>(c: Path<N>, t: Shape<N>): Path<N>
    requires c.InRight?
  {
    if IsRed(c.left) then
      InRight(InRight(c.up, c.left.left, c.left.node, c.left.key, false), c.left.right, c.node, c.key, true)
    else c
  }

  /** A nephew on the far side that is red, rotating the near one there if need be. */
  function FarRedRight<N>(s: Shape<N>): Shape<N>
    requires s.Node? && (IsRed(s.left) || IsRed(s.right))
  {
    if !IsRed(s.right) then RotatedRight(Node(s.left.(red := false), s.node, s.key, true, s.right)) else s
  }

  function FarRedLeft<N>(s: Shape<N>): Shape<N>
    requires s.Node? && (IsRed(s.left) || IsRed(s.right))
  {
    if !IsRed(s.left) then RotatedLeft(Node(s.left, s.node, s.key, true, s.right.(red := false))) else s
  }

  /** The sibling takes the place and colour of the parent. */
  function BorrowedRight<N>(p: Shape<N>): Shape<N>
    requires p.Node? && p.right.Node?
  {
    RotatedLeft(Node(p.left, p.node, p.key, false, p.right.(red := p.red, right := Blacken(p.right.right))))
  }

  function BorrowedLeft<N>(p: Shape<N>): Shape<N>
    requires p.Node? && p.left.Node?
  {
    RotatedRight(Node(p.left.(red := p.red, left := Blacken(p.left.left)), p.node, p.key, false, p.right))
  }

  /** One round of the repair loop: the new focus, and whether the repair is complete. */
  function DelStep<N>(c: Path<N>, t: Shape<N>): (Path<N>, Shape<N>, bool)
    requires c != Top && DelInv(c, t)
  {
    if c.InLeft? then
      var d := BlackSiblingRight(c, t);
      var s := d.right;
      assert s.Node? by { SiblingThere(c, t); }
      if IsRed(s.left) || IsRed(s.right) then
        (d.up, BorrowedRight(Node(t, d.node, d.key, d.red, FarRedRight(s))), true)
      else (d.up, Node(t, d.node, d.key, d.red, s.(red := true)), false)
    else
      var d := BlackSiblingLeft(c, t);
      var s := d.left;
      assert s.Node? by { SiblingThere(c, t); }
      if IsRed(s.left) || IsRed(s.right) then
        (d.up, BorrowedLeft(Node(FarRedLeft(s), d.node, d.key, d.red, t)), true)
      else (d.up, Node(s.(red := true), d.node, d.key, d.red, t), false)
  }

  /** The shortfall implies a sibling, and a black one once a red one was rotated up. */
  lemma SiblingThere<N>(c: Path<N>, t: Shape<N>)
    requires c != Top && DelInv(c, t)
    ensures c.InLeft? ==> var d := BlackSiblingRight(c, t);
      c.right.Node? && d.InLeft? && d.right.Node? && !d.right.red && DelInv(d, t) && TopRed(d) == TopRed(c)
    ensures c.InRight? ==> var d := BlackSiblingLeft(c, t);
      c.left.Node? && d.InRight? && d.left.Node? && !d.left.red && DelInv(d, t) && TopRed(d) == TopRed(c)
  {
    if c.InLeft? && IsRed(c.right) {
      assert BlackHeight(c.right.left) == BlackHeight(t) + 1;
    } else if c.InRight? && IsRed(c.left) {
      assert BlackHeight(c.left.right) == BlackHeight(t) + 1;
    }
  }

  lemma BorrowedBalanced<N>(c: Path<N>, t: Shape<N>)
    requires c != Top && DelInv(c, t)
    ensures c.InLeft? && c.right.Node? && !c.right.red && (IsRed(c.right.left) || IsRed(c.right.right)) ==>
              var h := BorrowedRight(Node(t, c.node, c.key, c.red, FarRedRight(c.right)));
              Balanced(h) && BlackHeight(h) == BlackHeight(t) + (if c.red then 1 else 2) && IsRed(h) == c.red
    ensures c.InRight? && c.left.Node? && !c.left.red && (IsRed(c.left.left) || IsRed(c.left.right)) ==>
              var h := BorrowedLeft(Node(FarRedLeft(c.left), c.node, c.key, c.red, t));
              Balanced(h) && BlackHeight(h) == BlackHeight(t) + (if c.red then 1 else 2) && IsRed(h) == c.red
  {
    if c.InLeft? && c.right.Node? && !c.right.red && (IsRed(c.right.left) || IsRed(c.right.right)) {
      var s := FarRedRight(c.right);
      assert Balanced(c.right.left) && Balanced(c.right.right);
      assert IsRed(c.right.left) ==> Balanced(c.right.left.left) && Balanced(c.right.left.right);
      assert Balanced(s.left) && Balanced(Blacken(s.right)) && BlackHeight(s.left) == BlackHeight(t);
      var h := BorrowedRight(Node(t, c.node, c.key, c.red, s));
      assert h.left == Node(t, c.node, c.key, false, s.left) && h.right == Blacken(s.right);
    } else if c.InRight? && c.left.Node? && !c.left.red && (IsRed(c.left.left) || IsRed(c.left.right)) {
      var s := FarRedLeft(c.left);
      assert Balanced(c.left.left) && Balanced(c.left.right);
      assert IsRed(c.left.right) ==> Balanced(c.left.right.left) && Balanced(c.left.right.right);
      assert Balanced(s.right) && Balanced(Blacken(s.left)) && BlackHeight(s.right) == BlackHeight(t);
      var h := BorrowedLeft(Node(s, c.node, c.key, c.red, t));
      assert h.right == Node(s.right, c.node, c.key, false, t) && h.left == Blacken(s.left);
    }
  }

  /** What a step of the fix-up establishes, done or not. */
  ghost predicate DelStepKeeps<N>(c: Path<N>, t: Shape<N>, e: Path<N>, u: Shape<N>, done: bool)
    requires c != Top
  {
    u.Node? && BlackHeight(Blacken(u)) >= BlackHeight(u) && !TopRed(e) && (e == Top && done ==> !IsRed(u)) &&
    (if done then Balanced(u) && BalancedPath(e, BlackHeight(u), IsRed(u))
     else Balanced(Blacken(u)) && BalancedPath(e, BlackHeight(u) + 1, false)) &&
    (!done && !IsRed(u) ==> Length(e) < Length(c))
  }

  lemma DelStepPathLeft<N>(c: Path<N>, t: Shape<N>)
    requires c.InLeft? && DelInv(c, t)
    ensures DelStepKeeps(c, t, DelStep(c, t).0, DelStep(c, t).1, DelStep(c, t).2)
  {
    SiblingThere(c, t);
    var d := BlackSiblingRight(c, t);
    BorrowedBalanced(d, t);
    assert Length(d) == Length(d.up) + 1;
    assert BalancedPath(d.up, BlackHeight(t) + (if d.red then 1 else 2), d.red);
  }

  lemma DelStepPathRight<N>(c: Path<N>, t: Shape<N>)
    requires c.InRight? && DelInv(c, t)
    ensures DelStepKeeps(c, t, DelStep(c, t).0, DelStep(c, t).1, DelStep(c, t).2)
  {
    SiblingThere(c, t);
    var d := BlackSiblingLeft(c, t);
    BorrowedBalanced(d, t);
    assert Length(d) == Length(d.up) + 1;
    assert BalancedPath(d.up, BlackHeight(t) + (if d.red then 1 else 2), d.red);
  }

  lemma DelStepPath<N>(c: Path<N>, t: Shape<N>)
    requires c != Top && DelInv(c, t)
    ensures var (e, u, done) := DelStep(c, t); DelStepKeeps(c, t, e, u, done)
  {
    if c.InLeft? { DelStepPathLeft(c, t); } else { DelStepPathRight(c, t); }
  }

  lemma DelStepColours<N>(c: Path<N>, t: Shape<N>)
    requires c != Top && DelInv(c, t)
    ensures var (e, u, done) := DelStep(c, t);
      u.Node? &&
      if done then Balanced(Plug(e, u)) && !IsRed(Plug(e, u))
      else if IsRed(u) then Repaired(e, u)
      else DelInv(e, u) && Length(e) < Length(c)
  {
    var (e, u, done) := DelStep(c, t);
    DelStepPath(c, t);
    PlugTop(e, u);
    PlugTop(e, Blacken(u));
    if done {
      PlugBalanced(e, u);
    } else if IsRed(u) {
      PlugBalanced(e, Blacken(u));
    }
  }

  lemma FarRedOrder<N>(s: Shape<N>)
    requires s.Node? && (IsRed(s.left) || IsRed(s.right))
    ensures Inorder(FarRedRight(s)) == Inorder(s) && Inorder(FarRedLeft(s)) == Inorder(s)
  {
    if !IsRed(s.right) { RotatedRightOrder(Node(s.left.(red := false), s.node, s.key, true, s.right)); }
    if !IsRed(s.left) { RotatedLeftOrder(Node(s.left, s.node, s.key, true, s.right.(red := false))); }
  }

  lemma BorrowedOrder<N>(p: Shape<N>)
    ensures p.Node? && p.right.Node? ==> Inorder(BorrowedRight(p)) == Inorder(p)
    ensures p.Node? && p.left.Node? ==> Inorder(BorrowedLeft(p)) == Inorder(p)
  {
    if p.Node? && p.right.Node? {
      var q := Node(p.left, p.node, p.key, false, p.right.(red := p.red, right := Blacken(p.right.right)));
      RotatedLeftOrder(q);
      assert Inorder(q.right) == Inorder(p.right);
    }
    if p.Node? && p.left.Node? {
      var q := Node(p.left.(red := p.red, left := Blacken(p.left.left)), p.node, p.key, false, p.right);
      RotatedRightOrder(q);
      assert Inorder(q.left) == Inorder(p.left);
    }
  }

  lemma BlackSiblingOrder<N>(c: Path<N>, t: Shape<N>)
    ensures c.InLeft? ==> Inorder(Plug(BlackSiblingRight(c, t), t)) == Inorder(Plug(c, t))
    ensures c.InRight? ==> Inorder(Plug(BlackSiblingLeft(c, t), t)) == Inorder(Plug(c, t))
  {
    if c.InLeft? && IsRed(c.right) {
      var d := BlackSiblingRight(c, t);
      RotatedLeftOrder(Framed(c, t));
      assert Inorder(Framed(d.up, Framed(d, t))) == Inorder(RotatedLeft(Framed(c, t)));
      PlugInorderCong(c.up, Framed(c, t), Framed(d.up, Framed(d, t)));
    } else if c.InRight? && IsRed(c.left) {
      var d := BlackSiblingLeft(c, t);
      RotatedRightOrder(Framed(c, t));
      assert Inorder(Framed(d.up, Framed(d, t))) == Inorder(RotatedRight(Framed(c, t)));
      PlugInorderCong(c.up, Framed(c, t), Framed(d.up, Framed(d, t)));
    }
  }

  lemma BlackenedOrder<N>(c: Path<N>, t: Shape<N>)
    ensures Inorder(Plug(c, Blacken(t))) == Inorder(Plug(c, t))
  {
    PlugInorderCong(c, t, Blacken(t));
  }

  lemma DelStepOrder<N>(c: Path<N>, t: Shape<N>)
    requires c != Top && DelInv(c, t)
    ensures var (e, u, _) := DelStep(c, t); Inorder(Plug(e, u)) == Inorder(Plug(c, t))
  {
    SiblingThere(c, t);
    BlackSiblingOrder(c, t);
    var (e, u, done) := DelStep(c, t);
    if c.InLeft? {
      var d := BlackSiblingRight(c, t);
      if done {
        FarRedOrder(d.right);
        BorrowedOrder(Node(t, d.node, d.key, d.red, FarRedRight(d.right)));
      }
      PlugInorderCong(e, Framed(d, t), u);
    } else {
      var d := BlackSiblingLeft(c, t);
      if done {
        FarRedOrder(d.left);
        BorrowedOrder(Node(FarRedLeft(d.left), d.node, d.key, d.red, t));
      }
      PlugInorderCong(e, Framed(d, t), u);
    }
  }

  // ---------- height ----------

  function Max(a: nat, b: nat): nat { if a < b then b else a }

  function Height<N>(t: Shape<N>): nat {
    match t
    case Leaf => 0
    case Node(l, _, _, _, r) => 1 + Max(Height(l), Height(r))
  }

  function Pow2(n: nat): nat { if n == 0 then 1 else 2 * Pow2(n - 1) }

  lemma {:induction false} BlackHeightBounds<N>(t: Shape<N>)
    requires Balanced(t)
    ensures Height(t) <= 2 * BlackHeight(t) + if IsRed(t) then 1 else 0
    ensures Pow2(BlackHeight(t)) <= |Inorder(t)| + 1
  {
    match t
    case Leaf =>
    case Node(l, _, _, _, r) => BlackHeightBounds(l); BlackHeightBounds(r);
  }

  lemma {:induction false} Pow2Double(a: nat)
    ensures Pow2(2 * a) == Pow2(a) * Pow2(a)
  {
    if a > 0 {
      Pow2Double(a - 1);
      assert Pow2(2 * a) == 4 * Pow2(2 * (a - 1));
    }
  }

  lemma {:induction false} Pow2Monotone(a: nat, b: nat)
    requires a <= b
    ensures Pow2(a) <= Pow2(b)
  {
    if a < b { Pow2Monotone(a, b - 1); }
  }

  lemma SquareMonotone(a: nat, b: nat)
    requires a <= b
    ensures a * a <= b * b
  {
    assert b * b == a * a + (b - a) * (a + b);
    assert (b - a) * (a + b) >= 0;
  }

  /** A tree of n nodes has height at most 2*log2(n + 1): 2 to the height is at most (n + 1)^2. */
  lemma HeightLogarithmic<N>(t: Shape<N>)
    requires RedBlack(t)
    ensures Pow2(Height(t)) <= (|Inorder(t)| + 1) * (|Inorder(t)| + 1)
  {
    BlackHeightBounds(t);
    var b, n := BlackHeight(t), |Inorder(t)| + 1;
    Pow2Monotone(Height(t), 2 * b);
    Pow2Double(b);
    SquareMonotone(Pow2(b), n);
  }
}
