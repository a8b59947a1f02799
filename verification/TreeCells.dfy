/** What the pointer fields of a tree's nodes hold when they spell out a given shape. */
module TreeCells {
  import opened RbShape

  class TreeNode {
    var left: TreeNode?
    var right: TreeNode?
    var parent: TreeNode?
    var key: nat
    var red: bool

    constructor ()
      ensures left == null && right == null && parent == null && key == 0 && !red
    {
      left, right, parent, key, red := null, null, null, 0, false;
    }
  }

  /** The contents of a node's fields. */
  datatype Cell = Cell(left: TreeNode?, right: TreeNode?, parent: TreeNode?, key: nat, red: bool)
  type Cells = map<TreeNode, Cell>

  ghost function Root(t: Shape<TreeNode>): TreeNode? {
    if t.Leaf? then null else t.node
  }

  ghost function Parent(c: Path<TreeNode>): TreeNode? {
    if c.Top? then null else c.node
  }

  /** Below `x`, a child of `p`, the cells spell out the shape `t`. */
  ghost predicate Linked(t: Shape<TreeNode>, x: TreeNode?, p: TreeNode?, m: Cells) {
    match t
    case Leaf => x == null
    case Node(l, n, k, red, r) =>
      x == n && n in m && m[n].parent == p && m[n].key == k && m[n].red == red &&
      Linked(l, m[n].left, n, m) && Linked(r, m[n].right, n, m)
  }

  /** Around the hole of `c`, which holds `x`, the cells spell out `c`. */
  ghost predicate LinkedPath(c: Path<TreeNode>, x: TreeNode?, root: TreeNode?, m: Cells) {
    match c
    case Top => root == x
    case InLeft(up, n, k, red, r) =>
      n in m && m[n] == Cell(x, Root(r), Parent(up), k, red) && Linked(r, m[n].right, n, m) &&
        LinkedPath(up, n, root, m)
    case InRight(up, l, n, k, red) =>
      n in m && m[n] == Cell(Root(l), x, Parent(up), k, red) && Linked(l, m[n].left, n, m) && LinkedPath(up, n, root, m)
  }

  ghost predicate Agree(s: set<TreeNode>, m: Cells, m': Cells) {
    forall n :: n in s && n in m ==> n in m' && m[n] == m'[n]
  }

  lemma {:induction false} LinkedFrame(t: Shape<TreeNode>, x: TreeNode?, p: TreeNode?, m: Cells, m': Cells)
    requires Linked(t, x, p, m) && Agree(Nodes(t), m, m')
    ensures Linked(t, x, p, m')
  {
    match t
    case Leaf =>
    case Node(l, n, k, red, r) =>
      LinkedFrame(l, m[n].left, n, m, m');
      LinkedFrame(r, m[n].right, n, m, m');
  }

  lemma {:induction false} PathFrame(c: Path<TreeNode>, x: TreeNode?, root: TreeNode?, m: Cells, m': Cells)
    requires LinkedPath(c, x, root, m) && Agree(PathNodes(c), m, m')
    ensures LinkedPath(c, x, root, m')
  {
    match c
    case Top =>
    case InLeft(up, n, _, _, r) =>
      LinkedFrame(r, m[n].right, n, m, m');
      PathFrame(up, n, root, m, m');
    case InRight(up, l, n, _, _) =>
      LinkedFrame(l, m[n].left, n, m, m');
      PathFrame(up, n, root, m, m');
  }

  /** Cells after `y` took the hole of `c`. */
  ghost function Rehung(c: Path<TreeNode>, y: TreeNode?, m: Cells): Cells {
    if c.Top? || c.node !in m then m
    else if c.InLeft? then m[c.node := m[c.node].(left := y)]
    else m[c.node := m[c.node].(right := y)]
  }

  lemma RehungLinked(c: Path<TreeNode>, x: TreeNode?, y: TreeNode?, root: TreeNode?, m: Cells, below: set<TreeNode>)
    requires LinkedPath(c, x, root, m) && NoDupPath(c, below)
    ensures LinkedPath(c, y, if c.Top? then y else root, Rehung(c, y, m))
  {
    var m' := Rehung(c, y, m);
    match c
    case Top =>
    case InLeft(up, n, _, _, r) =>
      PathApart(up, below + {n} + Nodes(r));
      LinkedInside(r, m[n].right, n, m);
      PathInside(up, n, root, m);
      LinkedFrame(r, m[n].right, n, m, m');
      PathFrame(up, n, root, m, m');
    case InRight(up, l, n, _, _) =>
      PathApart(up, below + {n} + Nodes(l));
      LinkedInside(l, m[n].left, n, m);
      PathInside(up, n, root, m);
      LinkedFrame(l, m[n].left, n, m, m');
      PathFrame(up, n, root, m, m');
  }

  lemma {:induction false} LinkedInside(t: Shape<TreeNode>, x: TreeNode?, p: TreeNode?, m: Cells)
    requires Linked(t, x, p, m)
    ensures Nodes(t) <= m.Keys && x == Root(t)
  {
    match t
    case Leaf =>
    case Node(l, n, k, red, r) =>
      LinkedInside(l, m[n].left, n, m);
      LinkedInside(r, m[n].right, n, m);
  }

  lemma {:induction false} PathInside(c: Path<TreeNode>, x: TreeNode?, root: TreeNode?, m: Cells)
    requires LinkedPath(c, x, root, m)
    ensures PathNodes(c) <= m.Keys
  {
    match c
    case Top =>
    case InLeft(up, n, _, _, r) =>
      LinkedInside(r, m[n].right, n, m);
      PathInside(up, n, root, m);
    case InRight(up, l, n, _, _) =>
      LinkedInside(l, m[n].left, n, m);
      PathInside(up, n, root, m);
  }

  lemma {:induction false} PathRoot(c: Path<TreeNode>, x: TreeNode?, root: TreeNode?, m: Cells)
    requires LinkedPath(c, x, root, m) && c != Top
    ensures root in PathNodes(c)
  {
    if c.up != Top { PathRoot(c.up, c.node, root, m); }
  }

  ghost function Adopted(x: TreeNode?, p: TreeNode?, m: Cells): Cells
  {
    if x == null || x !in m then m else m[x := m[x].(parent := p)]
  }

  lemma AdoptedLinked(t: Shape<TreeNode>, x: TreeNode?, p: TreeNode?, p': TreeNode?, m: Cells)
    requires Linked(t, x, p, m) && NoDup(t)
    ensures Linked(t, x, p', Adopted(x, p', m))
  {
    if t.Node? {
      LinkedInside(t, x, p, m);
      LinkedFrame(t.left, m[x].left, x, m, Adopted(x, p', m));
      LinkedFrame(t.right, m[x].right, x, m, Adopted(x, p', m));
    }
  }

  ghost predicate At(c: Path<TreeNode>, t: Shape<TreeNode>, root: TreeNode?, m: Cells) {
    LinkedPath(c, Root(t), root, m) && Linked(t, Root(t), Parent(c), m) && NoDup(t) && NoDupPath(c, Nodes(t))
  }


  /** The cells after RotateLeft on the node of `t`. */
  ghost function RotatedLeftCells(c: Path<TreeNode>, t: Shape<TreeNode>, m: Cells): Cells
    requires t.Node? && t.right.Node? && t.node in m && t.right.node in m
  {
    var p, q, b := t.node, t.right.node, Root(t.right.left);
    Adopted(b, p, Rehung(c, q, m)[p := m[p].(right := b, parent := q)][q := m[q].(left := p, parent := Parent(c))])
  }

  lemma RotatedLeftBelow(c: Path<TreeNode>, t: Shape<TreeNode>, m: Cells)
    requires t.Node? && t.right.Node? && Linked(t, t.node, Parent(c), m) && NoDup(t) && NoDupPath(c, Nodes(t))
    ensures t.right.node in m && Linked(RotatedLeft(t), t.right.node, Parent(c), RotatedLeftCells(c, t, m))
  {
    var p, q, a, b, d := t.node, t.right.node, t.left, t.right.left, t.right.right;
    PathApart(c, Nodes(t));
    assert NoDup(t.right) && Linked(t.right, m[p].right, p, m);
    LinkedInside(b, m[q].left, q, m);
    assert Nodes(t.right) == Nodes(b) + {q} + Nodes(d);
    var m1 := Rehung(c, q, m);
    var m2: Cells := m1[p := m[p].(right := Root(b), parent := q)][q := m[q].(left := p, parent := Parent(c))];
    var m' := Adopted(Root(b), p, m2);
    LinkedFrame(a, m[p].left, p, m, m');
    LinkedFrame(d, m[q].right, q, m, m');
    LinkedFrame(b, m[q].left, q, m, m2);
    AdoptedLinked(b, m[q].left, q, p, m2);
  }

  lemma RotatedLeftAround(c: Path<TreeNode>, t: Shape<TreeNode>, root: TreeNode?, m: Cells)
    requires t.Node? && t.right.Node? && At(c, t, root, m) && t.right.node in m
    ensures LinkedPath(c, t.right.node, if c.Top? then t.right.node else root, RotatedLeftCells(c, t, m))
  {
    var q := t.right.node;
    PathApart(c, Nodes(t));
    RehungLinked(c, t.node, q, root, m, Nodes(t));
    PathInside(c, q, if c.Top? then q else root, Rehung(c, q, m));
    assert q in Nodes(t.right) && Nodes(t.right) <= Nodes(t);
    assert t.right.left.Node? ==> t.right.left.node in Nodes(t.right.left) && Nodes(t.right.left) <= Nodes(t.right);
    PathFrame(c, q, if c.Top? then q else root, Rehung(c, q, m), RotatedLeftCells(c, t, m));
  }

  lemma RotatedLeftAt(c: Path<TreeNode>, t: Shape<TreeNode>, root: TreeNode?, m: Cells)
    requires t.Node? && t.right.Node? && At(c, t, root, m)
    ensures t.right.node in m && Nodes(RotatedLeft(t)) == Nodes(t) && RotatedLeftCells(c, t, m).Keys == m.Keys
    ensures At(c, RotatedLeft(t), if c.Top? then t.right.node else root, RotatedLeftCells(c, t, m))
  {
    RotatedLeftSame(t);
    RotatedLeftBelow(c, t, m);
    RotatedLeftAround(c, t, root, m);
  }
  /** What RotateLeft reads and where it writes. */
  lemma RotateLeftPlan(c: Path<TreeNode>, t: Shape<TreeNode>, root: TreeNode?, m: Cells)
    requires t.Node? && t.right.Node? && At(c, t, root, m)
    ensures var p, q, b := t.node, t.right.node, Root(t.right.left);
      && p in m && q in m && m[p].right == q && m[p].parent == Parent(c) && m[q].left == b
      && p != q && Parent(c) != p && Parent(c) != q
      && (b != null ==> b in m && b != p && b != q && b != Parent(c))
  {
    var p, q, b := t.node, t.right.node, t.right.left;
    assert Linked(t.right, m[p].right, p, m) && NoDup(t.right);
    LinkedInside(b, m[q].left, q, m);
    PathApart(c, Nodes(t));
    assert q in Nodes(t.right) && Nodes(b) <= Nodes(t.right) <= Nodes(t);
  }

  /** The cells after RotateRight on the node of `t`. */
  ghost function RotatedRightCells(c: Path<TreeNode>, t: Shape<TreeNode>, m: Cells): Cells
    requires t.Node? && t.left.Node? && t.node in m && t.left.node in m
  {
    var p, q, b := t.node, t.left.node, Root(t.left.right);
    Adopted(b, p, Rehung(c, q, m)[p := m[p].(left := b, parent := q)][q := m[q].(right := p, parent := Parent(c))])
  }

  lemma RotatedRightBelow(c: Path<TreeNode>, t: Shape<TreeNode>, m: Cells)
    requires t.Node? && t.left.Node? && Linked(t, t.node, Parent(c), m) && NoDup(t) && NoDupPath(c, Nodes(t))
    ensures t.left.node in m && Linked(RotatedRight(t), t.left.node, Parent(c), RotatedRightCells(c, t, m))
  {
    var p, q, a, b, d := t.node, t.left.node, t.right, t.left.right, t.left.left;
    PathApart(c, Nodes(t));
    assert NoDup(t.left) && Linked(t.left, m[p].left, p, m);
    LinkedInside(b, m[q].right, q, m);
    assert Nodes(t.left) == Nodes(b) + {q} + Nodes(d);
    var m1 := Rehung(c, q, m);
    var m2: Cells := m1[p := m[p].(left := Root(b), parent := q)][q := m[q].(right := p, parent := Parent(c))];
    var m' := Adopted(Root(b), p, m2);
    LinkedFrame(a, m[p].right, p, m, m');
    LinkedFrame(d, m[q].left, q, m, m');
    LinkedFrame(b, m[q].right, q, m, m2);
    AdoptedLinked(b, m[q].right, q, p, m2);
  }

  lemma RotatedRightAround(c: Path<TreeNode>, t: Shape<TreeNode>, root: TreeNode?, m: Cells)
    requires t.Node? && t.left.Node? && At(c, t, root, m) && t.left.node in m
    ensures LinkedPath(c, t.left.node, if c.Top? then t.left.node else root, RotatedRightCells(c, t, m))
  {
    var q := t.left.node;
    PathApart(c, Nodes(t));
    RehungLinked(c, t.node, q, root, m, Nodes(t));
    PathInside(c, q, if c.Top? then q else root, Rehung(c, q, m));
    assert q in Nodes(t.left) && Nodes(t.left) <= Nodes(t);
    assert t.left.right.Node? ==> t.left.right.node in Nodes(t.left.right) && Nodes(t.left.right) <= Nodes(t.left);
    PathFrame(c, q, if c.Top? then q else root, Rehung(c, q, m), RotatedRightCells(c, t, m));
  }

  lemma RotatedRightAt(c: Path<TreeNode>, t: Shape<TreeNode>, root: TreeNode?, m: Cells)
    requires t.Node? && t.left.Node? && At(c, t, root, m)
    ensures t.left.node in m && Nodes(RotatedRight(t)) == Nodes(t) && RotatedRightCells(c, t, m).Keys == m.Keys
    ensures At(c, RotatedRight(t), if c.Top? then t.left.node else root, RotatedRightCells(c, t, m))
  {
    RotatedRightSame(t);
    RotatedRightBelow(c, t, m);
    RotatedRightAround(c, t, root, m);
  }

  /** What RotateRight reads and where it writes. */
  lemma RotateRightPlan(c: Path<TreeNode>, t: Shape<TreeNode>, root: TreeNode?, m: Cells)
    requires t.Node? && t.left.Node? && At(c, t, root, m)
    ensures var p, q, b := t.node, t.left.node, Root(t.left.right);
      && p in m && q in m && m[p].left == q && m[p].parent == Parent(c) && m[q].right == b
      && p != q && Parent(c) != p && Parent(c) != q
      && (b != null ==> b in m && b != p && b != q && b != Parent(c))
  {
    var p, q, b := t.node, t.left.node, t.left.right;
    assert Linked(t.left, m[p].left, p, m) && NoDup(t.left);
    LinkedInside(b, m[q].right, q, m);
    PathApart(c, Nodes(t));
    assert q in Nodes(t.left) && Nodes(b) <= Nodes(t.left) <= Nodes(t);
  }

  // ---------- moving the focus, recolouring, adding a leaf ----------

  lemma DownLeft(c: Path<TreeNode>, t: Shape<TreeNode>, root: TreeNode?, m: Cells)
    requires t.Node?
    ensures At(c, t, root, m) == At(InLeft(c, t.node, t.key, t.red, t.right), t.left, root, m)
  {
    var d := InLeft(c, t.node, t.key, t.red, t.right);
    if At(c, t, root, m) {
      LinkedInside(t.left, m[t.node].left, t.node, m);
      LinkedInside(t.right, m[t.node].right, t.node, m);
    }
    assert Nodes(t) == Nodes(t.left) + {t.node} + Nodes(t.right);
  }

  lemma DownRight(c: Path<TreeNode>, t: Shape<TreeNode>, root: TreeNode?, m: Cells)
    requires t.Node?
    ensures At(c, t, root, m) == At(InRight(c, t.left, t.node, t.key, t.red), t.right, root, m)
  {
    if At(c, t, root, m) {
      LinkedInside(t.left, m[t.node].left, t.node, m);
      LinkedInside(t.right, m[t.node].right, t.node, m);
    }
    assert Nodes(t) == Nodes(t.right) + {t.node} + Nodes(t.left);
  }

  lemma Repainted(c: Path<TreeNode>, t: Shape<TreeNode>, root: TreeNode?, m: Cells, red: bool)
    requires t.Node? && At(c, t, root, m)
    ensures At(c, t.(red := red), root, m[t.node := m[t.node].(red := red)])
  {
    var n := t.node;
    var m' := m[n := m[n].(red := red)];
    PathApart(c, Nodes(t));
    PathFrame(c, n, root, m, m');
    LinkedFrame(t.left, m[n].left, n, m, m');
    LinkedFrame(t.right, m[n].right, n, m, m');
  }

  lemma LeafAdded(c: Path<TreeNode>, node: TreeNode, key: nat, root: TreeNode?, m: Cells)
    requires At(c, Leaf, root, m) && node !in m
    ensures At(c, Node(Leaf, node, key, true, Leaf), if c.Top? then node else root,
               Rehung(c, node, m)[node := Cell(null, null, Parent(c), key, true)])
  {
    var m1 := Rehung(c, node, m);
    var m' := m1[node := Cell(null, null, Parent(c), key, true)];
    var root' := if c.Top? then node else root;
    PathInside(c, null, root, m);
    RehungLinked(c, null, node, root, m, {});
    PathFrame(c, node, root', m1, m');
    PathGrow(c, {}, node);
    assert {} + {node} == Nodes(Node(Leaf, node, key, true, Leaf));
  }

  // ---------- taking a node out ----------

  lemma AtAgree(c: Path<TreeNode>, t: Shape<TreeNode>, root: TreeNode?, m: Cells, m': Cells)
    requires At(c, t, root, m) && Agree(Nodes(t), m, m') && Agree(PathNodes(c), m, m')
    ensures At(c, t, root, m')
  {
    LinkedFrame(t, Root(t), Parent(c), m, m');
    PathFrame(c, Root(t), root, m, m');
  }

  lemma {:induction false} AtAppend(c: Path<TreeNode>, d: Path<TreeNode>, t: Shape<TreeNode>, root: TreeNode?, m: Cells)
    ensures At(Append(c, d), t, root, m) == At(c, Plug(d, t), root, m)
  {
    match d
    case Top =>
    case InLeft(up, n, k, red, r) =>
      DownLeft(Append(c, up), Node(t, n, k, red, r), root, m);
      AtAppend(c, up, Node(t, n, k, red, r), root, m);
    case InRight(up, l, n, k, red) =>
      DownRight(Append(c, up), Node(l, n, k, red, t), root, m);
      AtAppend(c, up, Node(l, n, k, red, t), root, m);
  }

  /** The cells after the only child of a node took its place. */
  ghost function SplicedCells(c: Path<TreeNode>, r: Shape<TreeNode>, m: Cells): Cells {
    Adopted(Root(r), Parent(c), Rehung(c, Root(r), m))
  }

  lemma SplicedAt(c: Path<TreeNode>, t: Shape<TreeNode>, root: TreeNode?, m: Cells)
    requires t.Node? && (t.left.Leaf? || t.right.Leaf?) && At(c, t, root, m)
    ensures var r := Spliced(t); At(c, r, if c.Top? then Root(r) else root, SplicedCells(c, r, m))
  {
    var r := Spliced(t);
    var root' := if c.Top? then Root(r) else root;
    PathApart(c, Nodes(t));
    PathShrink(c, Nodes(t), Nodes(r));
    LinkedInside(t.left, m[t.node].left, t.node, m);
    LinkedInside(t.right, m[t.node].right, t.node, m);
    var m1 := Rehung(c, Root(r), m);
    RehungLinked(c, t.node, Root(r), root, m, Nodes(t));
    assert r.Node? ==> r.node in Nodes(r);
    PathFrame(c, Root(r), root', m1, SplicedCells(c, r, m));
    LinkedFrame(r, Root(r), t.node, m, m1);
    AdoptedLinked(r, Root(r), t.node, Parent(c), m1);
  }

  /** The cells after `x` took the place, children and colour of the node of `t`. */
  ghost function SubstitutedCells(c: Path<TreeNode>, t: Shape<TreeNode>, x: TreeNode, key: nat, m: Cells): Cells
    requires t.Node?
  {
    Adopted(Root(t.left), x, Adopted(Root(t.right), x, Rehung(c, x, m)))
      [x := Cell(Root(t.left), Root(t.right), Parent(c), key, t.red)]
  }

  lemma SubstitutedAt(c: Path<TreeNode>, t: Shape<TreeNode>, x: TreeNode, key: nat, root: TreeNode?, m: Cells)
    requires t.Node? && At(c, t, root, m) && x !in Nodes(t) && x !in PathNodes(c)
    ensures At(c, Node(t.left, x, key, t.red, t.right), if c.Top? then x else root, SubstitutedCells(c, t, x, key, m))
  {
    var l, r, n := t.left, t.right, t.node;
    var root' := if c.Top? then x else root;
    var m1 := Rehung(c, x, m);
    var m2 := Adopted(Root(r), x, m1);
    var m3 := Adopted(Root(l), x, m2);
    var m' := SubstitutedCells(c, t, x, key, m);
    PathApart(c, Nodes(t));
    LinkedInside(l, m[n].left, n, m);
    LinkedInside(r, m[n].right, n, m);
    RehungLinked(c, n, x, root, m, Nodes(t));
    assert l.Node? ==> l.node in Nodes(l);
    assert r.Node? ==> r.node in Nodes(r);
    PathFrame(c, x, root', m1, m');
    LinkedFrame(l, Root(l), n, m, m2);
    AdoptedLinked(l, Root(l), n, x, m2);
    LinkedFrame(l, Root(l), x, m3, m');
    LinkedFrame(r, Root(r), n, m, m1);
    AdoptedLinked(r, Root(r), n, x, m1);
    LinkedFrame(r, Root(r), x, m2, m');
    PathGrow(c, Nodes(t), x);
    PathShrink(c, Nodes(t) + {x}, Nodes(Node(l, x, key, t.red, r)));
  }

  /** The cells after Unlinked: a successor that replaces the node is first spliced out itself. */
  ghost function UnlinkedCells(c: Path<TreeNode>, t: Shape<TreeNode>, m: Cells): Cells
    requires t.Node?
  {
    if t.left.Leaf? || t.right.Leaf? then SplicedCells(c, Spliced(t), m)
    else
      var (d, s) := Leftmost(Top, t.right);
      var f := InRight(c, t.left, t.node, t.key, t.red);
      SubstitutedCells(c, t.(right := Plug(d, s.right)), s.node, s.key, SplicedCells(Append(f, d), s.right, m))
  }

  /** The root after Unlinked. */
  ghost function UnlinkedRoot(c: Path<TreeNode>, t: Shape<TreeNode>, root: TreeNode?): TreeNode?
    requires t.Node?
  {
    if c != Top then root
    else if t.left.Leaf? || t.right.Leaf? then Root(Spliced(t))
    else Leftmost(Top, t.right).1.node
  }

  lemma UnlinkedAt(c: Path<TreeNode>, t: Shape<TreeNode>, root: TreeNode?, m: Cells)
    requires t.Node? && At(c, t, root, m)
    ensures var (e, u, _) := Unlinked(c, t); At(e, u, UnlinkedRoot(c, t, root), UnlinkedCells(c, t, m))
  {
    if t.left.Leaf? || t.right.Leaf? {
      SplicedAt(c, t, root, m);
    } else {
      var (d, s) := Leftmost(Top, t.right);
      var f := InRight(c, t.left, t.node, t.key, t.red);
      DownRight(c, t, root, m);
      AtAppend(f, d, s, root, m);
      SplicedAt(Append(f, d), s, root, m);
      var m1 := SplicedCells(Append(f, d), s.right, m);
      assert Append(f, d) != Top by { AppendTop(f, d); }
      SuccessorApart(c, t, root, m);
      AtAppend(f, d, s.right, root, m1);
      var t1 := t.(right := Plug(d, s.right));
      DownRight(c, t1, root, m1);
      SubstitutedAt(c, t1, s.node, s.key, root, m1);
      var root' := UnlinkedRoot(c, t, root);
      var m2 := UnlinkedCells(c, t, m);
      var t2 := Node(t.left, s.node, s.key, t.red, t1.right);
      DownRight(c, t2, root', m2);
      AtAppend(InRight(c, t.left, s.node, s.key, t.red), d, s.right, root', m2);
    }
  }

  lemma AppendTop<N>(c: Path<N>, d: Path<N>)
    requires c != Top
    ensures Append(c, d) != Top
  {
  }

  lemma {:induction false} PlugNodes<N>(c: Path<N>, t: Shape<N>)
    ensures Nodes(Plug(c, t)) == Nodes(t) + PathNodes(c)
  {
    match c
    case Top =>
    case InLeft(up, n, k, red, r) => PlugNodes(up, Node(t, n, k, red, r));
    case InRight(up, l, n, k, red) => PlugNodes(up, Node(l, n, k, red, t));
  }

  /** The successor of the node of `t` is in its right subtree only, and nowhere once spliced out. */
  lemma SuccessorApart(c: Path<TreeNode>, t: Shape<TreeNode>, root: TreeNode?, m: Cells)
    requires t.Node? && t.right.Node? && At(c, t, root, m)
    ensures var (d, s) := Leftmost(Top, t.right);
      s.node in Nodes(t.right) && s.node != t.node && s.node !in PathNodes(c) &&
      s.node !in Nodes(t.(right := Plug(d, s.right)))
  {
    var (d, s) := Leftmost(Top, t.right);
    PathApart(c, Nodes(t));
    DownRight(c, t, root, m);
    AtAppend(InRight(c, t.left, t.node, t.key, t.red), d, s, root, m);
    AtAppend(Top, d, s, root, m);
    PlugNodes(d, s);
    PlugNodes(d, s.right);
    PlugAlone(d, s);
  }

  /** A plugged node occurs once. */
  lemma {:induction false} PlugAlone<N>(c: Path<N>, t: Shape<N>)
    requires NoDup(Plug(c, t))
    ensures NoDup(t) && NoDupPath(c, Nodes(t))
    ensures PathNodes(c) !! Nodes(t)
  {
    match c
    case Top =>
    case InLeft(up, n, k, red, r) =>
      PlugAlone(up, Node(t, n, k, red, r));
      assert Nodes(Node(t, n, k, red, r)) == Nodes(t) + {n} + Nodes(r);
    case InRight(up, l, n, k, red) =>
      PlugAlone(up, Node(l, n, k, red, t));
      assert Nodes(Node(l, n, k, red, t)) == Nodes(t) + {n} + Nodes(l);
  }

  /** What the removal of a node with two children reads, and that its writes go to different nodes. */
  ghost predicate SuccessorPlan(c: Path<TreeNode>, t: Shape<TreeNode>, m: Cells)
    requires t.Node? && t.left.Node? && t.right.Node?
  {
    var (d, s) := Leftmost(Top, t.right);
    var n, l, r, x, y := t.node, t.left.node, t.right.node, s.node, Root(s.right);
    n in m && l in m && r in m && x in m && (y != null ==> y in m) && (c != Top ==> c.node in m) &&
    m[n] == Cell(l, r, Parent(c), t.key, t.red) &&
    m[x].left == null && m[x].right == y && m[x].key == s.key && m[x].red == s.red &&
    n !in {l, r, x, y, Parent(c)} && l !in {r, x, y, Parent(c)} && x !in {y, Parent(c)} && r !in {y, Parent(c)} &&
    (y != null ==> y != Parent(c)) &&
    (d == Top <==> x == r) &&
    (d != Top ==> d.InLeft? && m[x].parent == d.node && d.node in m && d.node !in {n, l, x, y, Parent(c)})
  }

  lemma SuccessorPlanned(c: Path<TreeNode>, t: Shape<TreeNode>, root: TreeNode?, m: Cells)
    requires t.Node? && t.left.Node? && t.right.Node? && At(c, t, root, m)
    ensures SuccessorPlan(c, t, m)
  {
    var (d, s) := Leftmost(Top, t.right);
    var f := InRight(c, t.left, t.node, t.key, t.red);
    PathApart(c, Nodes(t));
    PathInside(c, t.node, root, m);
    LinkedInside(t.left, m[t.node].left, t.node, m);
    LinkedInside(t.right, m[t.node].right, t.node, m);
    DownRight(c, t, root, m);
    AtAppend(f, d, s, root, m);
    LinkedInside(s.right, m[s.node].right, s.node, m);
    PlugNodes(d, s);
    PlugAlone(d, s);
    LeftmostPath(Top, t.right);
    PathInside(Append(f, d), s.node, root, m);
    assert Linked(Leaf, m[s.node].left, s.node, m);
  }

  lemma {:induction false} LeftmostPath<N>(c: Path<N>, t: Shape<N>)
    requires t.Node?
    ensures var (d, s) := Leftmost(c, t);
      (d == c || d.InLeft?) && (d == c <==> t.left.Leaf?) && (d == c ==> s == t)
    decreases t
  {
    if t.left.Node? {
      LeftmostPath(InLeft(c, t.node, t.key, t.red, t.right), t.left);
      LeftmostLonger(InLeft(c, t.node, t.key, t.red, t.right), t.left);
    }
  }

  lemma {:induction false} LeftmostLonger<N>(c: Path<N>, t: Shape<N>)
    requires t.Node?
    ensures Length(Leftmost(c, t).0) >= Length(c)
    decreases t
  {
    if t.left.Node? { LeftmostLonger(InLeft(c, t.node, t.key, t.red, t.right), t.left); }
  }

  /** The writes of the removal, in their order, from `m` where the successor already hangs from the
      parent. */
  ghost function SuccessorWrites(x: TreeNode, n: TreeNode, l: TreeNode, r: TreeNode, p: TreeNode?, m: Cells): Cells
    requires {x, n, l, r} <= m.Keys && (p != null ==> p in m)
  {
    var a := m[x := m[x].(red := m[n].red, left := l, parent := m[n].parent)];
    var b := a[l := a[l].(parent := x)];
    if x == r || p == null then b
    else
      var d := b[p := b[p].(left := m[x].right)];
      var e := d[x := d[x].(right := r)];
      e[r := e[r].(parent := x)]
  }

  /** The cells after all writes of the removal. */
  ghost function RemovalCells(c: Path<TreeNode>, t: Shape<TreeNode>, m: Cells): Cells
    requires t.Node? && t.left.Node? && t.right.Node? && SuccessorPlan(c, t, m)
  {
    var x, r := Leftmost(Top, t.right).1.node, t.right.node;
    var p := m[x].parent;
    var m2 := SuccessorWrites(x, t.node, t.left.node, r, if x == r then null else p, Rehung(c, x, m));
    Adopted(m[x].right, if x == r then x else p, m2)
  }

  lemma RemovalNear(c: Path<TreeNode>, t: Shape<TreeNode>, m: Cells)
    requires t.Node? && t.left.Node? && t.right.Node? && SuccessorPlan(c, t, m) && Leftmost(Top, t.right).0 == Top
    ensures var m3, m4 := RemovalCells(c, t, m), UnlinkedCells(c, t, m);
      m3.Keys == m.Keys == m4.Keys && forall z :: z in m && z != t.node ==> m3[z] == m4[z]
  {
  }

  /** The two orders of writing agree outside `n` when the written nodes differ. */
  lemma FarWrites(c: Path<TreeNode>, x: TreeNode, n: TreeNode, l: TreeNode, r: TreeNode, p: TreeNode, y: TreeNode?,
    m: Cells)
    requires {x, n, l, r, p} <= m.Keys && (y != null ==> y in m) && m[x].right == y && m[n].parent == Parent(c)
    requires x !in {n, l, r, p, y, Parent(c)} && n !in {l, r, p, y, Parent(c)}
    requires l !in {r, p, y, Parent(c)} && r !in {y, Parent(c)} && p !in {y, Parent(c)} &&
      (y != null ==> y != Parent(c))
    ensures var m3 := Adopted(y, p, SuccessorWrites(x, n, l, r, p, Rehung(c, x, m)));
      var m1 := Rehung(c, x, Adopted(y, p, m[p := m[p].(left := y)]));
      var m4 := Adopted(l, x, Adopted(r, x, m1))[x := Cell(l, r, Parent(c), m[x].key, m[n].red)];
      m3.Keys == m.Keys == m4.Keys && forall z :: z in m && z != n ==> m3[z] == m4[z]
  {
  }

  lemma RemovalFar(c: Path<TreeNode>, t: Shape<TreeNode>, m: Cells)
    requires t.Node? && t.left.Node? && t.right.Node? && SuccessorPlan(c, t, m) && Leftmost(Top, t.right).0 != Top
    ensures var m3, m4 := RemovalCells(c, t, m), UnlinkedCells(c, t, m);
      m3.Keys == m.Keys == m4.Keys && forall z :: z in m && z != t.node ==> m3[z] == m4[z]
  {
    var (d, s) := Leftmost(Top, t.right);
    var f := InRight(c, t.left, t.node, t.key, t.red);
    assert Append(f, d).InLeft? && Append(f, d).node == d.node;
    LeftmostPath(Top, t.right);
    LeftmostRoot(Top, t.right, s.right);
    assert Root(Plug(d, s.right)) == t.right.node;
    FarWrites(c, s.node, t.node, t.left.node, t.right.node, d.node, Root(s.right), m);
  }

  /** Splicing out the leftmost node leaves any other root in place. */
  lemma {:induction false} LeftmostRoot(c: Path<TreeNode>, t: Shape<TreeNode>, y: Shape<TreeNode>)
    requires t.Node?
    ensures var (d, s) := Leftmost(c, t);
      t.left.Node? ==> Plug(d, y) == Plug(c, t.(left := Plug(Leftmost(Top, t.left).0, y)))
    decreases t
  {
    if t.left.Node? {
      var c' := InLeft(c, t.node, t.key, t.red, t.right);
      LeftmostFrom(c', t.left);
      PlugAppend(c', Leftmost(Top, t.left).0, y);
    }
  }

  lemma {:induction false} LeftmostFrom<N>(c: Path<N>, t: Shape<N>)
    requires t.Node?
    ensures Leftmost(c, t) == (Append(c, Leftmost(Top, t).0), Leftmost(Top, t).1)
    decreases t
  {
    if t.left.Node? {
      var f := InLeft(Top, t.node, t.key, t.red, t.right);
      LeftmostFrom(InLeft(c, t.node, t.key, t.red, t.right), t.left);
      LeftmostFrom(f, t.left);
      AppendAssoc(c, f, Leftmost(Top, t.left).0);
    }
  }

  lemma {:induction false} AppendAssoc<N>(a: Path<N>, b: Path<N>, c: Path<N>)
    ensures Append(Append(a, b), c) == Append(a, Append(b, c))
  {
    match c
    case Top =>
    case InLeft(up, _, _, _, _) => AppendAssoc(a, b, up);
    case InRight(up, _, _, _, _) => AppendAssoc(a, b, up);
  }

  /** The nodes after Unlinked, and what surrounds the new focus. */
  lemma UnlinkedNodes(c: Path<TreeNode>, t: Shape<TreeNode>, root: TreeNode?, m: Cells)
    requires t.Node? && At(c, t, root, m)
    ensures var (e, u, _) := Unlinked(c, t);
      Nodes(u) + PathNodes(e) == Nodes(t) + PathNodes(c) - {t.node} &&
      if t.left.Leaf? || t.right.Leaf? then e == c && u == Spliced(t)
      else
        var (d, s) := Leftmost(Top, t.right);
        u == s.right && Parent(e) == if d == Top then s.node else d.node
  {
    PathApart(c, Nodes(t));
    if t.left.Node? && t.right.Node? {
      var (d, s) := Leftmost(Top, t.right);
      var f := InRight(c, t.left, s.node, s.key, t.red);
      PlugAppend(f, d, s.right);
      PlugNodes(f, Plug(d, s.right));
      PlugNodes(Append(f, d), s.right);
      PlugNodes(d, s.right);
      PlugNodes(d, s);
      PlugAlone(d, s);
      SuccessorApart(c, t, root, m);
    }
  }

  lemma RemovalAt(c: Path<TreeNode>, t: Shape<TreeNode>, root: TreeNode?, m: Cells)
    requires t.Node? && t.left.Node? && t.right.Node? && At(c, t, root, m) && m.Keys == Nodes(t) + PathNodes(c)
    ensures SuccessorPlan(c, t, m)
    ensures var (e, u, _) := Unlinked(c, t);
      var m3 := RemovalCells(c, t, m);
      m3.Keys == m.Keys && At(e, u, UnlinkedRoot(c, t, root), m3 - {t.node}) &&
      m.Keys - {t.node} == Nodes(u) + PathNodes(e) &&
      var x := Leftmost(Top, t.right).1.node;
      Root(u) == m[x].right && Parent(e) == if x == t.right.node then x else m[x].parent
  {
    var (e, u, _) := Unlinked(c, t);
    SuccessorPlanned(c, t, root, m);
    UnlinkedAt(c, t, root, m);
    UnlinkedNodes(c, t, root, m);
    if Leftmost(Top, t.right).0 == Top { RemovalNear(c, t, m); } else { RemovalFar(c, t, m); }
    AtAgree(e, u, UnlinkedRoot(c, t, root), UnlinkedCells(c, t, m), RemovalCells(c, t, m) - {t.node});
  }
}
