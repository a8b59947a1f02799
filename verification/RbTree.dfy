/** The red-black tree of wepoll: nodes with parent pointers, rotated and relinked in place. */
module RbTree {
  import opened RbShape
  import opened TreeCells

  class Tree {
    var root: TreeNode?
    // `cells` mirrors the fields of the nodes, and `shape` is the tree they spell out.
    ghost var cells: Cells
    ghost var shape: Shape<TreeNode>

    ghost predicate Sync()
      reads `cells, cells.Keys
    {
      forall x {:trigger cells[x]} {:trigger x in cells} :: x in cells ==>
        Cell(x.left, x.right, x.parent, x.key, x.red) == cells[x]
    }

    /** The tree, seen from the subtree `t` below the path `c`. */
    ghost predicate Seen(c: Path<TreeNode>, t: Shape<TreeNode>)
      reads `root, `cells, cells.Keys
    {
      Sync() && At(c, t, root, cells) && cells.Keys == Nodes(t) + PathNodes(c)
    }

    ghost predicate Valid()
      reads `root, `cells, `shape, cells.Keys
    {
      Seen(Top, shape) && RedBlack(shape)
    }

    /** tree_init. */
    constructor ()
      ensures Valid() && shape == Leaf
    {
      root, cells, shape := null, map[], Leaf;
    }

    method SetRoot(x: TreeNode?)
      requires Sync()
      modifies `root
      ensures Sync() && root == x
    {
      root := x;
    }

    method SetLeft(x: TreeNode, y: TreeNode?)
      requires Sync() && x in cells
      modifies x`left, `cells
      ensures Sync() && cells == old(cells)[x := old(cells)[x].(left := y)]
    {
      x.left := y;
      cells := cells[x := cells[x].(left := y)];
    }

    method SetRight(x: TreeNode, y: TreeNode?)
      requires Sync() && x in cells
      modifies x`right, `cells
      ensures Sync() && cells == old(cells)[x := old(cells)[x].(right := y)]
    {
      x.right := y;
      cells := cells[x := cells[x].(right := y)];
    }

    method SetParent(x: TreeNode, y: TreeNode?)
      requires Sync() && x in cells
      modifies x`parent, `cells
      ensures Sync() && cells == old(cells)[x := old(cells)[x].(parent := y)]
    {
      x.parent := y;
      cells := cells[x := cells[x].(parent := y)];
    }

    method SetRed(x: TreeNode, b: bool)
      requires Sync() && x in cells
      modifies x`red, `cells
      ensures Sync() && cells == old(cells)[x := old(cells)[x].(red := b)]
    {
      x.red := b;
      cells := cells[x := cells[x].(red := b)];
    }

    /** Puts `q` where `p` hangs. */
    method Rehang(parent: TreeNode?, p: TreeNode, q: TreeNode?, ghost c: Path<TreeNode>, ghost below: set<TreeNode>)
      requires Sync() && LinkedPath(c, p, root, cells) && NoDupPath(c, below) && p in below && parent == Parent(c)
      modifies `root, `cells, cells.Keys`left, cells.Keys`right
      ensures Sync() && cells == Rehung(c, q, old(cells)) && cells.Keys == old(cells.Keys) &&
        root == if c.Top? then q else old(root)
    {
      if parent != null {
        assert cells[parent].left == p <==> c.InLeft? by {
          if c.InRight? { LinkedInside(c.left, cells[parent].left, parent, cells); }
        }
        if parent.left == p {
          SetLeft(parent, q);
        } else {
          SetRight(parent, q);
        }
      } else {
        SetRoot(q);
      }
    }

    method LowerLeft(p: TreeNode, q: TreeNode, parent: TreeNode?)
      requires Sync() && p in cells && q in cells && p != q && q.left != p && q.left != q &&
        (q.left == null || q.left in cells)
      modifies `cells, p`right, p`parent, q`left, q`parent, (if q.left == null then {} else {q.left})`parent
      ensures Sync() && cells == Adopted(old(q.left), p,
          old(cells)[p := old(cells)[p].(right := old(q.left), parent := q)]
            [q := old(cells)[q].(left := p, parent := parent)])
    {
      ghost var b := q.left;
      cells := Adopted(b, p, cells[p := cells[p].(right := b, parent := q)]
        [q := cells[q].(left := p, parent := parent)]);
      q.parent := parent;
      p.parent := q;
      p.right := q.left;
      if p.right != null {
        p.right.parent := p;
      }
      q.left := p;
      forall x | x in cells
        ensures Cell(x.left, x.right, x.parent, x.key, x.red) == cells[x]
      {
        if x == p {
        } else if x == q {
        } else if x == b {
        } else {
        }
      }
    }

    method RotateLeft(p: TreeNode, ghost c: Path<TreeNode>, ghost t: Shape<TreeNode>)
      requires t.Node? && t.right.Node? && t.node == p && Seen(c, t)
      modifies `root, `cells, cells.Keys`left, cells.Keys`right, cells.Keys`parent
      ensures Seen(c, RotatedLeft(t))
      ensures cells.Keys == old(cells.Keys)
    {
      RotatedLeftAt(c, t, root, cells);
      RotateLeftPlan(c, t, root, cells);
      var q := p.right;
      var parent := p.parent;
      Rehang(parent, p, q, c, Nodes(t));
      LowerLeft(p, q, parent);
      assert cells == RotatedLeftCells(c, t, old(cells));
    }

    method LowerRight(p: TreeNode, q: TreeNode, parent: TreeNode?)
      requires Sync() && p in cells && q in cells && p != q && q.right != p && q.right != q &&
        (q.right == null || q.right in cells)
      modifies `cells, p`left, p`parent, q`right, q`parent, (if q.right == null then {} else {q.right})`parent
      ensures Sync() && cells == Adopted(old(q.right), p,
          old(cells)[p := old(cells)[p].(left := old(q.right), parent := q)]
            [q := old(cells)[q].(right := p, parent := parent)])
    {
      ghost var b := q.right;
      cells := Adopted(b, p, cells[p := cells[p].(left := b, parent := q)]
        [q := cells[q].(right := p, parent := parent)]);
      q.parent := parent;
      p.parent := q;
      p.left := q.right;
      if p.left != null {
        p.left.parent := p;
      }
      q.right := p;
      forall x | x in cells
        ensures Cell(x.left, x.right, x.parent, x.key, x.red) == cells[x]
      {
        if x == p {
        } else if x == q {
        } else if x == b {
        } else {
        }
      }
    }

    method RotateRight(p: TreeNode, ghost c: Path<TreeNode>, ghost t: Shape<TreeNode>)
      requires t.Node? && t.left.Node? && t.node == p && Seen(c, t)
      modifies `root, `cells, cells.Keys`right, cells.Keys`left, cells.Keys`parent
      ensures Seen(c, RotatedRight(t))
      ensures cells.Keys == old(cells.Keys)
    {
      RotatedRightAt(c, t, root, cells);
      RotateRightPlan(c, t, root, cells);
      var q := p.left;
      var parent := p.parent;
      Rehang(parent, p, q, c, Nodes(t));
      LowerRight(p, q, parent);
      assert cells == RotatedRightCells(c, t, old(cells));
    }

    // ---------- moving the focus ----------

    lemma SeenLeft(c: Path<TreeNode>, t: Shape<TreeNode>)
      requires t.Node?
      ensures Seen(c, t) == Seen(InLeft(c, t.node, t.key, t.red, t.right), t.left)
    {
      DownLeft(c, t, root, cells);
      assert Nodes(t) + PathNodes(c) == Nodes(t.left) + PathNodes(InLeft(c, t.node, t.key, t.red, t.right));
    }

    lemma SeenRight(c: Path<TreeNode>, t: Shape<TreeNode>)
      requires t.Node?
      ensures Seen(c, t) == Seen(InRight(c, t.left, t.node, t.key, t.red), t.right)
    {
      DownRight(c, t, root, cells);
      assert Nodes(t) + PathNodes(c) == Nodes(t.right) + PathNodes(InRight(c, t.left, t.node, t.key, t.red));
    }

    /** The fields at the focus. */
    lemma SeenFields(c: Path<TreeNode>, t: Shape<TreeNode>)
      requires Seen(c, t) && t.Node?
      ensures t.node in cells && cells[t.node] == Cell(Root(t.left), Root(t.right), Parent(c), t.key, t.red)
      ensures Root(t.left) != null ==> Root(t.left) in cells && Root(t.left) != t.node
      ensures Root(t.right) != null ==>
        Root(t.right) in cells && Root(t.right) != t.node && Root(t.right) != Root(t.left)
    {
      LinkedInside(t.left, cells[t.node].left, t.node, cells);
      LinkedInside(t.right, cells[t.node].right, t.node, cells);
    }

    /** The fields of the frame around the focus. */
    lemma ParentFields(c: Path<TreeNode>, t: Shape<TreeNode>)
      requires Seen(c, t)
      ensures c != Top ==> c.node in cells && cells[c.node].red == c.red && cells[c.node].parent == Parent(c.up)
    {
      if c != Top {
        SeenUp(c, t);
        SeenFields(c.up, Framed(c, t));
      }
    }

    lemma GrandparentFields(c: Path<TreeNode>, t: Shape<TreeNode>)
      requires Seen(c, t) && c != Top && c.up != Top
      ensures c.node in cells && cells[c.node].parent == c.up.node && c.up.node in cells
      ensures cells[c.up.node].left == c.node <==> c.up.InLeft?
      ensures NoDup(Framed(c.up, Framed(c, t)))
    {
      SeenUp(c, t);
      SeenUp(c.up, Framed(c, t));
      SeenFields(c.up, Framed(c, t));
      SeenFields(c.up.up, Framed(c.up, Framed(c, t)));
    }

    lemma SeenWhole(c: Path<TreeNode>, t: Shape<TreeNode>)
      requires Seen(c, t)
      ensures Seen(Top, Plug(c, t))
      decreases c
    {
      if c != Top {
        SeenUp(c, t);
        SeenWhole(c.up, Framed(c, t));
      }
    }

    method Paint(x: TreeNode, b: bool, ghost c: Path<TreeNode>, ghost t: Shape<TreeNode>)
      requires Seen(c, t) && t.Node? && t.node == x
      modifies x`red, `cells
      ensures Seen(c, t.(red := b))
      ensures cells.Keys == old(cells.Keys)
    {
      Repainted(c, t, root, cells, b);
      SetRed(x, b);
    }
  
    lemma SeenUp(c: Path<TreeNode>, t: Shape<TreeNode>)
      requires c != Top
      ensures Seen(c, t) == Seen(c.up, Framed(c, t))
    {
      SeenLeft(c.up, Framed(c, t));
      SeenRight(c.up, Framed(c, t));
    }

    // ---------- tree_add ----------

    /** Moves a red-red conflict below a red uncle up to the grandparent. */
    method PushUpFromLeft(parent: TreeNode, uncle: TreeNode, grandparent: TreeNode,
                          ghost c: Path<TreeNode>, ghost t: Shape<TreeNode>)
      requires Seen(c, t) && t.Node? && t.left.Node? && t.right.Node?
      requires grandparent == t.node && parent == t.left.node && uncle == t.right.node
      modifies parent`red, uncle`red, grandparent`red, `cells
      ensures Seen(c, Node(t.left.(red := false), t.node, t.key, true, t.right.(red := false)))
      ensures cells.Keys == old(cells.Keys)
    {
      SeenLeft(c, t);
      Paint(parent, false, InLeft(c, t.node, t.key, t.red, t.right), t.left);
      ghost var t1 := t.(left := t.left.(red := false));
      SeenLeft(c, t1);
      SeenRight(c, t1);
      Paint(uncle, false, InRight(c, t1.left, t.node, t.key, t.red), t.right);
      ghost var t2 := t1.(right := t.right.(red := false));
      SeenRight(c, t2);
      Paint(grandparent, true, c, t2);
    }

    /** Resolves a red-red conflict on the outer side below a black uncle. */
    method LiftFromLeft(parent: TreeNode, grandparent: TreeNode, ghost c: Path<TreeNode>, ghost t: Shape<TreeNode>)
      requires Seen(c, t) && t.Node? && t.left.Node? && grandparent == t.node && parent == t.left.node
      modifies `root, `cells, cells.Keys`left, cells.Keys`right, cells.Keys`parent, cells.Keys`red
      ensures Seen(c, Node(t.left.left, parent, t.left.key, false,
                           Node(t.left.right, grandparent, t.key, true, t.right)))
      ensures cells.Keys == old(cells.Keys)
    {
      SeenFields(c, t);
      SeenLeft(c, t);
      Paint(parent, false, InLeft(c, t.node, t.key, t.red, t.right), t.left);
      ghost var t1 := t.(left := t.left.(red := false));
      SeenLeft(c, t1);
      Paint(grandparent, true, c, t1);
      RotateRight(grandparent, c, t1.(red := true));
    }

    /** Moves a red-red conflict below a red uncle up to the grandparent. */
    method PushUpFromRight(parent: TreeNode, uncle: TreeNode, grandparent: TreeNode,
                          ghost c: Path<TreeNode>, ghost t: Shape<TreeNode>)
      requires Seen(c, t) && t.Node? && t.right.Node? && t.left.Node?
      requires grandparent == t.node && parent == t.right.node && uncle == t.left.node
      modifies parent`red, uncle`red, grandparent`red, `cells
      ensures Seen(c, Node(t.left.(red := false), t.node, t.key, true, t.right.(red := false)))
      ensures cells.Keys == old(cells.Keys)
    {
      SeenRight(c, t);
      Paint(parent, false, InRight(c, t.left, t.node, t.key, t.red), t.right);
      ghost var t1 := t.(right := t.right.(red := false));
      SeenRight(c, t1);
      SeenLeft(c, t1);
      Paint(uncle, false, InLeft(c, t.node, t.key, t.red, t1.right), t.left);
      ghost var t2 := t1.(left := t.left.(red := false));
      SeenLeft(c, t2);
      Paint(grandparent, true, c, t2);
    }

    /** Resolves a red-red conflict on the outer side below a black uncle. */
    method LiftFromRight(parent: TreeNode, grandparent: TreeNode, ghost c: Path<TreeNode>, ghost t: Shape<TreeNode>)
      requires Seen(c, t) && t.Node? && t.right.Node? && grandparent == t.node && parent == t.right.node
      modifies `root, `cells, cells.Keys`right, cells.Keys`left, cells.Keys`parent, cells.Keys`red
      ensures Seen(c, Node(Node(t.left, grandparent, t.key, true, t.right.left), parent, t.right.key, false,
        t.right.right))
      ensures cells.Keys == old(cells.Keys)
    {
      SeenFields(c, t);
      SeenRight(c, t);
      Paint(parent, false, InRight(c, t.left, t.node, t.key, t.red), t.right);
      ghost var t1 := t.(right := t.right.(red := false));
      SeenRight(c, t1);
      Paint(grandparent, true, c, t1);
      RotateLeft(grandparent, c, t1.(red := true));
    }

    /** One round of the repair loop when the red parent is a left child. */
    method RepairFromLeft(node0: TreeNode, parent0: TreeNode, ghost c: Path<TreeNode>, ghost t: Shape<TreeNode>)
      returns (node: TreeNode)
      requires Seen(c, t) && AddInv(c, t) && t.node == node0 && c != Top && parent0 == c.node && c.red && c.up.InLeft?
      modifies `root, `cells, cells.Keys`left, cells.Keys`right, cells.Keys`parent, cells.Keys`red
      ensures var (d, u) := AddStep(c, t); Seen(d, u) && u.Node? && u.node == node
      ensures cells.Keys == old(cells.Keys)
    {
      ghost var p := Framed(c, t);
      ghost var g := Framed(c.up, p);
      ghost var gg := c.up.up;
      SeenUp(c, t);
      SeenUp(c.up, p);
      SeenFields(gg, g);
      SeenFields(c.up, p);
      SeenRight(gg, g);
      if g.right.Node? { SeenFields(InRight(gg, g.left, g.node, g.key, g.red), g.right); }
      node := node0;
      var parent := parent0;
      var grandparent := parent.parent;
      var uncle := grandparent.right;
      if uncle != null && uncle.red {
        PushUpFromLeft(parent, uncle, grandparent, gg, g);
        node := grandparent;
      } else {
        if node == parent.right {
          RotateLeft(parent, c.up, p);
          p := RotatedLeft(p);
          node := parent;
          SeenLeft(c.up, p);
          SeenFields(InLeft(c.up, p.node, p.key, p.red, p.right), p.left);
          parent := node.parent;
          SeenUp(c.up, p);
          g := Framed(c.up, p);
        }
        LiftFromLeft(parent, grandparent, gg, g);
        SeenLeft(gg, LiftedLeft(g));
      }
    }

    /** One round of the repair loop when the red parent is a right child. */
    method RepairFromRight(node0: TreeNode, parent0: TreeNode, ghost c: Path<TreeNode>, ghost t: Shape<TreeNode>)
      returns (node: TreeNode)
      requires Seen(c, t) && AddInv(c, t) && t.node == node0 && c != Top && parent0 == c.node && c.red && c.up.InRight?
      modifies `root, `cells, cells.Keys`right, cells.Keys`left, cells.Keys`parent, cells.Keys`red
      ensures var (d, u) := AddStep(c, t); Seen(d, u) && u.Node? && u.node == node
      ensures cells.Keys == old(cells.Keys)
    {
      ghost var p := Framed(c, t);
      ghost var g := Framed(c.up, p);
      ghost var gg := c.up.up;
      SeenUp(c, t);
      SeenUp(c.up, p);
      SeenFields(gg, g);
      SeenFields(c.up, p);
      SeenLeft(gg, g);
      if g.left.Node? { SeenFields(InLeft(gg, g.node, g.key, g.red, g.right), g.left); }
      node := node0;
      var parent := parent0;
      var grandparent := parent.parent;
      var uncle := grandparent.left;
      if uncle != null && uncle.red {
        PushUpFromRight(parent, uncle, grandparent, gg, g);
        node := grandparent;
      } else {
        if node == parent.left {
          RotateRight(parent, c.up, p);
          p := RotatedRight(p);
          node := parent;
          SeenRight(c.up, p);
          SeenFields(InRight(c.up, p.left, p.node, p.key, p.red), p.right);
          parent := node.parent;
          SeenUp(c.up, p);
          g := Framed(c.up, p);
        }
        LiftFromRight(parent, grandparent, gg, g);
        SeenRight(gg, LiftedRight(g));
      }
    }

    /** Descends to the free child pointer where `key` belongs and hooks `node` there. */
    method Attach(node: TreeNode, key: nat) returns (r: int, parent: TreeNode?, ghost c: Path<TreeNode>)
      requires Valid() && node !in cells
      modifies `root, `cells, cells.Keys`left, cells.Keys`right
      ensures r == 0 || r == -1
      ensures Sync() && cells.Keys == old(cells.Keys)
      ensures r == -1 ==> HasKey(Inorder(shape), key) && root == old(root) && cells == old(cells)
      ensures r == 0 ==> parent == Parent(c) && Plug(c, Leaf) == shape && Between(c, key)
      ensures r == 0 ==> At(c, Leaf, old(root), old(cells)) && cells.Keys == PathNodes(c)
      ensures r == 0 ==> root == (if c.Top? then node else old(root)) && cells == Rehung(c, node, old(cells))
    {
      parent := root;
      c := Top;
      ghost var t := shape;
      if parent != null {
        while true
          invariant Seen(c, t) && Plug(c, t) == shape && Between(c, key) && t.Node? && parent == t.node
          invariant root == old(root) && cells == old(cells)
          decreases t
        {
          SeenFields(c, t);
          BetweenDown(c, t, key);
          SeenLeft(c, t);
          SeenRight(c, t);
          if key < parent.key {
            c, t := InLeft(c, t.node, t.key, t.red, t.right), t.left;
            if parent.left != null {
              parent := parent.left;
            } else {
              SetLeft(parent, node);
              break;
            }
          } else if key > parent.key {
            c, t := InRight(c, t.left, t.node, t.key, t.red), t.right;
            if parent.right != null {
              parent := parent.right;
            } else {
              SetRight(parent, node);
              break;
            }
          } else {
            PluggedKey(c, t);
            return -1, parent, c;
          }
        }
      } else {
        SetRoot(node);
      }
      r := 0;
    }

    method BlackenRoot(ghost c: Path<TreeNode>, ghost t: Shape<TreeNode>)
      requires Seen(c, t) && t.Node? && Balanced(Plug(c, t))
      modifies `shape, `cells, cells.Keys`red
      ensures Seen(Top, shape) && Balanced(shape) && !IsRed(shape) && Inorder(shape) == Inorder(Plug(c, t))
      ensures cells.Keys == old(cells.Keys)
    {
      SeenWhole(c, t);
      PlugNode(c, t);
      shape := Plug(c, t);
      SeenFields(Top, shape);
      Paint(root, false, Top, shape);
      shape := Blacken(shape);
    }

    /** Recolours and rotates upwards until no red node has a red parent; then blackens the root. */
    method RepairAfterAdd(node0: TreeNode, ghost c0: Path<TreeNode>, ghost t0: Shape<TreeNode>)
      requires Seen(c0, t0) && AddInv(c0, t0) && t0.node == node0
      modifies `root, `cells, `shape, cells.Keys`left, cells.Keys`right, cells.Keys`parent, cells.Keys`red
      ensures Seen(Top, shape) && Balanced(shape) && !IsRed(shape) && Inorder(shape) == Inorder(Plug(c0, t0))
    {
      var node := node0;
      ghost var c, t := c0, t0;
      SeenFields(c, t);
      ParentFields(c, t);
      var parent := node.parent;
      while parent != null && parent.red
        invariant Seen(c, t) && AddInv(c, t) && t.node == node && parent == Parent(c)
        invariant parent != null ==> parent.red == c.red
        invariant Inorder(Plug(c, t)) == Inorder(Plug(c0, t0))
        invariant cells.Keys == old(cells.Keys)
        decreases Length(c)
      {
        AddStepColours(c, t);
        GrandparentFields(c, t);
        AddStepOrder(c, t);
        if parent == parent.parent.left {
          node := RepairFromLeft(node, parent, c, t);
        } else {
          node := RepairFromRight(node, parent, c, t);
        }
        ghost var next := AddStep(c, t);
        c, t := next.0, next.1;
        SeenFields(c, t);
        ParentFields(c, t);
        parent := node.parent;
      }
      PlugBalanced(c, t);
      BlackenRoot(c, t);
    }

    /** Fills in the hooked node. */
    method Place(node: TreeNode, key: nat, parent: TreeNode?, ghost c: Path<TreeNode>)
      requires Sync() && node !in cells && parent == Parent(c) && cells.Keys == PathNodes(c)
      requires At(c, Node(Leaf, node, key, true, Leaf), root, cells[node := Cell(null, null, parent, key, true)])
      modifies `cells, node
      ensures Seen(c, Node(Leaf, node, key, true, Leaf)) && cells.Keys == old(cells.Keys) + {node}
    {
      node.key := key;
      node.left, node.right := null, null;
      node.parent := parent;
      node.red := true;
      cells := cells[node := Cell(null, null, parent, key, true)];
    }

    /** Adds `node` under `key`, unless the key is taken. */
    method Add(node: TreeNode, key: nat) returns (r: int)
      requires Valid() && node !in cells
      modifies `root, `cells, `shape, cells.Keys, node
      ensures Valid()
      ensures r == if HasKey(old(Inorder(shape)), key) then -1 else 0
      ensures r == -1 ==> root == old(root) && cells == old(cells) && shape == old(shape)
      ensures r == 0 ==> exists i :: 0 <= i <= |old(Inorder(shape))| &&
                           Inorder(shape) == InsertedAt(old(Inorder(shape)), i, (node, key))
    {
      ghost var c;
      var parent;
      r, parent, c := Attach(node, key);
      if r < 0 {
        return;
      }
      BetweenMisses(c, key);
      PlugNewLeaf(c, node, key);
      LeafAdded(c, node, key, old(root), old(cells));
      Place(node, key, parent, c);
      ghost var t := Node(Leaf, node, key, true, Leaf);
      AddInvLeaf(c, node, key);
      RepairAfterAdd(node, c, t);
      assert Inorder(shape) == InsertedAt(old(Inorder(shape)), |Before(c)|, (node, key));
    }

    /** The node with this key, if there is one. */
    method Find(key: nat) returns (node: TreeNode?)
      requires Valid()
      ensures node == null <==> !HasKey(Inorder(shape), key)
      ensures node != null ==> node in cells && (node, key) in Inorder(shape)
    {
      node := root;
      ghost var c, t := Top, shape;
      while node != null
        invariant Seen(c, t) && Plug(c, t) == shape && Between(c, key) && node == Root(t)
        decreases t
      {
        SeenFields(c, t);
        BetweenDown(c, t, key);
        SeenLeft(c, t);
        SeenRight(c, t);
        if key < node.key {
          c, t := InLeft(c, t.node, t.key, t.red, t.right), t.left;
          node := node.left;
        } else if key > node.key {
          c, t := InRight(c, t.left, t.node, t.key, t.red), t.right;
          node := node.right;
        } else {
          PluggedKey(c, t);
          return;
        }
      }
      BetweenMisses(c, key);
    }

    // ---------- tree_del ----------

    /** The successor `next` of `node`, already hung from the parent, takes over the children and the
        colour of `node`. Returns where the shortfall may be: the child left behind and its parent. */
    method TakeOver(node: TreeNode, next: TreeNode, left: TreeNode, right: TreeNode)
      returns (child: TreeNode?, parent: TreeNode)
      requires Sync() && {node, next, left, right} <= cells.Keys
      requires node !in {next, left, right} && left !in {next, right}
      requires next != right ==> next.parent != null && next.parent in cells && next.parent !in {next, node, left}
      modifies `cells, cells.Keys`red, cells.Keys`left, cells.Keys`right, cells.Keys`parent
      ensures Sync() && child == old(next.right)
      ensures parent == if next == right then next else old(next.parent)
      ensures cells == SuccessorWrites(next, node, left, right, if next == right then null else old(next.parent),
        old(cells))
      ensures cells.Keys == old(cells.Keys)
    {
      ghost var m := cells;
      next.red := node.red;
      next.left := left;
      left.parent := next;
      if next != right {
        parent := next.parent;
        next.parent := node.parent;
        child := next.right;
        parent.left := child;
        next.right := right;
        right.parent := next;
      } else {
        next.parent := node.parent;
        parent := next;
        child := next.right;
      }
      cells := SuccessorWrites(next, node, left, right, if next == right then null else parent, m);
      forall x | x in cells
        ensures Cell(x.left, x.right, x.parent, x.key, x.red) == cells[x]
      {
        if x == next {
        } else if x == left {
        } else if x == right {
        } else if x == parent {
        } else {
        }
      }
    }

    /** The leftmost node below `right`. */
    method Successor(right: TreeNode, ghost c: Path<TreeNode>, ghost t: Shape<TreeNode>) returns (next: TreeNode)
      requires Seen(c, t) && t.Node? && t.node == right
      ensures next == Leftmost(Top, t).1.node
    {
      next := right;
      ghost var d, s := Top, t;
      while next.left != null
        invariant Seen(Append(c, d), s) && s.Node? && s.node == next && Leftmost(d, s) == Leftmost(Top, t)
        decreases s
      {
        SeenFields(Append(c, d), s);
        SeenLeft(Append(c, d), s);
        next := next.left;
        d, s := InLeft(d, s.node, s.key, s.red, s.right), s.left;
      }
      SeenFields(Append(c, d), s);
    }

    /** Finishes taking out a node with at most one child, which already hangs from the parent. */
    method FinishSplice(node: TreeNode, next: TreeNode?, parent: TreeNode?,
                        ghost c: Path<TreeNode>, ghost t: Shape<TreeNode>, ghost root0: TreeNode?, ghost m: Cells)
      requires t.Node? && (t.left.Leaf? || t.right.Leaf?) && At(c, t, root0, m) && m.Keys == Nodes(t) + PathNodes(c)
      requires Sync() && cells == Rehung(c, next, m) && root == UnlinkedRoot(c, t, root0)
      requires node == t.node && next == Root(Spliced(t)) && parent == Parent(c)
      modifies `cells, cells.Keys`parent
      ensures Seen(c, Spliced(t)) && cells.Keys == m.Keys - {node}
    {
      UnlinkedAt(c, t, root0, m);
      UnlinkedNodes(c, t, root0, m);
      ghost var u := Spliced(t);
      assert next != null ==> next in Nodes(u);
      if next != null {
        SetParent(next, parent);
      }
      assert cells == SplicedCells(c, u, m);
      AtAgree(c, u, root, cells, cells - {node});
      cells := cells - {node};
    }

    /** Finishes taking out a node whose successor `next` already hangs from the parent. */
    method FinishTakeOver(node: TreeNode, next: TreeNode, left: TreeNode, right: TreeNode,
                          ghost c: Path<TreeNode>, ghost t: Shape<TreeNode>, ghost root0: TreeNode?, ghost m: Cells)
      returns (child: TreeNode?, parent: TreeNode)
      requires t.Node? && t.left.Node? && t.right.Node? && At(c, t, root0, m) && m.Keys == Nodes(t) + PathNodes(c)
      requires Sync() && cells == Rehung(c, next, m) && root == UnlinkedRoot(c, t, root0)
      requires node == t.node && left == t.left.node && right == t.right.node && next == Leftmost(Top, t.right).1.node
      modifies `cells, cells.Keys`red, cells.Keys`left, cells.Keys`right, cells.Keys`parent
      ensures var (e, u, _) := Unlinked(c, t); Seen(e, u) && child == Root(u) && parent == Parent(e)
      ensures cells.Keys == m.Keys - {node}
    {
      RemovalAt(c, t, root0, m);
      assert cells[next] == m[next];
      assert next.parent == m[next].parent && next.right == m[next].right;
      child, parent := TakeOver(node, next, left, right);
      if child != null {
        SetParent(child, parent);
      }
      assert cells == RemovalCells(c, t, m);
      cells := cells - {node};
    }

    /** The first half of tree_del: takes `node` out and reports where the colours may be wrong. */
    method Unlink(node: TreeNode, ghost c: Path<TreeNode>, ghost t: Shape<TreeNode>)
      returns (child: TreeNode?, parent: TreeNode?, red: bool)
      requires Seen(c, t) && t.Node? && t.node == node
      modifies `root, `cells, cells.Keys`left, cells.Keys`right, cells.Keys`parent, cells.Keys`red
      ensures var (e, u, r) := Unlinked(c, t); Seen(e, u) && child == Root(u) && parent == Parent(e) && red == r
      ensures cells.Keys == old(cells.Keys) - {node}
    {
      SeenFields(c, t);
      PathApart(c, Nodes(t));
      parent := node.parent;
      var left := node.left;
      var right := node.right;
      var next;
      if left == null {
        next := right;
      } else if right == null {
        next := left;
      } else {
        SeenRight(c, t);
        SuccessorPlanned(c, t, root, cells);
        next := Successor(right, InRight(c, t.left, t.node, t.key, t.red), t.right);
      }
      Rehang(parent, node, next, c, Nodes(t));
      if left != null && right != null {
        red := next.red;
        child, parent := FinishTakeOver(node, next, left, right, c, t, old(root), old(cells));
      } else {
        red := node.red;
        FinishSplice(node, next, parent, c, t, old(root), old(cells));
        child := next;
      }
    }

    /** What the repair loop reads at a right sibling. */
    lemma SiblingFieldsRight(c: Path<TreeNode>, t: Shape<TreeNode>)
      requires Seen(c, t) && c.InLeft? && c.right.Node?
      ensures c.node in cells && cells[c.node].right == c.right.node && c.right.node in cells
      ensures cells[c.right.node].red == c.right.red
      ensures cells[c.right.node].left == Root(c.right.left) && cells[c.right.node].right == Root(c.right.right)
      ensures Root(c.right.left) != null ==>
        Root(c.right.left) in cells && cells[Root(c.right.left)].red == c.right.left.red
      ensures Root(c.right.right) != null ==>
        Root(c.right.right) in cells && cells[Root(c.right.right)].red == c.right.right.red
    {
      var p := Framed(c, t);
      var d := InRight(c.up, p.left, p.node, p.key, p.red);
      SeenUp(c, t);
      SeenFields(c.up, p);
      SeenRight(c.up, p);
      SeenFields(d, c.right);
      SeenLeft(d, c.right);
      SeenRight(d, c.right);
    }

    /** Rotates a red right sibling up, so that the new sibling is black. */
    method RaiseSiblingRight(parent: TreeNode, sibling: TreeNode, ghost c: Path<TreeNode>, ghost t: Shape<TreeNode>)
      requires Seen(c, t) && c.InLeft? && IsRed(c.right) && parent == c.node && sibling == c.right.node
      modifies `root, `cells, cells.Keys`left, cells.Keys`right, cells.Keys`parent, cells.Keys`red
      ensures Seen(BlackSiblingRight(c, t), t) && cells.Keys == old(cells.Keys)
    {
      ghost var p := Framed(c, t);
      SeenUp(c, t);
      SeenFields(c.up, p);
      SeenRight(c.up, p);
      Paint(sibling, false, InRight(c.up, p.left, p.node, p.key, p.red), p.right);
      p := p.(right := p.right.(red := false));
      SeenRight(c.up, p);
      Paint(parent, true, c.up, p);
      p := p.(red := true);
      RotateLeft(parent, c.up, p);
      ghost var q := RotatedLeft(p);
      SeenLeft(c.up, q);
      SeenLeft(InLeft(c.up, q.node, q.key, q.red, q.right), q.left);
    }

    /** Makes the far nephew red when only the near one is. */
    method TurnNearRight(sibling: TreeNode, ghost c: Path<TreeNode>, ghost s: Shape<TreeNode>)
      requires Seen(c, s) && s.Node? && s.node == sibling && IsRed(s.left) && !IsRed(s.right)
      modifies `root, `cells, cells.Keys`left, cells.Keys`right, cells.Keys`parent, cells.Keys`red
      ensures Seen(c, FarRedRight(s)) && cells.Keys == old(cells.Keys)
    {
      SeenFields(c, s);
      SeenLeft(c, s);
      Paint(sibling.left, false, InLeft(c, s.node, s.key, s.red, s.right), s.left);
      ghost var s1 := s.(left := s.left.(red := false));
      SeenLeft(c, s1);
      Paint(sibling, true, c, s1);
      RotateRight(sibling, c, s1.(red := true));
    }

    /** Lets the sibling take the place and colour of the parent, which goes over to the short side. */
    method BorrowRight(parent: TreeNode, sibling: TreeNode, ghost c: Path<TreeNode>, ghost p: Shape<TreeNode>)
      requires Seen(c, p) && p.Node? && p.right.Node? && IsRed(p.right.right)
      requires parent == p.node && sibling == p.right.node
      modifies `root, `cells, cells.Keys`left, cells.Keys`right, cells.Keys`parent, cells.Keys`red
      ensures Seen(c, BorrowedRight(p)) && cells.Keys == old(cells.Keys)
    {
      SeenFields(c, p);
      SeenRight(c, p);
      ghost var d := InRight(c, p.left, p.node, p.key, p.red);
      Paint(sibling, parent.red, d, p.right);
      ghost var s := p.right.(red := p.red);
      SeenRight(c, p.(right := s));
      Paint(parent, false, c, p.(right := s));
      SeenRight(c, p.(red := false, right := s));
      d := InRight(c, p.left, p.node, p.key, false);
      SeenFields(d, s);
      SeenRight(d, s);
      Paint(sibling.right, false, InRight(d, s.left, s.node, s.key, s.red), s.right);
      s := s.(right := Blacken(s.right));
      SeenRight(d, s);
      SeenRight(c, p.(red := false, right := s));
      RotateLeft(parent, c, p.(red := false, right := s));
    }

    /** Settles the shortfall against a black right sibling, or passes it on to the parent. */
    method ShareRight(parent: TreeNode, sibling0: TreeNode, ghost d: Path<TreeNode>, ghost t: Shape<TreeNode>)
      returns (done: bool)
      requires Seen(d, t) && d.InLeft? && d.right.Node? && !d.right.red && parent == d.node && sibling0 == d.right.node
      modifies `root, `cells, cells.Keys`left, cells.Keys`right, cells.Keys`parent, cells.Keys`red
      ensures done == (IsRed(d.right.left) || IsRed(d.right.right))
      ensures done ==> Seen(d.up, BorrowedRight(Node(t, d.node, d.key, d.red, FarRedRight(d.right))))
      ensures !done ==> Seen(d.up, Node(t, d.node, d.key, d.red, d.right.(red := true)))
      ensures cells.Keys == old(cells.Keys)
    {
      SiblingFieldsRight(d, t);
      var sibling := sibling0;
      ghost var f := InRight(d.up, t, d.node, d.key, d.red);
      SeenUp(d, t);
      SeenRight(d.up, Framed(d, t));
      if (sibling.left != null && sibling.left.red) || (sibling.right != null && sibling.right.red) {
        ghost var p := Node(t, d.node, d.key, d.red, FarRedRight(d.right));
        if sibling.right == null || !sibling.right.red {
          TurnNearRight(sibling, f, d.right);
          SeenRight(d.up, p);
          SeenFields(d.up, p);
          sibling := parent.right;
        }
        BorrowRight(parent, sibling, d.up, p);
        done := true;
      } else {
        Paint(sibling, true, f, d.right);
        SeenRight(d.up, Node(t, d.node, d.key, d.red, d.right.(red := true)));
        done := false;
      }
    }

    /** One round of the repair loop when the short side is a left child. */
    method FillLeft(parent: TreeNode, ghost c: Path<TreeNode>, ghost t: Shape<TreeNode>) returns (done: bool)
      requires Seen(c, t) && DelInv(c, t) && c.InLeft? && parent == c.node
      modifies `root, `cells, cells.Keys`left, cells.Keys`right, cells.Keys`parent, cells.Keys`red
      ensures var (e, u, d) := DelStep(c, t); Seen(e, u) && done == d && (!d ==> u.Node? && u.node == parent)
      ensures cells.Keys == old(cells.Keys)
    {
      SiblingThere(c, t);
      SiblingFieldsRight(c, t);
      var sibling := parent.right;
      if sibling.red {
        RaiseSiblingRight(parent, sibling, c, t);
        SiblingFieldsRight(BlackSiblingRight(c, t), t);
        sibling := parent.right;
      }
      done := ShareRight(parent, sibling, BlackSiblingRight(c, t), t);
    }

    /** What the repair loop reads at a left sibling. */
    lemma SiblingFieldsLeft(c: Path<TreeNode>, t: Shape<TreeNode>)
      requires Seen(c, t) && c.InRight? && c.left.Node?
      ensures c.node in cells && cells[c.node].left == c.left.node && c.left.node in cells
      ensures cells[c.left.node].red == c.left.red
      ensures cells[c.left.node].right == Root(c.left.right) && cells[c.left.node].left == Root(c.left.left)
      ensures Root(c.left.right) != null ==>
        Root(c.left.right) in cells && cells[Root(c.left.right)].red == c.left.right.red
      ensures Root(c.left.left) != null ==>
        Root(c.left.left) in cells && cells[Root(c.left.left)].red == c.left.left.red
    {
      var p := Framed(c, t);
      var d := InLeft(c.up, p.node, p.key, p.red, p.right);
      SeenUp(c, t);
      SeenFields(c.up, p);
      SeenLeft(c.up, p);
      SeenFields(d, c.left);
      SeenRight(d, c.left);
      SeenLeft(d, c.left);
    }

    /** Rotates a red left sibling up, so that the new sibling is black. */
    method RaiseSiblingLeft(parent: TreeNode, sibling: TreeNode, ghost c: Path<TreeNode>, ghost t: Shape<TreeNode>)
      requires Seen(c, t) && c.InRight? && IsRed(c.left) && parent == c.node && sibling == c.left.node
      modifies `root, `cells, cells.Keys`right, cells.Keys`left, cells.Keys`parent, cells.Keys`red
      ensures Seen(BlackSiblingLeft(c, t), t) && cells.Keys == old(cells.Keys)
    {
      ghost var p := Framed(c, t);
      SeenUp(c, t);
      SeenFields(c.up, p);
      SeenLeft(c.up, p);
      Paint(sibling, false, InLeft(c.up, p.node, p.key, p.red, p.right), p.left);
      p := p.(left := p.left.(red := false));
      SeenLeft(c.up, p);
      Paint(parent, true, c.up, p);
      p := p.(red := true);
      RotateRight(parent, c.up, p);
      ghost var q := RotatedRight(p);
      SeenRight(c.up, q);
      SeenRight(InRight(c.up, q.left, q.node, q.key, q.red), q.right);
    }

    /** Makes the far nephew red when only the near one is. */
    method TurnNearLeft(sibling: TreeNode, ghost c: Path<TreeNode>, ghost s: Shape<TreeNode>)
      requires Seen(c, s) && s.Node? && s.node == sibling && IsRed(s.right) && !IsRed(s.left)
      modifies `root, `cells, cells.Keys`right, cells.Keys`left, cells.Keys`parent, cells.Keys`red
      ensures Seen(c, FarRedLeft(s)) && cells.Keys == old(cells.Keys)
    {
      SeenFields(c, s);
      SeenRight(c, s);
      Paint(sibling.right, false, InRight(c, s.left, s.node, s.key, s.red), s.right);
      ghost var s1 := s.(right := s.right.(red := false));
      SeenRight(c, s1);
      Paint(sibling, true, c, s1);
      RotateLeft(sibling, c, s1.(red := true));
    }

    /** Lets the sibling take the place and colour of the parent, which goes over to the short side. */
    method BorrowLeft(parent: TreeNode, sibling: TreeNode, ghost c: Path<TreeNode>, ghost p: Shape<TreeNode>)
      requires Seen(c, p) && p.Node? && p.left.Node? && IsRed(p.left.left)
      requires parent == p.node && sibling == p.left.node
      modifies `root, `cells, cells.Keys`right, cells.Keys`left, cells.Keys`parent, cells.Keys`red
      ensures Seen(c, BorrowedLeft(p)) && cells.Keys == old(cells.Keys)
    {
      SeenFields(c, p);
      SeenLeft(c, p);
      ghost var d := InLeft(c, p.node, p.key, p.red, p.right);
      Paint(sibling, parent.red, d, p.left);
      ghost var s := p.left.(red := p.red);
      SeenLeft(c, p.(left := s));
      Paint(parent, false, c, p.(left := s));
      SeenLeft(c, p.(red := false, left := s));
      d := InLeft(c, p.node, p.key, false, p.right);
      SeenFields(d, s);
      SeenLeft(d, s);
      Paint(sibling.left, false, InLeft(d, s.node, s.key, s.red, s.right), s.left);
      s := s.(left := Blacken(s.left));
      SeenLeft(d, s);
      SeenLeft(c, p.(red := false, left := s));
      RotateRight(parent, c, p.(red := false, left := s));
    }

    /** Settles the shortfall against a black left sibling, or passes it on to the parent. */
    method ShareLeft(parent: TreeNode, sibling0: TreeNode, ghost d: Path<TreeNode>, ghost t: Shape<TreeNode>)
      returns (done: bool)
      requires Seen(d, t) && d.InRight? && d.left.Node? && !d.left.red && parent == d.node && sibling0 == d.left.node
      modifies `root, `cells, cells.Keys`right, cells.Keys`left, cells.Keys`parent, cells.Keys`red
      ensures done == (IsRed(d.left.right) || IsRed(d.left.left))
      ensures done ==> Seen(d.up, BorrowedLeft(Node(FarRedLeft(d.left), d.node, d.key, d.red, t)))
      ensures !done ==> Seen(d.up, Node(d.left.(red := true), d.node, d.key, d.red, t))
      ensures cells.Keys == old(cells.Keys)
    {
      SiblingFieldsLeft(d, t);
      var sibling := sibling0;
      ghost var f := InLeft(d.up, d.node, d.key, d.red, t);
      SeenUp(d, t);
      SeenLeft(d.up, Framed(d, t));
      if (sibling.right != null && sibling.right.red) || (sibling.left != null && sibling.left.red) {
        ghost var p := Node(FarRedLeft(d.left), d.node, d.key, d.red, t);
        if sibling.left == null || !sibling.left.red {
          TurnNearLeft(sibling, f, d.left);
          SeenLeft(d.up, p);
          SeenFields(d.up, p);
          sibling := parent.left;
        }
        BorrowLeft(parent, sibling, d.up, p);
        done := true;
      } else {
        Paint(sibling, true, f, d.left);
        SeenLeft(d.up, Node(d.left.(red := true), d.node, d.key, d.red, t));
        done := false;
      }
    }

    /** One round of the repair loop when the short side is a right child. */
    method FillRight(parent: TreeNode, ghost c: Path<TreeNode>, ghost t: Shape<TreeNode>) returns (done: bool)
      requires Seen(c, t) && DelInv(c, t) && c.InRight? && parent == c.node
      modifies `root, `cells, cells.Keys`right, cells.Keys`left, cells.Keys`parent, cells.Keys`red
      ensures var (e, u, d) := DelStep(c, t); Seen(e, u) && done == d && (!d ==> u.Node? && u.node == parent)
      ensures cells.Keys == old(cells.Keys)
    {
      SiblingThere(c, t);
      SiblingFieldsLeft(c, t);
      var sibling := parent.left;
      if sibling.red {
        RaiseSiblingLeft(parent, sibling, c, t);
        SiblingFieldsLeft(BlackSiblingLeft(c, t), t);
        sibling := parent.left;
      }
      done := ShareLeft(parent, sibling, BlackSiblingLeft(c, t), t);
    }

    /** The focus is the whole tree exactly when its root is the root pointer. */
    lemma SeenRoot(c: Path<TreeNode>, t: Shape<TreeNode>)
      requires Seen(c, t)
      ensures c == Top <==> Root(t) == root
    {
      if c != Top {
        PathApart(c, Nodes(t));
        PathRoot(c, Root(t), root, cells);
      }
    }

    /** The short side can be told by the left pointer, even when it is empty. */
    lemma WhichSide(c: Path<TreeNode>, t: Shape<TreeNode>)
      requires Seen(c, t) && c != Top && DelInv(c, t)
      ensures c.node in cells && (cells[c.node].left == Root(t) <==> c.InLeft?)
    {
      SiblingThere(c, t);
      SeenUp(c, t);
      SeenFields(c.up, Framed(c, t));
    }

    /** One round of the repair loop. */
    method Fill(node: TreeNode?, parent: TreeNode, ghost c: Path<TreeNode>,
      ghost t: Shape<TreeNode>) returns (done: bool)
      requires Seen(c, t) && DelInv(c, t) && c != Top && node == Root(t) && parent == Parent(c)
      modifies `root, `cells, cells.Keys`left, cells.Keys`right, cells.Keys`parent, cells.Keys`red
      ensures var (e, u, d) := DelStep(c, t);
        Seen(e, u) && done == d &&
        (!d ==> u.Node? && u.node == parent && parent.red == u.red && parent.parent == Parent(e))
      ensures cells.Keys == old(cells.Keys)
    {
      WhichSide(c, t);
      if node == parent.left {
        done := FillLeft(parent, c, t);
      } else {
        done := FillRight(parent, c, t);
      }
      ghost var next := DelStep(c, t);
      if !done { SeenFields(next.0, next.1); }
    }

    /** Blackens the focus, which completes the repair. */
    method Finish(node: TreeNode?, ghost c: Path<TreeNode>, ghost t: Shape<TreeNode>)
      requires Seen(c, t) && Repaired(c, t) && node == Root(t)
      modifies `cells, `shape, cells.Keys`red
      ensures shape == Plug(c, Blacken(t)) && Seen(Top, shape) && Balanced(shape) && !IsRed(shape)
      ensures cells.Keys == old(cells.Keys)
    {
      if node != null {
        Paint(node, false, c, t);
      }
      SeenWhole(c, Blacken(t));
      shape := Plug(c, Blacken(t));
    }

    /** The second half of tree_del: moves the shortfall up until a sibling can make up for it. */
    method RepairAfterRemove(child: TreeNode?, parent0: TreeNode?, ghost c0: Path<TreeNode>, ghost t0: Shape<TreeNode>)
      requires Seen(c0, t0) && DelInv(c0, t0) && child == Root(t0) && parent0 == Parent(c0)
      modifies `root, `cells, `shape, cells.Keys`left, cells.Keys`right, cells.Keys`parent, cells.Keys`red
      ensures Seen(Top, shape) && Balanced(shape) && !IsRed(shape) && Inorder(shape) == Inorder(Plug(c0, t0))
      ensures cells.Keys == old(cells.Keys)
    {
      var node, parent := child, parent0;
      ghost var c, t := c0, t0;
      while true
        invariant Seen(c, t) && DelInv(c, t) && node == Root(t) && parent == Parent(c)
        invariant Inorder(Plug(c, t)) == Inorder(Plug(c0, t0))
        invariant cells.Keys == old(cells.Keys)
        decreases Length(c)
      {
        SeenRoot(c, t);
        if node == root {
          break;
        }
        DelStepColours(c, t);
        DelStepOrder(c, t);
        ghost var next := DelStep(c, t);
        var done := Fill(node, parent, c, t);
        c, t := next.0, next.1;
        if done {
          SeenWhole(c, t);
          node := root;
          t, c := Plug(c, t), Top;
          break;
        }
        node := parent;
        parent := parent.parent;
        if node.red {
          break;
        }
      }
      BlackenedOrder(c, t);
      Finish(node, c, t);
    }

    /** Any node of the tree can be brought into focus. */
    lemma Focus(node: TreeNode, c: Path<TreeNode>, t: Shape<TreeNode>) returns (d: Path<TreeNode>, u: Shape<TreeNode>)
      requires Seen(c, t) && node in Nodes(t)
      ensures Seen(d, u) && u.Node? && u.node == node && Plug(d, u) == Plug(c, t)
      decreases t
    {
      if t.node == node {
        return c, t;
      }
      SeenLeft(c, t);
      SeenRight(c, t);
      if node in Nodes(t.left) {
        d, u := Focus(node, InLeft(c, t.node, t.key, t.red, t.right), t.left);
      } else {
        d, u := Focus(node, InRight(c, t.left, t.node, t.key, t.red), t.right);
      }
    }

    /** Puts the colours right after an unlinking. */
    method Settle(child: TreeNode?, parent: TreeNode?, red: bool, ghost c: Path<TreeNode>, ghost t: Shape<TreeNode>)
      requires Seen(c, t) && child == Root(t) && parent == Parent(c)
      requires if red then Balanced(Plug(c, t)) && !IsRed(Plug(c, t))
               else if IsRed(t) then Repaired(c, t) else DelInv(c, t)
      modifies `root, `cells, `shape, cells.Keys`left, cells.Keys`right, cells.Keys`parent, cells.Keys`red
      ensures Seen(Top, shape) && Balanced(shape) && !IsRed(shape) && Inorder(shape) == Inorder(Plug(c, t))
      ensures cells.Keys == old(cells.Keys)
    {
      if red {
        SeenWhole(c, t);
        shape := Plug(c, t);
        return;
      }
      if t.Node? { SeenFields(c, t); }
      if child != null && child.red {
        BlackenedOrder(c, t);
        Finish(child, c, t);
        return;
      }
      RepairAfterRemove(child, parent, c, t);
    }

    /** Takes `node` out of the tree. */
    method Del(node: TreeNode)
      requires Valid() && node in cells
      modifies `root, `cells, `shape, cells.Keys`left, cells.Keys`right, cells.Keys`parent, cells.Keys`red
      ensures Valid() && cells.Keys == old(cells.Keys) - {node}
      ensures exists i :: 0 <= i < |old(Inorder(shape))| && old(Inorder(shape))[i].0 == node &&
                          Inorder(shape) == Without(old(Inorder(shape)), i)
    {
      ghost var c, t := Focus(node, Top, shape);
      ghost var i := RemovedRoot(c, t);
      UnlinkedColours(c, t);
      ghost var next := Unlinked(c, t);
      var child, parent, red := Unlink(node, c, t);
      Settle(child, parent, red, next.0, next.1);
      assert Inorder(shape) == Without(old(Inorder(shape)), i);
    }
  }
}
