/**
 source/kernel/tools/rb_tree.c: the intrusive red-black tree with parent links and a sentinel.

 The ghost field `shape` is the tree the links form.  Mutators take, as ghost arguments, the path
 and the subtree they work at, and say what the whole tree becomes.
 */
module RbTree {
  import opened RedBlackShape
  import opened RbLinks

  class Tree {
    var root: Node
    const nil: Node
    var count: int
    ghost var shape: Shape<Node>
    ghost var nodes: set<Node>  // the nodes of `shape`

    /** The links form `shape`. */
    ghost predicate Wired()
      reads `root, `shape, `nodes, nil, nodes
    {
      && nodes == Nodes(shape) && nil !in nodes && nil.left == nil && nil.right == nil
      && Distinct(shape) && root == Root(shape, nil)
      && forall n <- nodes :: LinkOf(n) == LinkIn(shape, nil, nil, n)
    }

    /** What holds between calls. */
    ghost predicate Valid()
      reads this, nil, nodes
    {
      && Wired() && Sorted(Inorder(shape))
      && Keyed(Inorder(shape)) && count == |Inorder(shape)| && ColorOf(shape).Black?
    }

    constructor ()
      ensures Valid() && shape == Leaf && nodes == {} && fresh(nil) && nil.color.Black?
    {
      var sentinel := new Node(0);
      nil, root, count, shape, nodes := sentinel, sentinel, 0, Leaf, {};
    }

    /** What the links around a hole look like. */
    lemma View(c: Path<Node>, s: Shape<Node>)
      requires Wired() && shape == Plug(c, s)
      ensures Separate(c, s) && nodes == PathNodes(c) + Nodes(s)
      ensures if c.Top? then root == Root(s, nil) else root in PathNodes(c)
      ensures !c.Top? ==> c.entry.item in nodes && LinkOf(c.entry.item) == HolderLink(c, Root(s, nil), nil)
      ensures s.Fork? ==> && s.entry.item in nodes
                          && LinkOf(s.entry.item) ==
                            Link(Root(s.left, nil), Root(s.right, nil), Holder(c, nil), s.color)
      ensures Root(s, nil) == nil ==> s.Leaf?
    {
      DistinctPlug(c, s);
      NodesPlug(c, s);
      RootPlug(c, s, s, nil);
      if s.Fork? {
        LinkPlug(c, s, nil, s.entry.item);
      }
      if !c.Top? {
        LinkPlug(c, s, nil, c.entry.item);
      }
    }

    /** Matching links make the tree `Plug(c, s)`; `s0` is what was at the hole before. */
    lemma Rewired(c: Path<Node>, s: Shape<Node>, s0: Shape<Node>)
      requires Separate(c, s) && nodes == PathNodes(c) + Nodes(s) && shape == Plug(c, s)
      requires nil !in nodes && nil.left == nil && nil.right == nil
      requires root == if c.Top? then Root(s, nil) else Root(Plug(c, s0), nil)
      requires forall n <- nodes :: n in Nodes(shape) && LinkOf(n) == LinkIn(shape, nil, nil, n)
      ensures Wired()
    {
      DistinctPlug(c, s);
      NodesPlug(c, s);
      RootPlug(c, s, s0, nil);
    }

    /** Makes `y` the child that `x` was: the step shared by the rotations and the removal. */
    method ReplaceChild(x: Node, y: Node, ghost c: Path<Node>)
      requires nil !in nodes && x.parent == Holder(c, nil)
      requires !c.Top? ==> && c.entry.item in nodes && Root(c.sibling, nil) != x
                           && LinkOf(c.entry.item) == HolderLink(c, x, nil)
      modifies `root, nodes
      ensures root == if c.Top? then y else old(root)
      ensures forall n <- nodes :: LinkOf(n) == if !c.Top? && n == c.entry.item then HolderLink(c, y, nil)
        else old(LinkOf(n))
      ensures x !in nodes ==> LinkOf(x) == old(LinkOf(x))
    {
      if x.parent == nil {
        root := y;
      } else if x == x.parent.left {
        x.parent.left := y;
      } else {
        x.parent.right := y;
      }
    }

    // ---- rotations ----

    /** The writes of left_rotate. */
    method LeftRelink(x: Node, y: Node, ghost c: Path<Node>)
      requires nil !in nodes && x in nodes && y in nodes && x != y && x.right == y && x.parent == Holder(c, nil)
      requires x.parent != x && x.parent != y && (y.left != nil ==> y.left in nodes && y.left !in {x, y, x.parent})
      requires !c.Top? ==> && c.entry.item in nodes && Root(c.sibling, nil) != x
                           && LinkOf(c.entry.item) == HolderLink(c, x, nil)
      modifies `root, nodes
      ensures forall n <- nodes :: LinkOf(n) == LeftLink(c, x, y, old(y.left), nil, n, old(LinkOf(n)))
      ensures root == if c.Top? then y else old(root)
    {
      x.right := y.left;
      if y.left != nil {
        y.left.parent := x;
      }
      y.parent := x.parent;
      ReplaceChild(x, y, c);
      y.left := x;
      x.parent := y;
    }

    method LeftRotate(x: Node, ghost c: Path<Node>, ghost s: Shape<Node>)
      requires Wired() && shape == Plug(c, s) && x == Root(s, nil)
      modifies `root, `shape, nodes
      ensures Wired() && shape == Plug(c, RotateLeft(s)) && Inorder(shape) == old(Inorder(shape))
    {
      View(c, s);
      if x == nil {
        return;
      }
      var y := x.right;
      View(InRight(s.entry, s.color, s.left, c), s.right);
      if y == nil {
        return;
      }
      View(InLeft(s.right.entry, s.right.color, s.right.right, InRight(s.entry, s.color, s.left, c)), s.right.left);
      LeftRelink(x, y, c);
      forall n <- nodes
        ensures LinkOf(n) == LeftLink(c, x, y, Root(s.right.left, nil), nil, n, LinkIn(Plug(c, s), nil, nil, n))
      {
        assert old(LinkOf(n)) == LinkIn(Plug(c, s), nil, nil, n);
      }
      shape := Plug(c, RotateLeft(s));
      LeftRewired(c, s);
      StepInorder(c, s, Black);
    }

    lemma LeftRewired(c: Path<Node>, s: Shape<Node>)
      requires s.Fork? && s.right.Fork? && Separate(c, s) && shape == Plug(c, RotateLeft(s))
      requires nodes == PathNodes(c) + Nodes(s) && nil !in nodes && nil.left == nil && nil.right == nil
      requires Nodes(Plug(c, s)) == nodes
      requires forall n <- nodes ::
        LinkOf(n) == LeftLink(c, s.entry.item, s.right.entry.item, Root(s.right.left, nil), nil, n,
                           LinkIn(Plug(c, s), nil, nil, n))
      requires root == if c.Top? then s.right.entry.item else Root(Plug(c, s), nil)
      ensures Wired()
    {
      LeftBelow(s, nil, nil, s.entry.item);
      forall n <- nodes ensures n in Nodes(shape) && LinkOf(n) == LinkIn(shape, nil, nil, n) {
        LeftLinks(c, s, nil, n);
      }
      Rewired(c, RotateLeft(s), s);
    }

    /** The writes of right_rotate. */
    method RightRelink(y: Node, x: Node, ghost c: Path<Node>)
      requires nil !in nodes && x in nodes && y in nodes && x != y && y.left == x && y.parent == Holder(c, nil)
      requires y.parent != x && y.parent != y && (x.right != nil ==> x.right in nodes && x.right !in {x, y, y.parent})
      requires !c.Top? ==> && c.entry.item in nodes && Root(c.sibling, nil) != y
                           && LinkOf(c.entry.item) == HolderLink(c, y, nil)
      modifies `root, nodes
      ensures forall n <- nodes :: LinkOf(n) == RightLink(c, y, x, old(x.right), nil, n, old(LinkOf(n)))
      ensures root == if c.Top? then x else old(root)
    {
      y.left := x.right;
      if x.right != nil {
        x.right.parent := y;
      }
      x.parent := y.parent;
      ReplaceChild(y, x, c);
      x.right := y;
      y.parent := x;
    }

    method RightRotate(y: Node, ghost c: Path<Node>, ghost s: Shape<Node>)
      requires Wired() && shape == Plug(c, s) && y == Root(s, nil)
      modifies `root, `shape, nodes
      ensures Wired() && shape == Plug(c, RotateRight(s)) && Inorder(shape) == old(Inorder(shape))
    {
      View(c, s);
      if y == nil {
        return;
      }
      var x := y.left;
      View(InLeft(s.entry, s.color, s.right, c), s.left);
      if x == nil {
        return;
      }
      View(InRight(s.left.entry, s.left.color, s.left.left, InLeft(s.entry, s.color, s.right, c)), s.left.right);
      RightRelink(y, x, c);
      forall n <- nodes
        ensures LinkOf(n) == RightLink(c, y, x, Root(s.left.right, nil), nil, n, LinkIn(Plug(c, s), nil, nil, n))
      {
        assert old(LinkOf(n)) == LinkIn(Plug(c, s), nil, nil, n);
      }
      shape := Plug(c, RotateRight(s));
      RightRewired(c, s);
      StepInorder(c, s, Black);
    }

    lemma RightRewired(c: Path<Node>, s: Shape<Node>)
      requires s.Fork? && s.left.Fork? && Separate(c, s) && shape == Plug(c, RotateRight(s))
      requires nodes == PathNodes(c) + Nodes(s) && nil !in nodes && nil.left == nil && nil.right == nil
      requires Nodes(Plug(c, s)) == nodes
      requires forall n <- nodes ::
        LinkOf(n) == RightLink(c, s.entry.item, s.left.entry.item, Root(s.left.right, nil), nil, n,
                           LinkIn(Plug(c, s), nil, nil, n))
      requires root == if c.Top? then s.left.entry.item else Root(Plug(c, s), nil)
      ensures Wired()
    {
      RightBelow(s, nil, nil, s.entry.item);
      forall n <- nodes ensures n in Nodes(shape) && LinkOf(n) == LinkIn(shape, nil, nil, n) {
        RightLinks(c, s, nil, n);
      }
      Rewired(c, RotateRight(s), s);
    }

    /** A colour write; the sentinel may be painted too. */
    method Paint(n: Node, col: Color, ghost c: Path<Node>, ghost s: Shape<Node>)
      requires Wired() && shape == Plug(c, s) && n == Root(s, nil)
      modifies `shape, n`color
      ensures Wired() && shape == Plug(c, RedBlackShape.Paint(s, col)) && n.color == col
      ensures Inorder(shape) == old(Inorder(shape))
    {
      StepInorder(c, s, col);
      View(c, s);
      n.color := col;
      if s.Fork? {
        shape := Plug(c, RedBlackShape.Paint(s, col));
        forall m <- nodes ensures m in Nodes(shape) && LinkOf(m) == LinkIn(shape, nil, nil, m) {
          PaintLinks(c, s, col, nil, m);
        }
        PaintLinks(c, s, col, nil, n);
        RootPlug(c, s, s, nil);
        Rewired(c, RedBlackShape.Paint(s, col), s);
      }
    }

    /** Paints the node above the hole. */
    method PaintHolder(n: Node, col: Color, ghost c: Path<Node>, ghost s: Shape<Node>)
      requires Wired() && shape == Plug(c, s) && !c.Top? && n == Holder(c, nil)
      modifies `shape, n`color
      ensures Wired() && shape == Plug(Tint(c, col), s) && Inorder(shape) == old(Inorder(shape))
      ensures n in nodes && n.color == col && nil.color == old(nil.color)
    {
      View(c, s);
      Paint(n, col, c.up, Rise(c, s));
    }

    /** Paints the sibling of the hole, or the sentinel in its place. */
    method PaintSibling(n: Node, col: Color, ghost c: Path<Node>, ghost s: Shape<Node>)
      requires Wired() && shape == Plug(c, s) && !c.Top? && n == Root(c.sibling, nil)
      modifies `shape, n`color
      ensures Wired() && shape == Plug(Beside(c, RedBlackShape.Paint(c.sibling, col)), s)
      ensures Inorder(shape) == old(Inorder(shape)) && n.color == col
      ensures nil.color == if n == nil then col else old(nil.color)
    {
      Paint(n, col, Across(c, s), c.sibling);
    }

    // ---- insertion ----

    /** Case 1: parent and uncle turn black, the grandparent red. */
    method RecolorUp(z: Node, y: Node, ghost c: Path<Node>, ghost s: Shape<Node>)
      requires Wired() && shape == Plug(c, s) && s.Fork? && z == Root(s, nil)
      requires !c.Top? && !c.up.Top? && y == Root(c.up.sibling, nil)
      modifies `shape, nodes`color, nil`color
      ensures Wired() && shape == Plug(c.up.up, Recolored(c, s)) && Inorder(shape) == old(Inorder(shape))
      ensures nil.color.Red? ==> old(nil.color.Red?)
    {
      View(c, s);
      View(c.up, Rise(c, s));
      var p, g := z.parent, z.parent.parent;
      ghost var p1 := Rise(Tint(c, Black), s);
      PaintHolder(p, Black, c, s);
      View(Across(c.up, p1), c.up.sibling);
      PaintSibling(y, Black, c.up, p1);
      PaintHolder(g, Red, Beside(c.up, RedBlackShape.Paint(c.up.sibling, Black)), p1);
    }

    /** Case 3 under a left-hand parent. */
    method LiftRight(z: Node, ghost c: Path<Node>, ghost s: Shape<Node>)
      requires Wired() && shape == Plug(c, s) && s.Fork? && z == Root(s, nil)
      requires c.InLeft? && c.up.InLeft?
      modifies `root, `shape, nodes
      ensures Wired() && shape == Plug(Outer(c), s) && Inorder(shape) == old(Inorder(shape))
    {
      View(c, s);
      View(c.up, Rise(c, s));
      PaintHolder(z.parent, Black, c, s);
      PaintHolder(z.parent.parent, Red, c.up, Rise(Tint(c, Black), s));
      RightRotate(z.parent.parent, c.up.up, Rise(Tint(c.up, Red), Rise(Tint(c, Black), s)));
    }

    method LiftLeft(z: Node, ghost c: Path<Node>, ghost s: Shape<Node>)
      requires Wired() && shape == Plug(c, s) && s.Fork? && z == Root(s, nil)
      requires c.InRight? && c.up.InRight?
      modifies `root, `shape, nodes
      ensures Wired() && shape == Plug(Outer(c), s) && Inorder(shape) == old(Inorder(shape))
    {
      View(c, s);
      View(c.up, Rise(c, s));
      PaintHolder(z.parent, Black, c, s);
      PaintHolder(z.parent.parent, Red, c.up, Rise(Tint(c, Black), s));
      LeftRotate(z.parent.parent, c.up.up, Rise(Tint(c.up, Red), Rise(Tint(c, Black), s)));
    }

    /** Cases 2 and 3 under a left-hand parent. */
    method RaiseRight(z0: Node, ghost c0: Path<Node>, ghost s0: Shape<Node>, ghost bal: bool)
      returns (z: Node, ghost c: Path<Node>, ghost s: Shape<Node>)
      requires Wired() && shape == Plug(c0, s0) && s0.Fork? && s0.color.Red? && z0 == Root(s0, nil)
      requires RedParent(c0) && c0.up.InLeft?
      requires bal ==> RedChild(c0, s0) && ColorOf(c0.up.sibling).Black?
      modifies `root, `shape, nodes
      ensures Wired() && shape == Plug(c, s) && s.Fork? && s.color.Red? && z == Root(s, nil)
      ensures !c.Top? && c.color == Black && c.up == c0.up.up
      ensures bal ==> RedChild(c, s)
      ensures Inorder(shape) == old(Inorder(shape))
    {
      z, c, s := z0, c0, s0;
      View(c, s);
      if z == z.parent.right {
        if bal {
          InnerFits(c, s);
        }
        View(c.up, Rise(c, s));
        z := z.parent;
        LeftRotate(z, c.up, Rise(c, s));
        c, s := InnerPath(c, s), InnerShape(c, s);
      }
      if bal {
        OuterFits(c, s);
      }
      LiftRight(z, c, s);
      c := Outer(c);
    }

    /** One round of the fix-up loop whose parent is a left child. */
    method RoundLeft(z0: Node, ghost c0: Path<Node>, ghost s0: Shape<Node>, ghost bal: bool)
      returns (z: Node, ghost c: Path<Node>, ghost s: Shape<Node>)
      requires Wired() && shape == Plug(c0, s0) && s0.Fork? && s0.color.Red? && z0 == Root(s0, nil)
      requires RedParent(c0) && c0.up.InLeft?
      requires bal ==> RedChild(c0, s0) && nil.color.Black?
      modifies `root, `shape, nodes, nil`color
      ensures Wired() && shape == Plug(c, s) && s.Fork? && s.color.Red? && z == Root(s, nil)
      ensures RoundEnds(c0, c)
      ensures bal ==> RedChild(c, s) && nil.color.Black?
      ensures Inorder(shape) == old(Inorder(shape))
    {
      View(c0, s0);
      View(c0.up, Rise(c0, s0));
      var y := z0.parent.parent.right;
      View(InRight(c0.up.entry, c0.up.color, Rise(c0, s0), c0.up.up), c0.up.sibling);
      if y.color.Red? {
        if bal {
          RecoloredFits(c0, s0);
        }
        RecolorUp(z0, y, c0, s0);
        z, s, c := z0.parent.parent, Recolored(c0, s0), c0.up.up;
      } else {
        z, c, s := RaiseRight(z0, c0, s0, bal);
      }
    }

    /** Cases 2 and 3 under a right-hand parent. */
    method RaiseLeft(z0: Node, ghost c0: Path<Node>, ghost s0: Shape<Node>, ghost bal: bool)
      returns (z: Node, ghost c: Path<Node>, ghost s: Shape<Node>)
      requires Wired() && shape == Plug(c0, s0) && s0.Fork? && s0.color.Red? && z0 == Root(s0, nil)
      requires RedParent(c0) && c0.up.InRight?
      requires bal ==> RedChild(c0, s0) && ColorOf(c0.up.sibling).Black?
      modifies `root, `shape, nodes
      ensures Wired() && shape == Plug(c, s) && s.Fork? && s.color.Red? && z == Root(s, nil)
      ensures !c.Top? && c.color == Black && c.up == c0.up.up
      ensures bal ==> RedChild(c, s)
      ensures Inorder(shape) == old(Inorder(shape))
    {
      z, c, s := z0, c0, s0;
      View(c, s);
      if z == z.parent.left {
        if bal {
          InnerFits(c, s);
        }
        View(c.up, Rise(c, s));
        z := z.parent;
        RightRotate(z, c.up, Rise(c, s));
        c, s := InnerPath(c, s), InnerShape(c, s);
      }
      if bal {
        OuterFits(c, s);
      }
      LiftLeft(z, c, s);
      c := Outer(c);
    }

    /** One round of the fix-up loop whose parent is a right child. */
    method RoundRight(z0: Node, ghost c0: Path<Node>, ghost s0: Shape<Node>, ghost bal: bool)
      returns (z: Node, ghost c: Path<Node>, ghost s: Shape<Node>)
      requires Wired() && shape == Plug(c0, s0) && s0.Fork? && s0.color.Red? && z0 == Root(s0, nil)
      requires RedParent(c0) && c0.up.InRight?
      requires bal ==> RedChild(c0, s0) && nil.color.Black?
      modifies `root, `shape, nodes, nil`color
      ensures Wired() && shape == Plug(c, s) && s.Fork? && s.color.Red? && z == Root(s, nil)
      ensures RoundEnds(c0, c)
      ensures bal ==> RedChild(c, s) && nil.color.Black?
      ensures Inorder(shape) == old(Inorder(shape))
    {
      View(c0, s0);
      View(c0.up, Rise(c0, s0));
      var y := z0.parent.parent.left;
      View(InLeft(c0.up.entry, c0.up.color, Rise(c0, s0), c0.up.up), c0.up.sibling);
      if y.color.Red? {
        if bal {
          RecoloredFits(c0, s0);
        }
        RecolorUp(z0, y, c0, s0);
        z, s, c := z0.parent.parent, Recolored(c0, s0), c0.up.up;
      } else {
        z, c, s := RaiseLeft(z0, c0, s0, bal);
      }
    }

    /** One round of the fix-up loop. */
    method Round(z0: Node, ghost c0: Path<Node>, ghost s0: Shape<Node>, ghost bal: bool)
      returns (z: Node, ghost c: Path<Node>, ghost s: Shape<Node>)
      requires Wired() && shape == Plug(c0, s0) && s0.Fork? && s0.color.Red? && z0 == Root(s0, nil)
      requires RedParent(c0) && ColorOf(shape).Black?
      requires bal ==> RedChild(c0, s0) && nil.color.Black?
      modifies `root, `shape, nodes, nil`color
      ensures Wired() && shape == Plug(c, s) && s.Fork? && s.color.Red? && z == Root(s, nil)
      ensures FixupMeasure(c) < FixupMeasure(c0) && (c.Top? || ColorOf(shape).Black?)
      ensures RedParent(c) <==> z.parent != nil && z.parent.color == Red
      ensures bal ==> RedChild(c, s) && nil.color.Black?
      ensures Inorder(shape) == old(Inorder(shape))
    {
      View(c0, s0);
      RootColor(c0, s0, s0);
      View(c0.up, Rise(c0, s0));
      if z0.parent == z0.parent.parent.left {
        z, c, s := RoundLeft(z0, c0, s0, bal);
      } else {
        z, c, s := RoundRight(z0, c0, s0, bal);
      }
      RoundRootColor(c0, s0, c, s);
      View(c, s);
    }

    /** rb_insert_fixup */
    method InsertFixup(z0: Node, ghost c0: Path<Node>, ghost s0: Shape<Node>)
      requires Wired() && shape == Plug(c0, s0) && s0.Fork? && s0.color.Red? && z0 == Root(s0, nil)
      requires c0.Top? || ColorOf(shape).Black?
      modifies `root, `shape, nodes, nil`color
      ensures Wired() && Inorder(shape) == old(Inorder(shape)) && ColorOf(shape).Black?
      ensures RedChild(c0, s0) && old(nil.color.Black?) ==> RedBlack(shape) && nil.color.Black?
    {
      var z := z0;
      ghost var c, s, bal := c0, s0, RedChild(c0, s0) && nil.color.Black?;
      View(c, s);
      while z.parent != nil && z.parent.color == Red
        invariant Wired() && shape == Plug(c, s) && s.Fork? && s.color.Red? && z == Root(s, nil)
        invariant c.Top? || ColorOf(shape).Black?
        invariant Inorder(shape) == old(Inorder(shape))
        invariant bal ==> RedChild(c, s) && nil.color.Black?
        invariant RedParent(c) <==> z.parent != nil && z.parent.color == Red
        decreases FixupMeasure(c)
      {
        z, c, s := Round(z, c, s, bal);
      }
      BlackenRoot(c, s, bal);
    }

    method BlackenRoot(ghost c: Path<Node>, ghost s: Shape<Node>, ghost bal: bool)
      requires Wired() && shape == Plug(c, s) && (bal ==> RedChild(c, s) && !RedParent(c))
      modifies `shape, nodes, nil`color
      ensures Wired() && Inorder(shape) == old(Inorder(shape)) && ColorOf(shape).Black?
      ensures (bal ==> RedBlack(shape)) && (nil.color.Red? ==> old(nil.color.Red?))
    {
      if bal {
        FixupDone(c, s);
      }
      View(Top, shape);
      Paint(root, Black, Top, shape);
    }

    /** Hangs the new red node `z` into the empty place below `y`. */
    method Attach(z: Node, y: Node, ghost c: Path<Node>)
      requires Wired() && shape == Plug(c, Leaf) && y == Holder(c, nil) && z !in nodes && z != nil
      requires !c.Top? ==> (c.InLeft? <==> z.key < y.key)
      modifies `root, `shape, `nodes, nodes, z
      ensures Wired() && shape == Plug(c, Fork(Leaf, Entry(z.key, z), Red, Leaf)) && nodes == old(nodes) + {z}
    {
      View(c, Leaf);
      z.parent := y;
      if y == nil {
        root := z;
      } else if z.key < y.key {
        y.left := z;
      } else {
        y.right := z;
      }
      z.left := nil;
      z.right := nil;
      z.color := Red;
      ghost var e := Entry(z.key, z);
      nodes := nodes + {z};
      shape := Plug(c, Fork(Leaf, e, Red, Leaf));
      forall n <- nodes ensures n in Nodes(shape) && LinkOf(n) == LinkIn(shape, nil, nil, n) {
        AttachLinks(c, e, nil, n);
      }
      RootPlug(c, Leaf, Leaf, nil);
      Rewired(c, Fork(Leaf, e, Red, Leaf), Leaf);
    }

    /** The descent of rb_tree_insert: the empty place for `key`, and the node above it. */
    method FindPlace(key: int) returns (y: Node, ghost c: Path<Node>)
      requires Valid()
      ensures shape == Plug(c, Leaf) && y == Holder(c, nil) && Splits(c, key)
      ensures !c.Top? ==> (c.InLeft? <==> key < y.key)
    {
      y, c := nil, Top;
      var x := root;
      ghost var s := shape;
      while x != nil
        invariant shape == Plug(c, s) && x == Root(s, nil) && y == Holder(c, nil) && Splits(c, key)
        invariant !c.Top? ==> (c.InLeft? <==> key < y.key)
        decreases s
      {
        View(c, s);
        KeyAtHole(c, s);
        y := x;
        if key < x.key {
          StepLeft(c, s, key);
          x := x.left;
          c, s := InLeft(s.entry, s.color, s.right, c), s.left;
        } else {
          StepRight(c, s, key);
          x := x.right;
          c, s := InRight(s.entry, s.color, s.left, c), s.right;
        }
      }
      View(c, s);
    }

    lemma KeyAtHole(c: Path<Node>, s: Shape<Node>)
      requires Valid() && shape == Plug(c, s) && s.Fork?
      ensures s.entry.key == s.entry.item.key
    {
      InorderPlug(c, s);
      assert Inorder(shape)[|Before(c)| + |Inorder(s.left)|] == s.entry;
    }

    method AddCount(d: int)
      requires Wired() && Sorted(Inorder(shape)) && Keyed(Inorder(shape)) && ColorOf(shape).Black?
      requires count + d == |Inorder(shape)|
      modifies `count
      ensures Valid()
    {
      count := count + d;
    }

    /** Hangs `z` into its place and restores the colours. */
    method Grow(z: Node, y: Node, ghost c: Path<Node>)
      requires Wired() && shape == Plug(c, Leaf) && y == Holder(c, nil) && z !in nodes && z != nil
      requires !c.Top? ==> (c.InLeft? <==> z.key < y.key)
      requires ColorOf(shape).Black?
      modifies `root, `shape, `nodes, nodes, z, nil`color
      ensures Wired() && nodes == old(nodes) + {z} && ColorOf(shape).Black?
      ensures Inorder(shape) == Before(c) + [Entry(z.key, z)] + After(c)
      ensures old(RedBlack(shape) && nil.color.Black?) ==> RedBlack(shape) && nil.color.Black?
    {
      hide Wired, Balanced, RedChild;
      ghost var leaf := Fork(Leaf, Entry(z.key, z), Red, Leaf);
      AttachedFits(c, leaf.entry);
      InorderPlug(c, leaf);
      Attach(z, y, c);
      InsertFixup(z, c, leaf);
    }

    lemma GrownOrder(c: Path<Node>, e: Entry<Node>)
      requires Valid() && shape == Plug(c, Leaf) && Splits(c, e.key) && e.key == e.item.key
      ensures var now := Before(c) + [e] + After(c);
              Sorted(now) && Keyed(now) && |now| == count + 1
    {
      AttachedInorder(c, e);
      KeyedInsert(Before(c), e, After(c));
    }

    /** rb_tree_insert once the place is found. */
    method InsertAt(z: Node, y: Node, ghost c: Path<Node>)
      requires Valid() && z !in nodes && z != nil
      requires shape == Plug(c, Leaf) && y == Holder(c, nil) && Splits(c, z.key)
      requires !c.Top? ==> (c.InLeft? <==> z.key < y.key)
      modifies this, nodes, z, nil`color
      ensures Valid() && nodes == old(nodes) + {z}
      ensures Inorder(shape) == Before(c) + [Entry(z.key, z)] + After(c)
      ensures old(RedBlack(shape) && nil.color.Black?) ==> RedBlack(shape) && nil.color.Black?
    {
      GrownOrder(c, Entry(z.key, z));
      Grow(z, y, c);
      AddCount(1);
    }

    /** rb_tree_insert: the new node goes behind all nodes of the same key. */
    method Insert(z: Node) returns (ghost i: nat)
      requires Valid() && z !in nodes && z != nil
      modifies this, nodes, z, nil`color
      ensures Valid() && nodes == old(nodes) + {z}
      ensures i <= |old(Inorder(shape))|
      ensures Inorder(shape) == old(Inorder(shape))[..i] + [Entry(z.key, z)] + old(Inorder(shape))[i..]
      ensures forall k :: 0 <= k < i ==> old(Inorder(shape))[k].key <= z.key
      ensures forall k :: i <= k < |old(Inorder(shape))| ==> z.key < old(Inorder(shape))[k].key
      ensures old(RedBlack(shape) && nil.color.Black?) ==> RedBlack(shape) && nil.color.Black?
    {
      var y;
      ghost var c;
      y, c := FindPlace(z.key);
      i := |Before(c)|;
      ghost var a, b := Before(c), After(c);
      AttachedInorder(c, Entry(z.key, z));
      assert (a + b)[..i] == a && (a + b)[i..] == b;
      assert forall k :: 0 <= k < i ==> (a + b)[k] in a;
      assert forall k :: i <= k < |a + b| ==> (a + b)[k] in b;
      InsertAt(z, y, c);
    }

    // ---- searches ----

    /** rb_tree_find_by: a node of the key, if there is one. */
    method FindBy(key: int) returns (r: Node)
      requires Valid()
      ensures r == nil ==> forall e <- Inorder(shape) :: e.key != key
      ensures r != nil ==> r in nodes && r.key == key
    {
      var x := root;
      ghost var c, s := Path<Node>.Top, shape;
      while x != nil
        invariant shape == Plug(c, s) && x == Root(s, nil) && Splits(c, key) && Splits(c, key - 1)
        decreases s
      {
        View(c, s);
        KeyAtHole(c, s);
        if key == x.key {
          return x;
        } else if key < x.key {
          StepLeft(c, s, key);
          StepLeft(c, s, key - 1);
          x := x.left;
          c, s := InLeft(s.entry, s.color, s.right, c), s.left;
        } else {
          StepRight(c, s, key);
          StepRight(c, s, key - 1);
          x := x.right;
          c, s := InRight(s.entry, s.color, s.left, c), s.right;
        }
      }
      View(c, s);
      InorderPlug(c, s);
      return nil;
    }

    /** rb_tree_find_first_greater_or_equal: the first node in order that is not below the key. */
    method FindFirstGreaterOrEqual(key: int) returns (r: Node, ghost i: nat)
      requires Valid()
      ensures i <= |Inorder(shape)| && r == if i < |Inorder(shape)| then Inorder(shape)[i].item else nil
      ensures forall k :: 0 <= k < i ==> Inorder(shape)[k].key < key
      ensures forall k :: i <= k < |Inorder(shape)| ==> key <= Inorder(shape)[k].key
    {
      var x := root;
      r := nil;
      ghost var c, s := Path<Node>.Top, shape;
      while x != nil
        invariant shape == Plug(c, s) && x == Root(s, nil) && Splits(c, key - 1)
        invariant r == if After(c) == [] then nil else After(c)[0].item
        decreases s
      {
        View(c, s);
        KeyAtHole(c, s);
        if key <= x.key {
          StepLeft(c, s, key - 1);
          r := x;
          x := x.left;
          c, s := InLeft(s.entry, s.color, s.right, c), s.left;
        } else {
          StepRight(c, s, key - 1);
          x := x.right;
          c, s := InRight(s.entry, s.color, s.left, c), s.right;
        }
      }
      View(c, s);
      InorderPlug(c, s);
      i := |Before(c)|;
      HoleSplits(c, key - 1);
    }

    /** rb_tree_find_first_less_or_equal: the last node in order that is not above the key. */
    method FindFirstLessOrEqual(key: int) returns (r: Node, ghost i: nat)
      requires Valid()
      ensures i <= |Inorder(shape)| && r == if 0 < i then Inorder(shape)[i - 1].item else nil
      ensures forall k :: 0 <= k < i ==> Inorder(shape)[k].key <= key
      ensures forall k :: i <= k < |Inorder(shape)| ==> key < Inorder(shape)[k].key
    {
      var x := root;
      r := nil;
      ghost var c, s := Path<Node>.Top, shape;
      while x != nil
        invariant shape == Plug(c, s) && x == Root(s, nil) && Splits(c, key)
        invariant r == LastItem(Before(c), nil)
        decreases s
      {
        View(c, s);
        KeyAtHole(c, s);
        if key >= x.key {
          StepRight(c, s, key);
          r := x;
          x := x.right;
          LastBefore(c, s, nil);
          c, s := InRight(s.entry, s.color, s.left, c), s.right;
        } else {
          StepLeft(c, s, key);
          x := x.left;
          c, s := InLeft(s.entry, s.color, s.right, c), s.left;
        }
      }
      View(c, s);
      InorderPlug(c, s);
      i := |Before(c)|;
      HoleSplits(c, key);
    }

    // ---- removal ----

    /** Takes `z`, which has at most the child `x`, out of the tree. */
    method Splice(z: Node, x: Node, ghost c: Path<Node>, ghost s: Shape<Node>)
      requires Wired() && shape == Plug(c, s) && s.Fork? && (s.left.Leaf? || s.right.Leaf?)
      requires z == Root(s, nil) && x == Root(Only(s), nil)
      modifies `root, `shape, `nodes, nodes, nil`parent
      ensures Wired() && shape == Plug(c, Only(s)) && nodes == old(nodes) - {z}
      ensures LinkOf(z) == old(LinkOf(z))
    {
      View(c, s);
      SpliceRelink(z, x, c);
      nodes := nodes - {z};
      shape := Plug(c, Only(s));
      SplicedWired(c, s);
    }

    /** The writes of Splice. */
    method SpliceRelink(z: Node, x: Node, ghost c: Path<Node>)
      requires nil !in nodes && z in nodes && z != x && (x == nil || x in nodes) && z.parent == Holder(c, nil)
      requires !c.Top? ==> && c.entry.item in nodes && Root(c.sibling, nil) != z && c.entry.item !in {x, z}
                           && LinkOf(c.entry.item) == HolderLink(c, z, nil)
      modifies `root, nodes, nil`parent
      ensures root == if c.Top? then x else old(root)
      ensures forall n <- nodes :: LinkOf(n) == SpliceLink(c, x, nil, n, old(LinkOf(n)))
    {
      ReplaceChild(z, x, c);
      x.parent := z.parent;
    }

    lemma SplicedWired(c: Path<Node>, s: Shape<Node>)
      requires s.Fork? && (s.left.Leaf? || s.right.Leaf?) && Separate(c, s) && shape == Plug(c, Only(s))
      requires nodes == PathNodes(c) + Nodes(s) - {s.entry.item}
      requires nil !in PathNodes(c) + Nodes(s) && nil.left == nil && nil.right == nil
      requires Nodes(Plug(c, s)) == PathNodes(c) + Nodes(s)
      requires forall n <- nodes ::
        LinkOf(n) == SpliceLink(c, Root(Only(s), nil), nil, n, LinkIn(Plug(c, s), nil, nil, n))
      requires root == if c.Top? then Root(Only(s), nil) else Root(Plug(c, s), nil)
      ensures Wired()
    {
      forall n <- nodes ensures n in Nodes(shape) && LinkOf(n) == LinkIn(shape, nil, nil, n) {
        SpliceLinks(c, s, nil, n);
      }
      OnlyNodes(s);
      Rewired(c, Only(s), s);
    }

    /** The children of a node that has two. */
    lemma ViewKids(c: Path<Node>, s: Shape<Node>)
      requires Wired() && shape == Plug(c, s) && s.Fork? && s.left.Fork? && s.right.Fork?
      ensures var z, l, r := s.entry.item, s.left.entry.item, s.right.entry.item;
              && l in nodes && r in nodes && l != z && r != z && l != r
              && (!c.Top? ==> c.entry.item !in {z, l, r} && Root(c.sibling, nil) != z)
              && r.right == Root(s.right.right, nil)
    {
      View(c, s);
      View(InLeft(s.entry, s.color, s.right, c), s.left);
      View(InRight(s.entry, s.color, s.left, c), s.right);
    }

    lemma ViewGrandKid(c: Path<Node>, s: Shape<Node>)
      requires Wired() && shape == Plug(c, s) && s.Fork? && s.left.Fork? && s.right.Fork?
      ensures var x := Root(s.right.right, nil);
              && (x == nil || x in nodes) && x != s.entry.item && x != s.left.entry.item && x != s.right.entry.item
              && (!c.Top? ==> c.entry.item != x)
    {
      ViewKids(c, s);
      View(c, s);
      View(InRight(s.entry, s.color, s.left, c), s.right);
      View(InRight(s.right.entry, s.right.color, s.right.left, InRight(s.entry, s.color, s.left, c)), s.right.right);
    }

    /** Puts the spliced-out node `y` where `z` is. */
    method SwapIn(z: Node, y: Node, ghost c: Path<Node>, ghost s: Shape<Node>)
      requires Wired() && shape == Plug(c, s) && s.Fork? && s.left.Fork? && s.right.Fork?
      requires z == Root(s, nil) && y !in nodes && y != nil
      modifies `root, `shape, `nodes, nodes, y
      ensures Wired() && shape == Plug(c, s.(entry := Entry(y.key, y))) && nodes == old(nodes) - {z} + {y}
    {
      hide LinkIn, SwapLink, Plug, PathNodes, Distinct, Nodes;
      ghost var e := Entry(y.key, y);
      View(c, s);
      ViewKids(c, s);
      ghost var was, zl := nodes, Link(Root(s.left, nil), Root(s.right, nil), Holder(c, nil), s.color);
      SwapRelink(z, y, c);
      forall n | n in was && n != z ensures LinkOf(n) == SwapLink(c, zl, y, nil, n, LinkIn(Plug(c, s), nil, nil, n)) {
        assert old(LinkOf(n)) == LinkIn(Plug(c, s), nil, nil, n);
      }
      nodes := was - {z} + {y};
      shape := Plug(c, s.(entry := e));
      SwappedWired(c, s, e, was);
    }

    /** The writes of SwapIn. */
    method SwapRelink(z: Node, y: Node, ghost c: Path<Node>)
      requires nil !in nodes && z in nodes && y !in nodes && y != nil && z.parent == Holder(c, nil)
      requires z.left in nodes && z.right in nodes && z.left != z && z.right != z && z.left != z.right
      requires !c.Top? ==> c.entry.item in nodes && Root(c.sibling, nil) != z && c.entry.item !in {z, z.left, z.right}
      requires !c.Top? ==> LinkOf(c.entry.item) == HolderLink(c, z, nil)
      modifies `root, nodes, y
      ensures root == if c.Top? then y else old(root)
      ensures LinkOf(y) == old(LinkOf(z))
      ensures forall n <- nodes :: n != z ==> LinkOf(n) == SwapLink(c, old(LinkOf(z)), y, nil, n, old(LinkOf(n)))
    {
      y.right := z.right;
      y.right.parent := y;
      ReplaceChild(z, y, c);
      y.parent := z.parent;
      y.left := z.left;
      y.left.parent := y;
      y.color := z.color;
    }

    lemma SwappedWired(c: Path<Node>, s: Shape<Node>, e: Entry<Node>, was: set<Node>)
      requires s.Fork? && Separate(c, s) && shape == Plug(c, s.(entry := e))
      requires was == PathNodes(c) + Nodes(s) == Nodes(Plug(c, s)) && e.item !in was && e.item != nil
      requires nodes == was - {s.entry.item} + {e.item}
      requires nil !in was && nil.left == nil && nil.right == nil
      requires var z := Link(Root(s.left, nil), Root(s.right, nil), Holder(c, nil), s.color);
               && LinkOf(e.item) == z
               && forall n <- nodes :: n != e.item ==>
                 LinkOf(n) == SwapLink(c, z, e.item, nil, n, LinkIn(Plug(c, s), nil, nil, n))
      requires root == if c.Top? then e.item else Root(Plug(c, s), nil)
      ensures Wired()
    {
      forall n <- nodes ensures n in Nodes(shape) && LinkOf(n) == LinkIn(shape, nil, nil, n) {
        SwapLinks(c, s, e, nil, n);
      }
      SwapLinks(c, s, e, nil, e.item);
      Rewired(c, s.(entry := e), s);
    }

    /** Puts `y`, the right child of `z`, where `z` is; `x` is the right child of `y`, which has no left one. */
    method SwapInChild(z: Node, y: Node, x: Node, ghost c: Path<Node>, ghost s: Shape<Node>)
      requires Wired() && shape == Plug(c, s) && s.Fork? && s.left.Fork? && s.right.Fork? && s.right.left.Leaf?
      requires z == Root(s, nil) && y == Root(s.right, nil) && x == Root(s.right.right, nil)
      modifies `root, `shape, `nodes, nodes, nil`parent
      ensures Wired() && shape == Plug(c, Adjacent(s)) && nodes == old(nodes) - {z}
    {
      hide Plug, Nodes, Distinct;
      View(c, s);
      ViewKids(c, s);
      ViewGrandKid(c, s);
      ghost var was, zl := nodes, Link(Root(s.left, nil), s.right.entry.item, Holder(c, nil), s.color);
      SwapChildRelink(z, y, x, c);
      forall n | n in was && n != z
        ensures LinkOf(n) == AdjacentLink(c, zl, y, x, nil, n, LinkIn(Plug(c, s), nil, nil, n))
      {
        assert old(LinkOf(n)) == LinkIn(Plug(c, s), nil, nil, n);
      }
      nodes := was - {z};
      shape := Plug(c, Adjacent(s));
      AdjacentWired(c, s, was);
    }

    /** The writes of SwapInChild. */
    method SwapChildRelink(z: Node, y: Node, x: Node, ghost c: Path<Node>)
      requires nil !in nodes && z in nodes && y in nodes && z != y && (x == nil || x in nodes) && x != y && x != z
      requires z.left in nodes && z.left !in {z, y, x} && z.parent == Holder(c, nil) && y.right == x
      requires !c.Top? ==> && c.entry.item in nodes && Root(c.sibling, nil) != z && c.entry.item !in {z, y, x, z.left}
                           && LinkOf(c.entry.item) == HolderLink(c, z, nil)
      modifies `root, nodes, nil`parent
      ensures root == if c.Top? then y else old(root)
      ensures forall n <- nodes :: n != z ==> LinkOf(n) == AdjacentLink(c, old(LinkOf(z)), y, x, nil, n, old(LinkOf(n)))
    {
      hide Root, Holder;
      x.parent := y;
      ReplaceChild(z, y, c);
      y.parent := z.parent;
      y.left := z.left;
      y.left.parent := y;
      y.color := z.color;
    }

    lemma AdjacentWired(c: Path<Node>, s: Shape<Node>, was: set<Node>)
      requires s.Fork? && s.right.Fork? && s.right.left.Leaf? && Separate(c, s) && shape == Plug(c, Adjacent(s))
      requires was == PathNodes(c) + Nodes(s) == Nodes(Plug(c, s)) && nodes == was - {s.entry.item}
      requires nil !in was && nil.left == nil && nil.right == nil
      requires var z := Link(Root(s.left, nil), s.right.entry.item, Holder(c, nil), s.color);
               forall n <- nodes ::
                 LinkOf(n) == AdjacentLink(c, z, s.right.entry.item, Root(s.right.right, nil), nil, n,
                                    LinkIn(Plug(c, s), nil, nil, n))
      requires root == if c.Top? then s.right.entry.item else Root(Plug(c, s), nil)
      ensures Wired()
    {
      forall n <- nodes ensures n in Nodes(shape) && LinkOf(n) == LinkIn(shape, nil, nil, n) {
        AdjacentLinks(c, s, nil, n);
      }
      AdjacentNodes(s);
      Rewired(c, Adjacent(s), s);
    }

    /** The part of rb_tree_remove before the colours: `x` fills the gap and `color` is what was taken out. */
    method Unlink(z: Node, ghost c: Path<Node>, ghost s: Shape<Node>) returns (x: Node, color: Color)
      requires Wired() && Keyed(Inorder(shape)) && shape == Plug(c, s) && s.Fork? && z == Root(s, nil)
      modifies `root, `shape, `nodes, nodes, nil`parent
      ensures Wired() && nodes == old(nodes) - {z}
      ensures var g := RemovalGap(c, s);
              shape == Plug(g.path, g.fill) && x == Root(g.fill, nil) && color == g.color
    {
      View(c, s);
      if z.left == nil {
        color := z.color;
        x := z.right;
        EmptyKid(c, s);
        Splice(z, x, c, s);
      } else if z.right == nil {
        color := z.color;
        x := z.left;
        EmptyKid(c, s);
        Splice(z, x, c, s);
      } else {
        x, color := UnlinkInner(z, c, s);
      }
    }

    lemma EmptyKid(c: Path<Node>, s: Shape<Node>)
      requires Wired() && shape == Plug(c, s) && s.Fork?
      ensures (s.entry.item.left == nil <==> s.left.Leaf?) && (s.entry.item.right == nil <==> s.right.Leaf?)
    {
      View(c, s);
      View(InLeft(s.entry, s.color, s.right, c), s.left);
      View(InRight(s.entry, s.color, s.left, c), s.right);
    }

    /** The first node of the right subtree of `z`. */
    method Successor(z: Node, ghost c: Path<Node>, ghost s: Shape<Node>) returns (y: Node)
      requires Wired() && shape == Plug(c, s) && s.Fork? && s.right.Fork? && z == Root(s, nil)
      ensures var (d, t) := MinPath(s.right, Top);
              && t.Fork? && t.left.Leaf? && y == t.entry.item && Plug(d, t) == s.right
              && Plug(Append(d, InRight(s.entry, s.color, s.left, c)), t) == shape
    {
      View(c, s);
      y := z.right;
      ghost var c' := InRight(s.entry, s.color, s.left, c);
      ghost var d, t := Path<Node>.Top, s.right;
      EmptyKid(c', t);
      while y.left != nil
        invariant t.Fork? && y == Root(t, nil) && MinPath(t, d) == MinPath(s.right, Top)
        invariant shape == Plug(Append(d, c'), t) && Plug(d, t) == s.right
        invariant y.left == nil <==> t.left.Leaf?
        decreases t
      {
        View(Append(d, c'), t);
        y := y.left;
        d, t := InLeft(t.entry, t.color, t.right, d), t.left;
        EmptyKid(Append(d, c'), t);
      }
    }

    method UnlinkInner(z: Node, ghost c: Path<Node>, ghost s: Shape<Node>) returns (x: Node, color: Color)
      requires Wired() && Keyed(Inorder(shape)) && shape == Plug(c, s) && s.Fork? && s.left.Fork? && s.right.Fork?
      requires z == Root(s, nil)
      modifies `root, `shape, `nodes, nodes, nil`parent
      ensures Wired() && nodes == old(nodes) - {z}
      ensures var g := RemovalGap(c, s);
              shape == Plug(g.path, g.fill) && x == Root(g.fill, nil) && color == g.color
    {
      hide Distinct, Inorder, Keyed, Append, RemovalGap;
      var y := Successor(z, c, s);
      ghost var (d, t) := MinPath(s.right, Top);
      ghost var c' := InRight(s.entry, s.color, s.left, c);
      InnerGap(c, s);
      InnerView(c, s);
      color := y.color;
      x := y.right;
      if y.parent == z {
        SwapInChild(z, y, x, c, s);
      } else {
        Splice(y, x, Append(d, c'), t);
        SwapIn(z, y, c, Fork(s.left, s.entry, s.color, Plug(d, t.right)));
      }
    }

    lemma InnerView(c: Path<Node>, s: Shape<Node>)
      requires Wired() && Keyed(Inorder(shape)) && shape == Plug(c, s) && s.Fork? && s.left.Fork? && s.right.Fork?
      ensures var (d, t) := MinPath(s.right, Top);
              var c' := InRight(s.entry, s.color, s.left, c);
              && t.Fork? && t.entry == Entry(t.entry.item.key, t.entry.item)
              && LinkOf(t.entry.item) ==
                Link(Root(t.left, nil), Root(t.right, nil), Holder(Append(d, c'), nil), t.color)
              && t.entry.item in nodes && t.entry.item != s.entry.item
              && (Holder(Append(d, c'), nil) == s.entry.item <==> d.Top?)
    {
      InnerGap(c, s);
      var (d, t) := MinPath(s.right, Top);
      var c' := InRight(s.entry, s.color, s.left, c);
      View(Append(d, c'), t);
      View(c', s.right);
      NodesPlug(d, t);
      InorderPlug(Append(d, c'), t);
      assert Inorder(shape)[|Before(Append(d, c'))| + |Inorder(t.left)|] == t.entry;
    }

    /** Paints a child of the sibling black, or the sentinel in its place. */
    method PaintNiece(n: Node, ghost left: bool, ghost c: Path<Node>,
                      ghost s: Shape<Node>) returns (ghost t: Shape<Node>)
      requires Wired() && shape == Plug(c, s) && !c.Top?
      requires n == if c.sibling.Leaf? then nil else if left then Root(c.sibling.left, nil)
        else Root(c.sibling.right, nil)
      modifies `shape, nodes`color, nil`color
      ensures Wired() && shape == Plug(Beside(c, t), s) && Inorder(shape) == old(Inorder(shape))
      ensures t.Fork? == c.sibling.Fork? && (t.Fork? ==> t.entry == c.sibling.entry && t.color == c.sibling.color)
      ensures n.color == Black
    {
      t := c.sibling;
      ghost var p, u := Across(c, s), t;
      if t.Fork? {
        p, u := if left then InLeft(t.entry, t.color, t.right, p) else InRight(t.entry, t.color, t.left, p),
                if left then t.left else t.right;
        t := if left then Fork(RedBlackShape.Paint(u, Black), t.entry, t.color, t.right)
             else Fork(t.left, t.entry, t.color, RedBlackShape.Paint(u, Black));
      }
      View(p, u);
      Paint(n, Black, p, u);
    }

    // ---- the removal fix-up, at the left child of its parent ----

    /** The first step: a red sibling is painted black and rotated above the parent, which turns red. */
    method LeftSiblingTurns(x: Node, w0: Node, ghost c0: Path<Node>, ghost s: Shape<Node>)
      returns (w: Node, ghost c: Path<Node>)
      requires Wired() && shape == Plug(c0, s) && s.Fork? && x == Root(s, nil) && c0.InLeft?
      requires w0 == Root(c0.sibling, nil)
      requires ColorOf(shape).Black?
      modifies `root, `shape, nodes, nil`color
      ensures Wired() && shape == Plug(c, s) && c.InLeft? && c.color.Red? && w == Root(c.sibling, nil)
      ensures ColorOf(shape).Black? || (c.up.Top? && c.sibling.Leaf? && nil.color.Black?)
      ensures Inorder(shape) == old(Inorder(shape))
    {
      View(c0, s);
      View(c0.up, Rise(c0, s));
      RootColor(c0, s, s);
      PaintSibling(w0, Black, c0, s);
      ghost var t := RedBlackShape.Paint(c0.sibling, Black);
      TurnedPlug(c0, t, s);
      PaintHolder(x.parent, Red, Beside(c0, t), s);
      LeftRotate(x.parent, c0.up, Rise(Tint(Beside(c0, t), Red), s));
      c := Turned(c0, t);
      View(c, s);
      w := x.parent.right;
      SiblingRootColor(c0, s, c, t);
    }

    /** If the far nephew is black, the near one is turned above the sibling. */
    method LeftFarRed(x: Node, w0: Node, ghost c: Path<Node>, ghost s: Shape<Node>)
      returns (w: Node, ghost t: Shape<Node>)
      requires Wired() && shape == Plug(c, s) && s.Fork? && x == Root(s, nil) && c.InLeft? && w0 == Root(c.sibling, nil)
      modifies `root, `shape, nodes, nil`color
      ensures Wired() && shape == Plug(Beside(c, t), s) && w == Root(t, nil) && Inorder(shape) == old(Inorder(shape))
    {
      w, t := w0, c.sibling;
      View(Across(c, s), t);
      if w.right.color == Black {
        t := PaintNiece(w.left, true, c, s);
        View(Across(Beside(c, t), s), t);
        PaintSibling(w, Red, Beside(c, t), s);
        t := RedBlackShape.Paint(t, Red);
        RightRotate(w, Across(Beside(c, t), s), t);
        t := RotateRight(t);
        View(Beside(c, t), s);
        w := x.parent.right;
      }
    }

    /** The sibling is painted like the parent and rotated above it; parent and far nephew turn black. */
    method LeftTakeOver(x: Node, w: Node, ghost c: Path<Node>, ghost s: Shape<Node>)
      requires Wired() && shape == Plug(c, s) && s.Fork? && x == Root(s, nil) && c.InLeft? && w == Root(c.sibling, nil)
      requires ColorOf(shape).Black?
      modifies `root, `shape, nodes, nil`color
      ensures Wired() && Inorder(shape) == old(Inorder(shape)) && ColorOf(shape).Black?
    {
      hide Wired, Inorder;
      View(c, s);
      View(Across(c, s), c.sibling);
      var p := x.parent;
      PaintSibling(w, p.color, c, s);
      ghost var t := RedBlackShape.Paint(c.sibling, c.color);
      PaintHolder(p, Black, Beside(c, t), s);
      ghost var c1 := InLeft(c.entry, Black, t, c.up);
      View(Across(c1, s), t);
      t := PaintNiece(w.right, false, c1, s);
      LeftRotate(p, c.up, Fork(s, c.entry, Black, t));
      LastRootColor(c, s, t);
    }

    /** The last step: `x` has a red nephew. */
    method LeftLast(x: Node, w0: Node, ghost c: Path<Node>, ghost s: Shape<Node>)
      requires Wired() && shape == Plug(c, s) && s.Fork? && x == Root(s, nil) && c.InLeft? && w0 == Root(c.sibling, nil)
      requires ColorOf(shape).Black?
      modifies `root, `shape, nodes, nil`color
      ensures Wired() && Inorder(shape) == old(Inorder(shape)) && ColorOf(shape).Black?
    {
      var w;
      ghost var t;
      w, t := LeftFarRed(x, w0, c, s);
      SideRootColor(c, s, t);
      LeftTakeOver(x, w, Beside(c, t), s);
    }

    /** One round of the removal fix-up at a left child. */
    method LeftShift(x0: Node, ghost c0: Path<Node>, ghost s0: Shape<Node>)
      returns (x: Node, ghost c: Path<Node>, ghost s: Shape<Node>)
      requires Wired() && shape == Plug(c0, s0) && s0.Fork? && x0 == Root(s0, nil) && c0.InLeft?
      requires ColorOf(shape).Black?
      modifies `root, `shape, nodes, nil`color
      ensures Wired() && shape == Plug(c, s) && s.Fork? && x == Root(s, nil)
      ensures Inorder(shape) == old(Inorder(shape)) && (c.Top? || ColorOf(shape).Black?)
      ensures (if s.color.Black? then Length(c) else 0) < Length(c0)
    {
      x, c, s := x0, c0, s0;
      View(c, s);
      var w := x.parent.right;
      View(Across(c, s), c.sibling);
      if w.color == Red {
        w, c := LeftSiblingTurns(x, w, c, s);
        View(c, s);
        View(Across(c, s), c.sibling);
      }
      if w.left.color == Black && w.right.color == Black {
        PaintSibling(w, Red, c, s);
        ghost var c1 := Beside(c, RedBlackShape.Paint(c.sibling, Red));
        SideRootColor(c, s, c1.sibling);
        View(c1, s);
        x := x.parent;
        c, s := c1.up, Rise(c1, s);
        View(c, s);
      } else {
        LeftLast(x, w, c, s);
        x, c, s := root, Top, shape;
        View(c, s);
      }
    }

    // ---- the removal fix-up, at the right child of its parent ----

    /** The first step: a red sibling is painted black and rotated above the parent, which turns red. */
    method RightSiblingTurns(x: Node, w0: Node, ghost c0: Path<Node>, ghost s: Shape<Node>)
      returns (w: Node, ghost c: Path<Node>)
      requires Wired() && shape == Plug(c0, s) && s.Fork? && x == Root(s, nil) && c0.InRight?
      requires w0 == Root(c0.sibling, nil)
      requires ColorOf(shape).Black?
      modifies `root, `shape, nodes, nil`color
      ensures Wired() && shape == Plug(c, s) && c.InRight? && c.color.Red? && w == Root(c.sibling, nil)
      ensures ColorOf(shape).Black? || (c.up.Top? && c.sibling.Leaf? && nil.color.Black?)
      ensures Inorder(shape) == old(Inorder(shape))
    {
      View(c0, s);
      View(c0.up, Rise(c0, s));
      RootColor(c0, s, s);
      PaintSibling(w0, Black, c0, s);
      ghost var t := RedBlackShape.Paint(c0.sibling, Black);
      TurnedPlug(c0, t, s);
      PaintHolder(x.parent, Red, Beside(c0, t), s);
      RightRotate(x.parent, c0.up, Rise(Tint(Beside(c0, t), Red), s));
      c := Turned(c0, t);
      View(c, s);
      w := x.parent.left;
      SiblingRootColor(c0, s, c, t);
    }

    /** If the far nephew is black, the near one is turned above the sibling. */
    method RightFarRed(x: Node, w0: Node, ghost c: Path<Node>, ghost s: Shape<Node>)
      returns (w: Node, ghost t: Shape<Node>)
      requires Wired() && shape == Plug(c, s) && s.Fork? && x == Root(s, nil) && c.InRight?
      requires w0 == Root(c.sibling, nil)
      modifies `root, `shape, nodes, nil`color
      ensures Wired() && shape == Plug(Beside(c, t), s) && w == Root(t, nil) && Inorder(shape) == old(Inorder(shape))
    {
      w, t := w0, c.sibling;
      View(Across(c, s), t);
      if w.left.color == Black {
        t := PaintNiece(w.right, false, c, s);
        View(Across(Beside(c, t), s), t);
        PaintSibling(w, Red, Beside(c, t), s);
        t := RedBlackShape.Paint(t, Red);
        LeftRotate(w, Across(Beside(c, t), s), t);
        t := RotateLeft(t);
        View(Beside(c, t), s);
        w := x.parent.left;
      }
    }

    /** The sibling is painted like the parent and rotated above it; parent and far nephew turn black. */
    method RightTakeOver(x: Node, w: Node, ghost c: Path<Node>, ghost s: Shape<Node>)
      requires Wired() && shape == Plug(c, s) && s.Fork? && x == Root(s, nil) && c.InRight? && w == Root(c.sibling, nil)
      requires ColorOf(shape).Black?
      modifies `root, `shape, nodes, nil`color
      ensures Wired() && Inorder(shape) == old(Inorder(shape)) && ColorOf(shape).Black?
    {
      hide Wired, Inorder;
      View(c, s);
      View(Across(c, s), c.sibling);
      var p := x.parent;
      PaintSibling(w, p.color, c, s);
      ghost var t := RedBlackShape.Paint(c.sibling, c.color);
      PaintHolder(p, Black, Beside(c, t), s);
      ghost var c1 := InRight(c.entry, Black, t, c.up);
      View(Across(c1, s), t);
      t := PaintNiece(w.left, true, c1, s);
      RightRotate(p, c.up, Fork(t, c.entry, Black, s));
      LastRootColor(c, s, t);
    }

    /** The last step: `x` has a red nephew. */
    method RightLast(x: Node, w0: Node, ghost c: Path<Node>, ghost s: Shape<Node>)
      requires Wired() && shape == Plug(c, s) && s.Fork? && x == Root(s, nil) && c.InRight?
      requires w0 == Root(c.sibling, nil)
      requires ColorOf(shape).Black?
      modifies `root, `shape, nodes, nil`color
      ensures Wired() && Inorder(shape) == old(Inorder(shape)) && ColorOf(shape).Black?
    {
      var w;
      ghost var t;
      w, t := RightFarRed(x, w0, c, s);
      SideRootColor(c, s, t);
      RightTakeOver(x, w, Beside(c, t), s);
    }

    /** One round of the removal fix-up at a right child. */
    method RightShift(x0: Node, ghost c0: Path<Node>, ghost s0: Shape<Node>)
      returns (x: Node, ghost c: Path<Node>, ghost s: Shape<Node>)
      requires Wired() && shape == Plug(c0, s0) && s0.Fork? && x0 == Root(s0, nil) && c0.InRight?
      requires ColorOf(shape).Black?
      modifies `root, `shape, nodes, nil`color
      ensures Wired() && shape == Plug(c, s) && s.Fork? && x == Root(s, nil)
      ensures Inorder(shape) == old(Inorder(shape)) && (c.Top? || ColorOf(shape).Black?)
      ensures (if s.color.Black? then Length(c) else 0) < Length(c0)
    {
      x, c, s := x0, c0, s0;
      View(c, s);
      var w := x.parent.left;
      View(Across(c, s), c.sibling);
      if w.color == Red {
        w, c := RightSiblingTurns(x, w, c, s);
        View(c, s);
        View(Across(c, s), c.sibling);
      }
      if w.right.color == Black && w.left.color == Black {
        PaintSibling(w, Red, c, s);
        ghost var c1 := Beside(c, RedBlackShape.Paint(c.sibling, Red));
        SideRootColor(c, s, c1.sibling);
        View(c1, s);
        x := x.parent;
        c, s := c1.up, Rise(c1, s);
        View(c, s);
      } else {
        RightLast(x, w, c, s);
        x, c, s := root, Top, shape;
        View(c, s);
      }
    }

    /** rb_delete_fixup: it leaves the sentinel alone, and otherwise ends with a black root. */
    method DeleteFixup(x0: Node, ghost c0: Path<Node>, ghost s0: Shape<Node>)
      requires Wired() && shape == Plug(c0, s0) && x0 == Root(s0, nil) && (c0.Top? || ColorOf(shape).Black?)
      modifies `root, `shape, nodes, nil`color
      ensures Wired() && Inorder(shape) == old(Inorder(shape)) && ColorOf(shape).Black?
      ensures s0.Leaf? ==> shape == old(shape) && nil.color == old(nil.color)
      ensures s0.Fork? && s0.color.Red? ==>
        shape == Plug(c0, RedBlackShape.Paint(s0, Black)) && nil.color == old(nil.color)
    {
      View(c0, s0);
      if x0 == nil {
        return;
      }
      var x := x0;
      ghost var c, s := c0, s0;
      while x != root && x.color == Black
        invariant Wired() && shape == Plug(c, s) && s.Fork? && x == Root(s, nil)
        invariant x == root <==> c.Top?
        invariant Inorder(shape) == old(Inorder(shape)) && (c.Top? || ColorOf(shape).Black?)
        invariant s0.color.Red? ==> x.color == Red && c == c0 && s == s0 && nil.color == old(nil.color)
        decreases if s.color.Black? then Length(c) else 0
      {
        View(c, s);
        if x == x.parent.left {
          x, c, s := LeftShift(x, c, s);
        } else {
          x, c, s := RightShift(x, c, s);
        }
        View(c, s);
      }
      BlackenAt(x, c, s);
    }

    method BlackenAt(x: Node, ghost c: Path<Node>, ghost s: Shape<Node>)
      requires Wired() && shape == Plug(c, s) && s.Fork? && x == Root(s, nil) && (c.Top? || ColorOf(shape).Black?)
      modifies `shape, nodes
      ensures Wired() && Inorder(shape) == old(Inorder(shape)) && ColorOf(shape).Black?
      ensures shape == Plug(c, RedBlackShape.Paint(s, Black))
    {
      View(c, s);
      if !c.Top? {
        RootColor(c, s, RedBlackShape.Paint(s, Black));
      }
      Paint(x, Black, c, s);
    }

    /** Takes `z` out and restores the colours as far as the code does. */
    method Shrink(z: Node, ghost c: Path<Node>, ghost s: Shape<Node>)
      requires Wired() && Keyed(Inorder(shape)) && shape == Plug(c, s) && s.Fork? && z == Root(s, nil)
      requires ColorOf(shape).Black?
      modifies `root, `shape, `nodes, nodes, nil`parent, nil`color
      ensures Wired() && nodes == old(nodes) - {z} && ColorOf(shape).Black?
      ensures Inorder(shape) == (Before(c) + Inorder(s.left)) + (Inorder(s.right) + After(c))
      ensures var g := RemovalGap(c, s);
              g.color.Red? || g.fill.Leaf? || g.fill.color.Red? ==>
                && nil.color == old(nil.color)
                && shape == if g.color.Black? && g.fill.Fork? then Plug(g.path, RedBlackShape.Paint(g.fill, Black))
                            else Plug(g.path, g.fill)
    {
      GapRootColor(c, s);
      RemovalInorder(c, s);
      var x, color := Unlink(z, c, s);
      ghost var g := RemovalGap(c, s);
      if color == Black {
        DeleteFixup(x, g.path, g.fill);
      }
    }

    lemma ShrunkOrder(c: Path<Node>, s: Shape<Node>)
      requires Valid() && shape == Plug(c, s) && s.Fork?
      ensures var a, b := Before(c) + Inorder(s.left), Inorder(s.right) + After(c);
              && Inorder(shape) == a + [s.entry] + b
              && Sorted(a + b) && Keyed(a + b) && |a + b| == count - 1
    {
      RemovalInorder(c, s);
      KeyedRemove(Before(c) + Inorder(s.left), s.entry, Inorder(s.right) + After(c));
    }

    /** rb_tree_remove at a known place. */
    method RemoveAt(z: Node, ghost c: Path<Node>, ghost s: Shape<Node>)
      requires Valid() && shape == Plug(c, s) && s.Fork? && z == Root(s, nil)
      modifies this, nodes, nil`parent, nil`color
      ensures Valid() && nodes == old(nodes) - {z}
      ensures Inorder(shape) == (Before(c) + Inorder(s.left)) + (Inorder(s.right) + After(c))
      ensures var g := RemovalGap(c, s);
              old(RedBlack(shape)) ==>
                (RedBlack(shape) <==> g.color.Red? || g.fill.Fork? || shape.Leaf?) && nil.color == old(nil.color)
    {
      ShrunkOrder(c, s);
      if RedBlack(shape) {
        RemovalBalance(c, s);
      }
      ghost var was := shape;
      Shrink(z, c, s);
      if RedBlack(was) {
        RemovalDone(c, s, shape);
      }
      AddCount(-1);
    }

    /**
     rb_tree_remove: the order loses exactly `z`.  From a red-black tree it gives one again exactly if
     the colour taken out of the gap was red, or something fills the gap, or `z` was the only node.
     */
    method Remove(z: Node) returns (ghost i: nat, ghost g: Gap<Node>)
      requires Valid() && z in nodes
      modifies this, nodes, nil`parent, nil`color
      ensures Valid() && nodes == old(nodes) - {z}
      ensures i < |old(Inorder(shape))| && old(Inorder(shape))[i] == Entry(z.key, z)
      ensures Inorder(shape) == old(Inorder(shape))[..i] + old(Inorder(shape))[i + 1..]
      ensures exists c, s :: old(shape) == Plug(c, s) && s.Fork? && s.entry.item == z && g == RemovalGap(c, s)
      ensures old(RedBlack(shape)) ==>
                (RedBlack(shape) <==> g.color.Red? || g.fill.Fork? || old(count) == 1) && nil.color == old(nil.color)
    {
      ghost var c, s := Locate(Top, shape, z);
      g := RemovalGap(c, s);
      ghost var a, b := Before(c) + Inorder(s.left), Inorder(s.right) + After(c);
      i := |a|;
      ShrunkOrder(c, s);
      KeyAtHole(c, s);
      assert (a + [s.entry] + b)[..i] == a && (a + [s.entry] + b)[i + 1..] == b;
      RemoveAt(z, c, s);
      SizeInorder(shape);
    }

    /** Height at most twice the logarithm of the number of nodes and one, in every red-black tree. */
    lemma HeightBound()
      requires Valid() && RedBlack(shape)
      ensures Pow2(Height(shape)) <= (count + 1) * (count + 1)
    {
      SizeInorder(shape);
      RedBlackHeight(shape);
    }
  }

  datatype Edit = Put(node: Node) | Drop(node: Node)

  /** The nodes in the tree after the given edits. */
  function Live(edits: seq<Edit>): set<Node> {
    if edits == [] then {}
    else
      var e, before := edits[|edits| - 1], Live(edits[..|edits| - 1]);
      if e.Put? then before + {e.node} else before - {e.node}
  }

  /** A node is put only when it is out of the tree and dropped only when it is in it. */
  predicate Orderly(edits: seq<Edit>) {
    forall k :: 0 <= k < |edits| ==> (edits[k].Put? <==> edits[k].node !in Live(edits[..k]))
  }

  /** Any run of insertions and removals: consistent links, and exactly the live nodes, in order. */
  method AnyRun(edits: seq<Edit>) returns (t: Tree)
    requires Orderly(edits)
    modifies set e | e in edits :: e.node
    ensures fresh(t) && t.Valid() && t.nodes == Live(edits) && t.count == |Inorder(t.shape)|
  {
    hide Tree.Wired;
    t := new Tree();
    for k := 0 to |edits|
      invariant fresh(t) && fresh(t.nil) && t.Valid() && t.nodes == Live(edits[..k])
    {
      LiveMore(edits, k);
      if edits[k].Put? {
        ghost var _ := t.Insert(edits[k].node);
      } else {
        ghost var _, _ := t.Remove(edits[k].node);
      }
    }
    assert edits[..|edits|] == edits;
  }

  lemma LiveMore(edits: seq<Edit>, k: nat)
    requires k < |edits|
    ensures var before := Live(edits[..k]);
            Live(edits[..k + 1]) == if edits[k].Put? then before + {edits[k].node} else before - {edits[k].node}
    ensures forall n <- Live(edits[..k]) :: exists e :: e in edits && e.node == n
  {
    assert edits[..k + 1][..k] == edits[..k];
    LiveAmong(edits, k);
  }

  lemma {:induction false} LiveAmong(edits: seq<Edit>, k: nat)
    requires k <= |edits|
    ensures forall n <- Live(edits[..k]) :: exists e :: e in edits && e.node == n
  {
    if k > 0 {
      LiveAmong(edits, k - 1);
      assert edits[..k][..k - 1] == edits[..k - 1] && edits[k - 1] in edits;
    }
  }

  /** Only insertions, in any order of keys: the tree of `n` nodes is at most 2 log2(n + 1) high, and in order. */
  method InsertOnly(zs: seq<Node>) returns (t: Tree)
    requires forall i, j :: 0 <= i < j < |zs| ==> zs[i] != zs[j]
    modifies zs
    ensures fresh(t) && t.Valid() && t.count == |zs| && t.nodes == set z | z in zs
    ensures RedBlack(t.shape) && Pow2(Height(t.shape)) <= (|zs| + 1) * (|zs| + 1)
  {
    hide Tree.Wired;
    t := new Tree();
    for k := 0 to |zs|
      invariant fresh(t) && fresh(t.nil) && t.Valid() && t.count == k && t.nodes == set i | 0 <= i < k :: zs[i]
      invariant RedBlack(t.shape) && t.nil.color.Black?
    {
      ghost var _ := t.Insert(zs[k]);
    }
    t.HeightBound();
  }
}
