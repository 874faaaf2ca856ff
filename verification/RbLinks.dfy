/**
 The nodes of source/kernel/tools/rb_tree.h and the links that make them form a given shape.

 `LinkIn` says what a shape requires of each node's fields.  For every operation one lemma says
 how that requirement changes, node by node; the class in RbTree.dfy matches it with its writes.
 `nil` is the sentinel that stands for an absent node.
 */
module RbLinks {
  import opened RedBlackShape

  /** rb_node_t, together with the key its surrounding structure is compared by. */
  class Node {
    var left: Node
    var right: Node
    var parent: Node
    var color: Color
    const key: int

    constructor (key: int)
      ensures this.key == key && left == right == parent == this && color == Black
    {
      this.key := key;
      left, right, parent, color := this, this, this, Black;
    }
  }

  // ---- which nodes a shape or a path is made of ----

  ghost function Nodes(s: Shape<Node>): set<Node> {
    if s.Leaf? then {} else Nodes(s.left) + {s.entry.item} + Nodes(s.right)
  }

  ghost function PathNodes(c: Path<Node>): set<Node> {
    if c.Top? then {} else {c.entry.item} + Nodes(c.sibling) + PathNodes(c.up)
  }

  ghost function Root(s: Shape<Node>, nil: Node): Node {
    if s.Leaf? then nil else s.entry.item
  }

  /** The node whose child is the hole. */
  ghost function Holder(c: Path<Node>, nil: Node): Node {
    if c.Top? then nil else c.entry.item
  }

  ghost predicate Distinct(s: Shape<Node>) {
    s.Fork? ==>
      && s.entry.item !in Nodes(s.left) && s.entry.item !in Nodes(s.right)
      && Nodes(s.left) !! Nodes(s.right)
      && Distinct(s.left) && Distinct(s.right)
  }

  ghost predicate DistinctPath(c: Path<Node>) {
    !c.Top? ==>
      && c.entry.item !in Nodes(c.sibling) && c.entry.item !in PathNodes(c.up)
      && Nodes(c.sibling) !! PathNodes(c.up)
      && Distinct(c.sibling) && DistinctPath(c.up)
  }

  ghost predicate Separate(c: Path<Node>, s: Shape<Node>) {
    Distinct(s) && DistinctPath(c) && Nodes(s) !! PathNodes(c)
  }

  lemma {:induction false} NodesPlug(c: Path<Node>, s: Shape<Node>)
    ensures Nodes(Plug(c, s)) == PathNodes(c) + Nodes(s)
    decreases c
  {
    if !c.Top? {
      NodesPlug(c.up, Rise(c, s));
    }
  }

  lemma {:induction false} DistinctPlug(c: Path<Node>, s: Shape<Node>)
    ensures Distinct(Plug(c, s)) <==> Separate(c, s)
    decreases c
  {
    if !c.Top? {
      DistinctPlug(c.up, Rise(c, s));
    }
  }

  lemma {:induction false} RootPlug(c: Path<Node>, s: Shape<Node>, s': Shape<Node>, nil: Node)
    ensures c.Top? ==> Root(Plug(c, s), nil) == Root(s, nil)
    ensures !c.Top? ==> Root(Plug(c, s), nil) == Root(Plug(c, s'), nil) && Root(Plug(c, s), nil) in PathNodes(c)
    decreases c
  {
    if !c.Top? {
      RootPlug(c.up, Rise(c, s), Rise(c, s'), nil);
    }
  }

  /** Every node of the tree is at some hole. */
  lemma {:induction false} Locate(c: Path<Node>, s: Shape<Node>, n: Node) returns (c': Path<Node>, s': Shape<Node>)
    requires n in Nodes(s)
    ensures Plug(c', s') == Plug(c, s) && s'.Fork? && s'.entry.item == n
    decreases s
  {
    if n == s.entry.item {
      c', s' := c, s;
    } else if n in Nodes(s.left) {
      c', s' := Locate(InLeft(s.entry, s.color, s.right, c), s.left, n);
    } else {
      c', s' := Locate(InRight(s.entry, s.color, s.left, c), s.right, n);
    }
  }

  /** Every entry carries its node's key. */
  ghost predicate Keyed(s: seq<Entry<Node>>) {
    forall i :: 0 <= i < |s| ==> s[i].key == s[i].item.key
  }

  lemma KeyedInsert(a: seq<Entry<Node>>, e: Entry<Node>, b: seq<Entry<Node>>)
    requires Keyed(a + b) && e.key == e.item.key
    ensures Keyed(a + [e] + b) && |a + [e] + b| == |a + b| + 1
  {
    var s, t := a + b, a + [e] + b;
    assert forall k :: 0 <= k < |a| ==> t[k] == s[k];
    assert forall k :: |a| < k < |t| ==> t[k] == s[k - 1];
  }

  lemma KeyedRemove(a: seq<Entry<Node>>, e: Entry<Node>, b: seq<Entry<Node>>)
    requires Keyed(a + [e] + b) && Sorted(a + [e] + b)
    ensures Keyed(a + b) && Sorted(a + b) && |a + b| == |a + [e] + b| - 1
  {
    var s, t := a + b, a + [e] + b;
    assert forall k :: 0 <= k < |a| ==> s[k] == t[k];
    assert forall k :: |a| <= k < |s| ==> s[k] == t[k + 1];
  }

  ghost function LastItem(s: seq<Entry<Node>>, nil: Node): Node {
    if |s| == 0 then nil else s[|s| - 1].item
  }

  lemma LastBefore(c: Path<Node>, s: Shape<Node>, nil: Node)
    requires s.Fork?
    ensures LastItem(Before(InRight(s.entry, s.color, s.left, c)), nil) == s.entry.item
  {
  }

  // ---- the links a shape calls for ----

  datatype Link = Link(left: Node, right: Node, parent: Node, color: Color)

  ghost function LinkOf(n: Node): Link
    reads n
  {
    Link(n.left, n.right, n.parent, n.color)
  }

  /** The links of node `n` of the subtree `s` hanging below `parent`. */
  ghost function LinkIn(s: Shape<Node>, parent: Node, nil: Node, n: Node): Link
    requires n in Nodes(s)
  {
    var x := s.entry.item;
    if n == x then Link(Root(s.left, nil), Root(s.right, nil), parent, s.color)
    else if n in Nodes(s.left) then LinkIn(s.left, x, nil, n)
    else LinkIn(s.right, x, nil, n)
  }

  ghost function HolderLink(c: Path<Node>, hole: Node, nil: Node): Link
    requires !c.Top?
  {
    if c.InLeft? then Link(hole, Root(c.sibling, nil), Holder(c.up, nil), c.color)
    else Link(Root(c.sibling, nil), hole, Holder(c.up, nil), c.color)
  }

  /** The links of node `n` of the path `c` whose hole is occupied by `hole`. */
  ghost function LinkOn(c: Path<Node>, hole: Node, nil: Node, n: Node): Link
    requires n in PathNodes(c)
  {
    var x := c.entry.item;
    if n == x then HolderLink(c, hole, nil)
    else if n in Nodes(c.sibling) then LinkIn(c.sibling, x, nil, n)
    else LinkOn(c.up, x, nil, n)
  }

  lemma {:induction false} LinkPlug(c: Path<Node>, s: Shape<Node>, nil: Node, n: Node)
    requires Separate(c, s) && n in PathNodes(c) + Nodes(s)
    ensures n in Nodes(Plug(c, s))
    ensures LinkIn(Plug(c, s), nil, nil, n)
         == if n in Nodes(s) then LinkIn(s, Holder(c, nil), nil, n) else LinkOn(c, Root(s, nil), nil, n)
    decreases c
  {
    if !c.Top? {
      LinkPlug(c.up, Rise(c, s), nil, n);
    }
  }

  // ---- rotations ----

  /** The links of `n` after the left rotation of `x` and its right child `y`, given its links `l` before. */
  ghost function LeftLink(c: Path<Node>, x: Node, y: Node, b: Node, nil: Node, n: Node, l: Link): Link {
    if n == x then l.(right := b, parent := y)
    else if n == y then l.(left := x, parent := Holder(c, nil))
    else if n == b then l.(parent := x)
    else if !c.Top? && n == c.entry.item then HolderLink(c, y, nil)
    else l
  }

  lemma LeftBelow(s: Shape<Node>, parent: Node, nil: Node, n: Node)
    requires Distinct(s) && s.Fork? && s.right.Fork? && nil !in Nodes(s) && n in Nodes(s)
    ensures Distinct(RotateLeft(s)) && Nodes(RotateLeft(s)) == Nodes(s)
    ensures var x, y, b, l := s.entry.item, s.right.entry.item, s.right.left, LinkIn(s, parent, nil, n);
            LinkIn(RotateLeft(s), parent, nil, n)
            == if n == x then l.(right := Root(b, nil), parent := y)
               else if n == y then l.(left := x, parent := parent)
               else if n == Root(b, nil) then l.(parent := x)
               else l
  {
    var x, y, b := s.entry.item, s.right.entry.item, s.right.left;
    assert Distinct(s.right);
    if n in Nodes(b) {
      assert LinkIn(s, parent, nil, n) == LinkIn(b, y, nil, n);
      assert LinkIn(RotateLeft(s).left, y, nil, n) == LinkIn(b, x, nil, n);
    }
  }

  lemma LeftLinks(c: Path<Node>, s: Shape<Node>, nil: Node, n: Node)
    requires Separate(c, s) && nil !in PathNodes(c) + Nodes(s) && n in PathNodes(c) + Nodes(s)
    requires s.Fork? && s.right.Fork?
    ensures n in Nodes(Plug(c, s)) && n in Nodes(Plug(c, RotateLeft(s)))
    ensures LinkIn(Plug(c, RotateLeft(s)), nil, nil, n)
         == LeftLink(c, s.entry.item, s.right.entry.item, Root(s.right.left, nil), nil, n, LinkIn(Plug(c, s), nil,
           nil, n))
  {
    LeftBelow(s, Holder(c, nil), nil, if n in Nodes(s) then n else s.entry.item);
    LinkPlug(c, s, nil, n);
    LinkPlug(c, RotateLeft(s), nil, n);
  }

  ghost function RightLink(c: Path<Node>, y: Node, x: Node, b: Node, nil: Node, n: Node, l: Link): Link {
    if n == y then l.(left := b, parent := x)
    else if n == x then l.(right := y, parent := Holder(c, nil))
    else if n == b then l.(parent := y)
    else if !c.Top? && n == c.entry.item then HolderLink(c, x, nil)
    else l
  }

  lemma RightBelow(s: Shape<Node>, parent: Node, nil: Node, n: Node)
    requires Distinct(s) && s.Fork? && s.left.Fork? && nil !in Nodes(s) && n in Nodes(s)
    ensures Distinct(RotateRight(s)) && Nodes(RotateRight(s)) == Nodes(s)
    ensures var y, x, b, l := s.entry.item, s.left.entry.item, s.left.right, LinkIn(s, parent, nil, n);
            LinkIn(RotateRight(s), parent, nil, n)
            == if n == y then l.(left := Root(b, nil), parent := x)
               else if n == x then l.(right := y, parent := parent)
               else if n == Root(b, nil) then l.(parent := y)
               else l
  {
    var y, x, b := s.entry.item, s.left.entry.item, s.left.right;
    assert Distinct(s.left);
    if n in Nodes(b) {
      assert LinkIn(s, parent, nil, n) == LinkIn(b, x, nil, n);
      assert LinkIn(RotateRight(s).right, x, nil, n) == LinkIn(b, y, nil, n);
    }
  }

  lemma RightLinks(c: Path<Node>, s: Shape<Node>, nil: Node, n: Node)
    requires Separate(c, s) && nil !in PathNodes(c) + Nodes(s) && n in PathNodes(c) + Nodes(s)
    requires s.Fork? && s.left.Fork?
    ensures n in Nodes(Plug(c, s)) && n in Nodes(Plug(c, RotateRight(s)))
    ensures LinkIn(Plug(c, RotateRight(s)), nil, nil, n)
         == RightLink(c, s.entry.item, s.left.entry.item, Root(s.left.right, nil), nil, n, LinkIn(Plug(c, s), nil,
           nil, n))
  {
    RightBelow(s, Holder(c, nil), nil, if n in Nodes(s) then n else s.entry.item);
    LinkPlug(c, s, nil, n);
    LinkPlug(c, RotateRight(s), nil, n);
  }

  // ---- painting ----

  lemma PaintLinks(c: Path<Node>, s: Shape<Node>, col: Color, nil: Node, n: Node)
    requires Separate(c, s) && n in PathNodes(c) + Nodes(s) && s.Fork?
    ensures n in Nodes(Plug(c, s)) && n in Nodes(Plug(c, Paint(s, col))) && Separate(c, Paint(s, col))
    ensures var l := LinkIn(Plug(c, s), nil, nil, n);
            LinkIn(Plug(c, Paint(s, col)), nil, nil, n) == if n == s.entry.item then l.(color := col) else l
  {
    LinkPlug(c, s, nil, n);
    LinkPlug(c, Paint(s, col), nil, n);
  }

  // ---- insertion of a leaf ----

  lemma AttachLinks(c: Path<Node>, e: Entry<Node>, nil: Node, n: Node)
    requires DistinctPath(c) && e.item !in PathNodes(c) && n in PathNodes(c) + {e.item}
    ensures Separate(c, Fork(Leaf, e, Red, Leaf)) && n in Nodes(Plug(c, Fork(Leaf, e, Red, Leaf)))
    ensures n == e.item ==>
              LinkIn(Plug(c, Fork(Leaf, e, Red, Leaf)), nil, nil, n) == Link(nil, nil, Holder(c, nil), Red)
    ensures n != e.item ==> n in Nodes(Plug(c, Leaf))
    ensures n != e.item ==>
              LinkIn(Plug(c, Fork(Leaf, e, Red, Leaf)), nil, nil, n)
              == if n == c.entry.item then HolderLink(c, e.item, nil) else LinkIn(Plug(c, Leaf), nil, nil, n)
  {
    LinkPlug(c, Fork(Leaf, e, Red, Leaf), nil, n);
    if n != e.item {
      LinkPlug(c, Leaf, nil, n);
    }
  }

  // ---- removal ----

  ghost function SpliceLink(c: Path<Node>, x: Node, nil: Node, n: Node, l: Link): Link {
    if n == x then l.(parent := Holder(c, nil))
    else if !c.Top? && n == c.entry.item then HolderLink(c, x, nil)
    else l
  }

  lemma OnlyNodes(s: Shape<Node>)
    requires Distinct(s) && s.Fork? && (s.left.Leaf? || s.right.Leaf?)
    ensures Nodes(Only(s)) == Nodes(s) - {s.entry.item} && Distinct(Only(s))
  {
  }

  lemma SpliceLinks(c: Path<Node>, s: Shape<Node>, nil: Node, n: Node)
    requires Separate(c, s) && nil !in PathNodes(c) + Nodes(s)
    requires s.Fork? && (s.left.Leaf? || s.right.Leaf?)
    requires n in PathNodes(c) + Nodes(s) && n != s.entry.item
    ensures Separate(c, Only(s)) && Nodes(Only(s)) == Nodes(s) - {s.entry.item}
    ensures n in Nodes(Plug(c, s)) && n in Nodes(Plug(c, Only(s)))
    ensures LinkIn(Plug(c, Only(s)), nil, nil, n)
         == SpliceLink(c, Root(Only(s), nil), nil, n, LinkIn(Plug(c, s), nil, nil, n))
  {
    LinkPlug(c, s, nil, n);
    LinkPlug(c, Only(s), nil, n);
  }

  /** The links of `n` after `y` has taken the place of `z`, which had the children `l` and `r`. */
  ghost function SwapLink(c: Path<Node>, z: Link, y: Node, nil: Node, n: Node, l: Link): Link {
    if n == y then z
    else if n == z.left || n == z.right then l.(parent := y)
    else if !c.Top? && n == c.entry.item then HolderLink(c, y, nil)
    else l
  }

  lemma SwapLinks(c: Path<Node>, s: Shape<Node>, e: Entry<Node>, nil: Node, n: Node)
    requires Separate(c, s) && nil !in PathNodes(c) + Nodes(s) && e.item !in PathNodes(c) + Nodes(s)
    requires s.Fork?
    requires n in PathNodes(c) + Nodes(s) + {e.item} && n != s.entry.item
    ensures var s' := s.(entry := e);
            && Separate(c, s') && Nodes(s') == Nodes(s) - {s.entry.item} + {e.item}
            && n in Nodes(Plug(c, s')) && (n != e.item ==> n in Nodes(Plug(c, s)))
    ensures var z := Link(Root(s.left, nil), Root(s.right, nil), Holder(c, nil), s.color);
            LinkIn(Plug(c, s.(entry := e)), nil, nil, n)
            == if n == e.item then z else SwapLink(c, z, e.item, nil, n, LinkIn(Plug(c, s), nil, nil, n))
  {
    LinkPlug(c, s.(entry := e), nil, n);
    if n != e.item {
      LinkPlug(c, s, nil, n);
    }
  }

  /** The node `z` at `s` gives way to its right child `y`, which has no left child. */
  ghost function Adjacent(s: Shape<Node>): Shape<Node>
    requires s.Fork? && s.right.Fork?
  {
    Fork(s.left, s.right.entry, s.color, s.right.right)
  }

  ghost function AdjacentLink(c: Path<Node>, z: Link, y: Node, x: Node, nil: Node, n: Node, l: Link): Link {
    if n == y then Link(z.left, x, z.parent, z.color)
    else if n == z.left || n == x then l.(parent := y)
    else if !c.Top? && n == c.entry.item then HolderLink(c, y, nil)
    else l
  }

  lemma AdjacentNodes(s: Shape<Node>)
    requires Distinct(s) && s.Fork? && s.right.Fork? && s.right.left.Leaf?
    ensures Distinct(Adjacent(s)) && Nodes(Adjacent(s)) == Nodes(s) - {s.entry.item}
  {
  }

  lemma AdjacentBelow(s: Shape<Node>, parent: Node, nil: Node, n: Node)
    requires Distinct(s) && s.Fork? && s.right.Fork? && s.right.left.Leaf? && nil !in Nodes(s)
    requires n in Nodes(s) && n != s.entry.item
    ensures n in Nodes(Adjacent(s))
    ensures var z := Link(Root(s.left, nil), s.right.entry.item, parent, s.color);
            var y, x, l := s.right.entry.item, Root(s.right.right, nil), LinkIn(s, parent, nil, n);
            LinkIn(Adjacent(s), parent, nil, n)
            == if n == y then Link(z.left, x, parent, z.color)
               else if n == z.left || n == x then l.(parent := y) else l
  {
    AdjacentNodes(s);
    assert Distinct(s.right);
    if n in Nodes(s.right.right) {
      assert LinkIn(s, parent, nil, n) == LinkIn(s.right, s.entry.item, nil, n);
      assert LinkIn(s.right, s.entry.item, nil, n) == LinkIn(s.right.right, s.right.entry.item, nil, n);
    }
  }

  lemma AdjacentLinks(c: Path<Node>, s: Shape<Node>, nil: Node, n: Node)
    requires Separate(c, s) && nil !in PathNodes(c) + Nodes(s)
    requires s.Fork? && s.right.Fork? && s.right.left.Leaf?
    requires n in PathNodes(c) + Nodes(s) && n != s.entry.item
    ensures Separate(c, Adjacent(s))
    ensures n in Nodes(Plug(c, s)) && n in Nodes(Plug(c, Adjacent(s)))
    ensures var z := Link(Root(s.left, nil), s.right.entry.item, Holder(c, nil), s.color);
            LinkIn(Plug(c, Adjacent(s)), nil, nil, n)
            == AdjacentLink(c, z, s.right.entry.item, Root(s.right.right, nil), nil, n, LinkIn(Plug(c, s), nil, nil, n))
  {
    AdjacentNodes(s);
    LinkPlug(c, s, nil, n);
    LinkPlug(c, Adjacent(s), nil, n);
    if n in Nodes(s) {
      AdjacentBelow(s, Holder(c, nil), nil, n);
    } else {
      assert n != s.right.entry.item && n != Root(s.left, nil) && n != Root(s.right.right, nil);
    }
  }
}
