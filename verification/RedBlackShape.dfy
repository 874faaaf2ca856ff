/**
 Red-black trees as values.

 A `Shape` is the tree that the linked nodes form; a `Path` is the way from the root down to one
 of its subtrees (the "hole"), listed from the hole upwards.  Every step of the algorithms in
 source/kernel/tools/rb_tree.c happens at such a hole, so every step is stated as
 `Plug(c, s)` becoming `Plug(c, s')`.
 */
module RedBlackShape {

  datatype Color = Red | Black

  /** The key a node is ordered by, and the node (or the structure around it). */
  datatype Entry<T> = Entry(key: int, item: T)

  datatype Shape<T> =
    | Leaf
    | Fork(left: Shape<T>, entry: Entry<T>, color: Color, right: Shape<T>)

  /** InLeft: the hole is the left child of `entry`, and `sibling` its right child; InRight mirrors it. */
  datatype Path<T> =
    | Top
    | InLeft(entry: Entry<T>, color: Color, sibling: Shape<T>, up: Path<T>)
    | InRight(entry: Entry<T>, color: Color, sibling: Shape<T>, up: Path<T>)

  /** The subtree one level up from the hole, when `s` is at the hole. */
  function Rise<T>(c: Path<T>, s: Shape<T>): Shape<T>
    requires !c.Top?
  {
    if c.InLeft? then Fork(s, c.entry, c.color, c.sibling) else Fork(c.sibling, c.entry, c.color, s)
  }

  function Plug<T>(c: Path<T>, s: Shape<T>): Shape<T>
    decreases c
  {
    if c.Top? then s else Plug(c.up, Rise(c, s))
  }

  /** The path with the node above the hole painted. */
  function Tint<T>(c: Path<T>, col: Color): Path<T>
    requires !c.Top?
  {
    if c.InLeft? then InLeft(c.entry, col, c.sibling, c.up) else InRight(c.entry, col, c.sibling, c.up)
  }

  /** The path with another sibling beside the hole. */
  function Beside<T>(c: Path<T>, sib: Shape<T>): Path<T>
    requires !c.Top?
  {
    if c.InLeft? then InLeft(c.entry, c.color, sib, c.up) else InRight(c.entry, c.color, sib, c.up)
  }

  /** The path to the sibling of the hole, when `s` is at the hole. */
  function Across<T>(c: Path<T>, s: Shape<T>): Path<T>
    requires !c.Top?
  {
    if c.InLeft? then InRight(c.entry, c.color, s, c.up) else InLeft(c.entry, c.color, s, c.up)
  }

  /** `d` goes from the hole to some node, `c` from that node to the root. */
  function Append<T>(d: Path<T>, c: Path<T>): Path<T> {
    match d
    case Top => c
    case InLeft(e, col, sib, up) => InLeft(e, col, sib, Append(up, c))
    case InRight(e, col, sib, up) => InRight(e, col, sib, Append(up, c))
  }

  lemma {:induction false} PlugAppend<T>(d: Path<T>, c: Path<T>, s: Shape<T>)
    ensures Plug(Append(d, c), s) == Plug(c, Plug(d, s))
    decreases d
  {
    match d
    case Top =>
    case InLeft(e, col, sib, up) => PlugAppend(up, c, Fork(s, e, col, sib));
    case InRight(e, col, sib, up) => PlugAppend(up, c, Fork(sib, e, col, s));
  }

  function Length<T>(c: Path<T>): nat {
    if c.Top? then 0 else 1 + Length(c.up)
  }

  // ---- contents and order ----

  function Inorder<T>(s: Shape<T>): seq<Entry<T>> {
    if s.Leaf? then [] else Inorder(s.left) + [s.entry] + Inorder(s.right)
  }

  /** What the in-order walk visits before the hole. */
  function Before<T>(c: Path<T>): seq<Entry<T>> {
    match c
    case Top => []
    case InLeft(_, _, _, up) => Before(up)
    case InRight(e, _, sib, up) => Before(up) + (Inorder(sib) + [e])
  }

  /** What the in-order walk visits after the hole. */
  function After<T>(c: Path<T>): seq<Entry<T>> {
    match c
    case Top => []
    case InLeft(e, _, sib, up) => ([e] + Inorder(sib)) + After(up)
    case InRight(_, _, _, up) => After(up)
  }

  lemma {:induction false} InorderPlug<T>(c: Path<T>, s: Shape<T>)
    ensures Inorder(Plug(c, s)) == Before(c) + Inorder(s) + After(c)
    decreases c
  {
    match c
    case Top =>
    case InLeft(e, col, sib, up) =>
      InorderPlug(up, Fork(s, e, col, sib));
      Regroup(Before(up), Inorder(s), [e], Inorder(sib), After(up));
    case InRight(e, col, sib, up) =>
      InorderPlug(up, Fork(sib, e, col, s));
      Regroup(Before(up), Inorder(sib), [e], Inorder(s), After(up));
  }

  lemma InorderCongruence<T>(c: Path<T>, s: Shape<T>, s': Shape<T>)
    requires Inorder(s) == Inorder(s')
    ensures Inorder(Plug(c, s)) == Inorder(Plug(c, s'))
  {
    InorderPlug(c, s);
    InorderPlug(c, s');
  }

  lemma Regroup<U>(a: seq<U>, b: seq<U>, c: seq<U>, d: seq<U>, e: seq<U>)
    ensures a + (b + c + d) + e == a + b + ((c + d) + e) == (a + (b + c)) + d + e == (a + b) + c + (d + e)
  {
  }

  ghost predicate Sorted<T>(s: seq<Entry<T>>) {
    forall i, j :: 0 <= i < j < |s| ==> s[i].key <= s[j].key
  }

  /** The hole is where a node of key `key` belongs: after everything up to `key`, before the rest. */
  ghost predicate Splits<T>(c: Path<T>, key: int) {
    (forall e <- Before(c) :: e.key <= key) && (forall e <- After(c) :: key < e.key)
  }

  lemma SortedAround<T>(a: seq<Entry<T>>, e: Entry<T>, b: seq<Entry<T>>)
    requires Sorted(a + [e] + b)
    ensures forall f <- a :: f.key <= e.key
    ensures forall f <- b :: e.key <= f.key
  {
    var all := a + [e] + b;
    assert forall k :: 0 <= k < |a| ==> a[k] == all[k];
    assert forall k :: 0 <= k < |b| ==> b[k] == all[|a| + 1 + k];
    assert all[|a|] == e;
  }

  /** What the order says about the node at the hole. */
  lemma SortedAtHole<T>(c: Path<T>, s: Shape<T>)
    requires Sorted(Inorder(Plug(c, s))) && s.Fork?
    ensures forall f <- Inorder(s.left) :: f.key <= s.entry.key
    ensures forall f <- Inorder(s.right) :: s.entry.key <= f.key
  {
    InorderPlug(c, s);
    Regroup(Before(c), Inorder(s.left), [s.entry], Inorder(s.right), After(c));
    SortedAround(Before(c) + Inorder(s.left), s.entry, Inorder(s.right) + After(c));
    forall f <- Inorder(s.left) ensures f.key <= s.entry.key {
      assert f in Before(c) + Inorder(s.left);
    }
    forall f <- Inorder(s.right) ensures s.entry.key <= f.key {
      assert f in Inorder(s.right) + After(c);
    }
  }

  lemma StepLeft<T>(c: Path<T>, s: Shape<T>, key: int)
    requires Sorted(Inorder(Plug(c, s))) && s.Fork? && Splits(c, key) && key < s.entry.key
    ensures Splits(InLeft(s.entry, s.color, s.right, c), key)
  {
    SortedAtHole(c, s);
  }

  lemma StepRight<T>(c: Path<T>, s: Shape<T>, key: int)
    requires Sorted(Inorder(Plug(c, s))) && s.Fork? && Splits(c, key) && s.entry.key <= key
    ensures Splits(InRight(s.entry, s.color, s.left, c), key)
  {
    SortedAtHole(c, s);
  }

  lemma HoleSplits<T>(c: Path<T>, key: int)
    requires Splits(c, key)
    ensures var s, i := Inorder(Plug(c, Leaf)), |Before(c)|;
            && s == Before(c) + After(c)
            && (forall k :: 0 <= k < i ==> s[k].key <= key)
            && (forall k :: i <= k < |s| ==> key < s[k].key)
  {
    InorderPlug(c, Leaf);
    var a, b := Before(c), After(c);
    assert a + [] + b == a + b;
    assert forall k :: 0 <= k < |a| ==> (a + b)[k] in a;
    assert forall k :: |a| <= k < |a + b| ==> (a + b)[k] in b;
  }

  // ---- rotations ----

  /** left_rotate: the right child takes the place of the node; nothing happens without one. */
  function RotateLeft<T>(s: Shape<T>): Shape<T> {
    if s.Fork? && s.right.Fork?
    then Fork(Fork(s.left, s.entry, s.color, s.right.left), s.right.entry, s.right.color, s.right.right)
    else s
  }

  function RotateRight<T>(s: Shape<T>): Shape<T> {
    if s.Fork? && s.left.Fork?
    then Fork(s.left.left, s.left.entry, s.left.color, Fork(s.left.right, s.entry, s.color, s.right))
    else s
  }

  function Paint<T>(s: Shape<T>, col: Color): Shape<T> {
    if s.Leaf? then s else s.(color := col)
  }

  lemma RotateInorder<T>(s: Shape<T>)
    ensures Inorder(RotateLeft(s)) == Inorder(s) == Inorder(RotateRight(s))
    ensures RotateLeft(s) != s ==> RotateRight(RotateLeft(s)) == s
    ensures RotateRight(s) != s ==> RotateLeft(RotateRight(s)) == s
  {
    if s.Fork? && s.right.Fork? {
      var l, e, m, f, r := Inorder(s.left), s.entry, Inorder(s.right.left), s.right.entry, Inorder(s.right.right);
      assert (l + [e] + m) + [f] + r == l + [e] + (m + [f] + r);
    }
    if s.Fork? && s.left.Fork? {
      var l, e, m, f, r := Inorder(s.left.left), s.left.entry, Inorder(s.left.right), s.entry, Inorder(s.right);
      assert (l + [e] + m) + [f] + r == l + [e] + (m + [f] + r);
    }
  }

  lemma StepInorder<T>(c: Path<T>, s: Shape<T>, col: Color)
    ensures Inorder(Plug(c, RotateLeft(s))) == Inorder(Plug(c, s))
    ensures Inorder(Plug(c, RotateRight(s))) == Inorder(Plug(c, s))
    ensures Inorder(Plug(c, Paint(s, col))) == Inorder(Plug(c, s))
  {
    RotateInorder(s);
    InorderCongruence(c, s, RotateLeft(s));
    InorderCongruence(c, s, RotateRight(s));
    InorderCongruence(c, s, Paint(s, col));
  }

  // ---- colour balance ----

  function ColorOf<T>(s: Shape<T>): Color {
    if s.Leaf? then Black else s.color
  }

  ghost predicate NoRedRed<T>(s: Shape<T>) {
    s.Fork? ==>
      && (s.color.Red? ==> ColorOf(s.left).Black? && ColorOf(s.right).Black?)
      && NoRedRed(s.left) && NoRedRed(s.right)
  }

  function BlackHeight<T>(s: Shape<T>): nat {
    if s.Leaf? then 0 else BlackHeight(s.left) + if s.color.Black? then 1 else 0
  }

  ghost predicate EvenBlack<T>(s: Shape<T>) {
    s.Fork? ==> EvenBlack(s.left) && EvenBlack(s.right) && BlackHeight(s.left) == BlackHeight(s.right)
  }

  ghost predicate Balanced<T>(s: Shape<T>) {
    NoRedRed(s) && EvenBlack(s)
  }

  /** The red-black conditions on a whole tree. */
  ghost predicate RedBlack<T>(s: Shape<T>) {
    ColorOf(s).Black? && Balanced(s)
  }

  predicate RedParent<T>(c: Path<T>) {
    !c.Top? && c.color.Red?
  }

  /** The red-black conditions on all of the tree but the hole, which needs black height `h`. */
  ghost predicate Fits<T>(c: Path<T>, h: nat) {
    !c.Top? ==>
      && Balanced(c.sibling) && BlackHeight(c.sibling) == h
      && (c.color.Red? ==> ColorOf(c.sibling).Black? && !c.up.Top? && c.up.color.Black?)
      && Fits(c.up, h + if c.color.Black? then 1 else 0)
  }

  ghost predicate FitsColor<T>(c: Path<T>, col: Color) {
    col.Red? ==> !c.Top? && c.color.Black?
  }

  lemma {:induction false} RedBlackPlug<T>(c: Path<T>, s: Shape<T>)
    ensures RedBlack(Plug(c, s)) <==> Fits(c, BlackHeight(s)) && FitsColor(c, ColorOf(s)) && Balanced(s)
    decreases c
  {
    match c
    case Top =>
    case InLeft(e, col, sib, up) =>
      RedBlackPlug(up, Fork(s, e, col, sib));
    case InRight(e, col, sib, up) =>
      RedBlackPlug(up, Fork(sib, e, col, s));
  }

  // ---- one round of the insertion fix-up, at a red node under a red parent ----

  /** Case 1: parent and uncle turn black and the grandparent, now the node to look at, red. */
  function Recolored<T>(c: Path<T>, s: Shape<T>): Shape<T>
    requires !c.Top? && !c.up.Top?
  {
    Rise(Tint(Beside(c.up, Paint(c.up.sibling, Black)), Red), Rise(Tint(c, Black), s))
  }

  /** Case 2: the node is rotated above its parent, which becomes the node to look at. */
  function InnerPath<T>(c: Path<T>, s: Shape<T>): Path<T>
    requires !c.Top? && s.Fork?
  {
    if c.InRight? then InLeft(s.entry, s.color, s.right, c.up) else InRight(s.entry, s.color, s.left, c.up)
  }

  function InnerShape<T>(c: Path<T>, s: Shape<T>): Shape<T>
    requires !c.Top? && s.Fork?
  {
    if c.InRight? then Fork(c.sibling, c.entry, c.color, s.left) else Fork(s.right, c.entry, c.color, c.sibling)
  }

  /** Case 3: the parent, now black, is rotated above the grandparent, now red. */
  function Outer<T>(c: Path<T>): Path<T>
    requires !c.Top? && !c.up.Top?
  {
    if c.InLeft? then InLeft(c.entry, Black, Fork(c.sibling, c.up.entry, Red, c.up.sibling), c.up.up)
    else InRight(c.entry, Black, Fork(c.up.sibling, c.up.entry, Red, c.sibling), c.up.up)
  }

  ghost predicate RedChild<T>(c: Path<T>, s: Shape<T>) {
    s.Fork? && s.color.Red? && Balanced(s) && Fits(c, BlackHeight(s))
  }

  lemma RecoloredFits<T>(c: Path<T>, s: Shape<T>)
    requires RedChild(c, s) && RedParent(c) && !c.up.Top? && ColorOf(c.up.sibling).Red?
    ensures RedChild(c.up.up, Recolored(c, s))
  {
    assert Fits(c.up, BlackHeight(s));
    assert Balanced(Rise(Tint(c, Black), s));
  }

  lemma InnerFits<T>(c: Path<T>, s: Shape<T>)
    requires RedChild(c, s) && RedParent(c)
    ensures RedChild(InnerPath(c, s), InnerShape(c, s)) && RedParent(InnerPath(c, s))
  {
  }

  lemma OuterFits<T>(c: Path<T>, s: Shape<T>)
    requires RedChild(c, s) && RedParent(c) && !c.up.Top? && ColorOf(c.up.sibling).Black?
    requires c.InLeft? == c.up.InLeft?
    ensures RedChild(Outer(c), s) && !RedParent(Outer(c))
  {
    assert Fits(c.up, BlackHeight(s));
  }

  lemma {:induction false} RootColor<T>(c: Path<T>, s: Shape<T>, s': Shape<T>)
    requires !c.Top?
    ensures ColorOf(Plug(c, s)) == ColorOf(Plug(c, s'))
    ensures c.up.Top? ==> ColorOf(Plug(c, s)) == c.color
    decreases c
  {
    if !c.up.Top? {
      RootColor(c.up, Rise(c, s), Rise(c, s'));
    }
  }

  /** A new red leaf in the place that splits the order at its key. */
  lemma AttachedInorder<T>(c: Path<T>, e: Entry<T>)
    requires Sorted(Inorder(Plug(c, Leaf))) && Splits(c, e.key)
    ensures Inorder(Plug(c, Leaf)) == Before(c) + After(c)
    ensures Inorder(Plug(c, Fork(Leaf, e, Red, Leaf))) == Before(c) + [e] + After(c)
    ensures Sorted(Before(c) + [e] + After(c))
  {
    hide Sorted, Before, After, Plug;
    InorderPlug(c, Leaf);
    InorderPlug(c, Fork(Leaf, e, Red, Leaf));
    assert Before(c) + [] + After(c) == Before(c) + After(c);
    assert Inorder(Fork(Leaf, e, Red, Leaf)) == [e];
    SortedInsert(Before(c), e, After(c));
  }

  lemma SortedInsert<T>(a: seq<Entry<T>>, e: Entry<T>, b: seq<Entry<T>>)
    requires Sorted(a + b) && (forall f <- a :: f.key <= e.key) && (forall f <- b :: e.key <= f.key)
    ensures Sorted(a + [e] + b)
  {
    var s, t := a + b, a + [e] + b;
    assert forall k :: 0 <= k < |a| ==> t[k] == s[k] && t[k] in a;
    assert forall k :: |a| < k < |t| ==> t[k] == s[k - 1] && t[k] in b;
  }

  lemma AttachedFits<T>(c: Path<T>, e: Entry<T>)
    ensures RedBlack(Plug(c, Leaf)) ==> RedChild(c, Fork(Leaf, e, Red, Leaf))
    ensures !c.Top? ==> ColorOf(Plug(c, Leaf)) == ColorOf(Plug(c, Fork(Leaf, e, Red, Leaf)))
  {
    RedBlackPlug(c, Leaf);
    if !c.Top? {
      RootColor(c, Leaf, Fork(Leaf, e, Red, Leaf));
    }
  }

  /** Where a round may leave the node to look at: two levels up, or under a black node that took their place. */
  ghost predicate RoundEnds<T>(c0: Path<T>, c: Path<T>) {
    !c0.Top? && !c0.up.Top? && (c == c0.up.up || (!c.Top? && c.color.Black? && c.up == c0.up.up))
  }

  function FixupMeasure<T>(c: Path<T>): nat {
    if RedParent(c) then 1 + Length(c) else 0
  }

  lemma RoundRootColor<T>(c0: Path<T>, s0: Shape<T>, c: Path<T>, s: Shape<T>)
    requires RoundEnds(c0, c) && RedParent(c0)
    ensures ColorOf(Plug(c0, s0)).Black? ==> c.Top? || ColorOf(Plug(c, s)).Black?
    ensures FixupMeasure(c) < FixupMeasure(c0)
  {
    var up := c0.up.up;
    assert Length(c0) == 2 + Length(up);
    if up.Top? {
      assert !RedParent(c);
      if !c.Top? {
        RootColor(c, s, s);
      }
    } else {
      assert Plug(c0, s0) == Plug(up, Rise(c0.up, Rise(c0, s0)));
      RootColor(up, Rise(c0.up, Rise(c0, s0)), if c == up then s else Rise(c, s));
    }
  }

  /** The loop ends in a tree that only needs a black root. */
  lemma FixupDone<T>(c: Path<T>, s: Shape<T>)
    requires RedChild(c, s) && !RedParent(c)
    ensures RedBlack(Paint(Plug(c, s), Black))
  {
    RedBlackPlug(c, s);
  }

  /** A red sentinel as the uncle sends the fix-up into case 1, which then cannot give a balanced subtree. */
  lemma RedSentinelUnbalances<T>(c: Path<T>, s: Shape<T>)
    requires RedChild(c, s) && RedParent(c) && !c.up.Top? && c.up.sibling.Leaf?
    ensures !RedBlack(Plug(c.up.up, Recolored(c, s)))
  {
    RedBlackPlug(c.up.up, Recolored(c, s));
  }

  function Size<T>(s: Shape<T>): nat {
    if s.Leaf? then 0 else Size(s.left) + 1 + Size(s.right)
  }

  lemma {:induction false} SizeInorder<T>(s: Shape<T>)
    ensures Size(s) == |Inorder(s)|
  {
    if s.Fork? {
      SizeInorder(s.left);
      SizeInorder(s.right);
    }
  }

  function Height<T>(s: Shape<T>): nat {
    if s.Leaf? then 0 else 1 + if Height(s.left) < Height(s.right) then Height(s.right) else Height(s.left)
  }

  function Pow2(n: nat): nat {
    if n == 0 then 1 else 2 * Pow2(n - 1)
  }

  lemma {:induction false} Pow2Monotone(m: nat, n: nat)
    requires m <= n
    ensures Pow2(m) <= Pow2(n)
    decreases n
  {
    if m < n {
      Pow2Monotone(m, n - 1);
    }
  }

  lemma {:induction false} Pow2Sum(m: nat, n: nat)
    ensures Pow2(m + n) == Pow2(m) * Pow2(n)
    decreases m
  {
    if m > 0 {
      Pow2Sum(m - 1, n);
      assert Pow2(m + n) == 2 * Pow2((m - 1) + n);
    }
  }

  lemma {:induction false} BlackHeightBounds<T>(s: Shape<T>)
    requires Balanced(s)
    ensures Height(s) <= 2 * BlackHeight(s) + (if ColorOf(s).Red? then 1 else 0)
    ensures Pow2(BlackHeight(s)) <= Size(s) + 1
  {
    if s.Fork? {
      BlackHeightBounds(s.left);
      BlackHeightBounds(s.right);
    }
  }

  /** Height at most 2 * log2(n + 1), without the logarithm. */
  lemma RedBlackHeight<T>(s: Shape<T>)
    requires RedBlack(s)
    ensures Pow2(Height(s)) <= (Size(s) + 1) * (Size(s) + 1)
  {
    var b := BlackHeight(s);
    BlackHeightBounds(s);
    Pow2Monotone(Height(s), b + b);
    Pow2Sum(b, b);
    MulMonotone(Pow2(b), Size(s) + 1);
  }

  lemma MulMonotone(x: nat, y: nat)
    requires x <= y
    ensures x * x <= y * y
  {
    assert y * y - x * x == (y - x) * (y + x);
  }

  // ---- removal ----

  /** What is left of a node with at most one child once it is spliced out. */
  function Only<T>(s: Shape<T>): Shape<T>
    requires s.Fork?
  {
    if s.left.Leaf? then s.right else s.left
  }

  /** The way from `s` down to its first node. */
  function MinPath<T>(s: Shape<T>, c: Path<T>): (Path<T>, Shape<T>)
    requires s.Fork?
  {
    if s.left.Leaf? then (c, s) else MinPath(s.left, InLeft(s.entry, s.color, s.right, c))
  }

  /** Where a removal leaves a gap: the path to it, what fills it, and the colour that was taken out. */
  datatype Gap<T> = Gap(path: Path<T>, fill: Shape<T>, color: Color)

  function RemovalGap<T>(c: Path<T>, s: Shape<T>): Gap<T>
    requires s.Fork?
  {
    if s.left.Leaf? || s.right.Leaf? then Gap(c, Only(s), s.color)
    else
      var (d, t) := MinPath(s.right, Top);
      if t.Fork? then Gap(Append(d, InRight(t.entry, s.color, s.left, c)), t.right, t.color) else Gap(c, s, s.color)
  }

  lemma {:induction false} MinPathPlug<T>(s: Shape<T>, c: Path<T>)
    requires s.Fork?
    ensures var (d, t) := MinPath(s, c);
            && t.Fork? && t.left.Leaf? && Plug(d, t) == Plug(c, s) && Before(d) == Before(c)
            && Length(c) <= Length(d)
  {
    if s.left.Fork? {
      MinPathPlug(s.left, InLeft(s.entry, s.color, s.right, c));
    }
  }

  lemma {:induction false} PlugFork<T>(c: Path<T>, s: Shape<T>)
    requires !c.Top? || s.Fork?
    ensures Plug(c, s).Fork?
    decreases c
  {
    if !c.Top? {
      PlugFork(c.up, Rise(c, s));
    }
  }

  /** The two steps in which the successor `t` takes the place of a node with two children. */
  lemma InnerGap<T>(c: Path<T>, s: Shape<T>)
    requires s.Fork? && s.left.Fork? && s.right.Fork?
    ensures var (d, t) := MinPath(s.right, Top);
            var c' := InRight(s.entry, s.color, s.left, c);
            var g := RemovalGap(c, s);
            && t.Fork? && t.left.Leaf? && g.fill == t.right && g.color == t.color && Only(t) == t.right
            && Plug(Append(d, c'), t) == Plug(c, s) && Plug(d, t) == s.right
            && Plug(Append(d, c'), t.right) == Plug(c, Fork(s.left, s.entry, s.color, Plug(d, t.right)))
            && Plug(c, Fork(s.left, t.entry, s.color, Plug(d, t.right))) == Plug(g.path, g.fill)
            && (!d.Top? ==> Plug(d, t.right).Fork?)
  {
    MinPathPlug(s.right, Top);
    var (d, t) := MinPath(s.right, Top);
    var c' := InRight(s.entry, s.color, s.left, c);
    PlugAppend(d, c', t);
    PlugAppend(d, c', t.right);
    PlugAppend(d, InRight(t.entry, s.color, s.left, c), t.right);
    if !d.Top? {
      PlugFork(d, t.right);
    }
  }

  /** Two paths that differ in the entries on the way only. */
  ghost predicate SameColors<T>(c: Path<T>, d: Path<T>)
    decreases c
  {
    c.Top? == d.Top? && (!c.Top? ==>
      c.InLeft? == d.InLeft? && c.color == d.color && c.sibling == d.sibling && SameColors(c.up, d.up))
  }

  lemma {:induction false} SameColorsFits<T>(c: Path<T>, d: Path<T>, h: nat)
    requires SameColors(c, d)
    ensures Fits(c, h) == Fits(d, h)
  {
    if !c.Top? {
      SameColorsFits(c.up, d.up, h + if c.color.Black? then 1 else 0);
    }
  }

  lemma {:induction false} SameColorsAppend<T>(d: Path<T>, c: Path<T>, c': Path<T>)
    requires SameColors(c, c')
    ensures SameColors(Append(d, c), Append(d, c'))
  {
    if !d.Top? {
      SameColorsAppend(d.up, c, c');
    }
  }

  lemma {:induction false} SameColorsRefl<T>(c: Path<T>)
    ensures SameColors(c, c)
  {
    if !c.Top? {
      SameColorsRefl(c.up);
    }
  }

  lemma {:induction false} SameColorsRoot<T>(c: Path<T>, d: Path<T>, s: Shape<T>, t: Shape<T>)
    requires SameColors(c, d) && !c.Top?
    ensures ColorOf(Plug(c, s)) == ColorOf(Plug(d, t))
    decreases c
  {
    if c.up.Top? {
      RootColor(c, s, s);
      RootColor(d, t, t);
    } else {
      SameColorsRoot(c.up, d.up, Rise(c, s), Rise(d, t));
    }
  }

  /** Taking a node out: the tree before as seen from the gap, with another entry where the node was. */
  lemma GapBefore<T>(c: Path<T>, s: Shape<T>) returns (d: Path<T>, t: Shape<T>)
    requires s.Fork?
    ensures Plug(d, t) == Plug(c, s) && t.Fork? && (t.left.Leaf? || t.right.Leaf?)
    ensures var g := RemovalGap(c, s);
            g.fill == Only(t) && g.color == t.color && SameColors(g.path, d)
  {
    SameColorsRefl(c);
    if s.left.Leaf? || s.right.Leaf? {
      d, t := c, s;
    } else {
      MinPathPlug(s.right, Top);
      var (e, u) := MinPath(s.right, Top);
      t := u;
      var c0, c1 := InRight(s.entry, s.color, s.left, c), InRight(u.entry, s.color, s.left, c);
      d := Append(e, c0);
      PlugAppend(e, c0, u);
      SameColorsAppend(e, c1, c0);
    }
  }

  lemma GapRootColor<T>(c: Path<T>, s: Shape<T>)
    requires s.Fork? && ColorOf(Plug(c, s)).Black?
    ensures var g := RemovalGap(c, s);
            && (g.path.Top? || ColorOf(Plug(g.path, g.fill)).Black?)
            && (g.color.Red? ==> !g.path.Top?)
  {
    var g := RemovalGap(c, s);
    var d, t := GapBefore(c, s);
    if !g.path.Top? {
      SameColorsRoot(g.path, d, g.fill, t);
    }
  }

  /**
   When a removal keeps a red-black tree balanced: whenever the node taken out was red, or something
   fills its place (it is then painted black), or nothing is left.  A black node replaced by the
   sentinel is not repaired, and the tree is never balanced after it.
   */
  lemma RemovalBalance<T>(c: Path<T>, s: Shape<T>)
    requires s.Fork? && RedBlack(Plug(c, s))
    ensures var g := RemovalGap(c, s);
            && (g.color.Red? ==> g.fill.Leaf? && RedBlack(Plug(g.path, g.fill)))
            && (g.color.Black? && g.fill.Fork? ==> g.fill.color.Red? && RedBlack(Plug(g.path, Paint(g.fill, Black))))
            && (g.color.Black? && g.fill.Leaf? ==> (RedBlack(Plug(g.path, Leaf)) <==> g.path.Top?))
  {
    var g := RemovalGap(c, s);
    var d, t := GapBefore(c, s);
    RedBlackPlug(d, t);
    var fill := if g.color.Red? then g.fill else Paint(g.fill, Black);
    RedBlackPlug(g.path, fill);
    SameColorsFits(g.path, d, BlackHeight(fill));
    SameColorsFits(g.path, d, BlackHeight(t));
    assert BlackHeight(t.left) == BlackHeight(t.right) == 0;
    if g.fill.Fork? {
      assert g.fill.color.Red? by {
        assert BlackHeight(g.fill) == 0;
      }
      assert Balanced(g.fill);
      assert t.color.Black? ==> BlackHeight(fill) == BlackHeight(t) == 1 && Balanced(fill);
    }
  }

  /** The smallest case: of three black nodes a leaf goes, and its black height is lost. */
  lemma BlackLeafUnbalances<T>(a: Entry<T>, b: Entry<T>, c: Entry<T>)
    ensures var s, up := Fork(Leaf, a, Black, Leaf), InLeft(b, Black, Fork(Leaf, c, Black, Leaf), Top);
            && RedBlack(Plug(up, s)) && RemovalGap(up, s) == Gap(up, Leaf, Black)
            && !RedBlack(Plug(up, Leaf))
  {
    var s, up := Fork(Leaf, a, Black, Leaf), InLeft(b, Black, Fork(Leaf, c, Black, Leaf), Top);
    RedBlackPlug(up, s);
    RedBlackPlug(up, Leaf);
  }

  /** The order without the removed entry. */
  lemma RemovalInorder<T>(c: Path<T>, s: Shape<T>)
    requires s.Fork?
    ensures var g, a, b := RemovalGap(c, s), Before(c) + Inorder(s.left), Inorder(s.right) + After(c);
            && Inorder(Plug(c, s)) == a + [s.entry] + b
            && Inorder(Plug(g.path, g.fill)) == a + b
  {
    InorderPlug(c, s);
    Regroup(Before(c), Inorder(s.left), [s.entry], Inorder(s.right), After(c));
    if s.left.Leaf? || s.right.Leaf? {
      SpliceInorder(c, s);
    } else {
      SuccessorInorder(c, s);
    }
  }

  lemma SpliceInorder<T>(c: Path<T>, s: Shape<T>)
    requires s.Fork? && (s.left.Leaf? || s.right.Leaf?)
    ensures Inorder(Plug(c, Only(s))) == (Before(c) + Inorder(s.left)) + (Inorder(s.right) + After(c))
  {
    InorderPlug(c, Only(s));
    if s.left.Leaf? {
      assert Before(c) + Inorder(s.left) == Before(c);
    } else {
      assert Inorder(s.right) + After(c) == After(c);
    }
  }

  lemma SuccessorInorder<T>(c: Path<T>, s: Shape<T>)
    requires s.Fork? && s.left.Fork? && s.right.Fork?
    ensures var g := RemovalGap(c, s);
            Inorder(Plug(g.path, g.fill)) == (Before(c) + Inorder(s.left)) + (Inorder(s.right) + After(c))
  {
    MinPathPlug(s.right, Top);
    var (d, t) := MinPath(s.right, Top);
    var rest := Inorder(t.right) + After(d);
    InorderPlug(d, t);
    InorderPlug(d, t.right);
    assert [] + Inorder(t.right) + After(d) == rest;
    assert Inorder(s.right) == [t.entry] + rest;
    var c' := InRight(t.entry, s.color, s.left, c);
    PlugAppend(d, c', t.right);
    InorderPlug(c', Plug(d, t.right));
    Insert3(Before(c), Inorder(s.left), t.entry, rest, After(c));
  }

  lemma Insert3<U>(a: seq<U>, b: seq<U>, x: U, d: seq<U>, e: seq<U>)
    ensures (a + (b + [x])) + d + e == (a + b) + (([x] + d) + e)
  {
  }

  // ---- colours of the root during the removal fix-up ----

  /** The path after the black sibling `t` is rotated above the parent, which is red. */
  function Turned<T>(c: Path<T>, t: Shape<T>): Path<T>
    requires !c.Top?
  {
    if t.Leaf? then Tint(Beside(c, t), Red)
    else if c.InLeft? then InLeft(c.entry, Red, t.left, InLeft(t.entry, t.color, t.right, c.up))
    else InRight(c.entry, Red, t.right, InRight(t.entry, t.color, t.left, c.up))
  }

  lemma TurnedPlug<T>(c: Path<T>, t: Shape<T>, s: Shape<T>)
    requires !c.Top?
    ensures var p := Rise(Tint(Beside(c, t), Red), s);
            Plug(Turned(c, t), s) == Plug(c.up, if c.InLeft? then RotateLeft(p) else RotateRight(p))
  {
    if t.Fork? {
      var c' := Turned(c, t);
      assert Plug(c', s) == Plug(c'.up, Rise(c', s)) == Plug(c.up, Rise(c'.up, Rise(c', s)));
    }
  }

  /** The sibling `t`, painted black, is rotated above the parent; without one the parent may be a red root. */
  lemma SiblingRootColor<T>(c0: Path<T>, s: Shape<T>, c: Path<T>, t: Shape<T>)
    requires !c0.Top? && ColorOf(Plug(c0, s)).Black? && t == Paint(c0.sibling, Black)
    requires !c.Top? && if t.Leaf? then c.up == c0.up && c.sibling.Leaf?
                        else !c.up.Top? && c.up.up == c0.up && c.up.color.Black?
    ensures ColorOf(Plug(c, s)).Black? || (c.up.Top? && c.sibling.Leaf? && t.Leaf?)
  {
    if c0.up.Top? {
      if t.Fork? {
        RootColor(c.up, Rise(c, s), Rise(c, s));
      }
    } else if t.Leaf? {
      RootColor(c0.up, Rise(c0, s), Rise(c, s));
    } else {
      RootColor(c0.up, Rise(c0, s), Rise(c.up, Rise(c, s)));
    }
  }

  /** The last step: the sibling, painted like the parent, is rotated above it. */
  lemma LastRootColor<T>(c0: Path<T>, s: Shape<T>, t: Shape<T>)
    requires !c0.Top? && ColorOf(Plug(c0, s)).Black?
    requires t.Fork? ==> t.color == c0.color
    ensures var p := Fork(s, c0.entry, Black, t);
            c0.InLeft? ==> ColorOf(Plug(c0.up, RotateLeft(p))).Black?
    ensures var p := Fork(t, c0.entry, Black, s);
            c0.InRight? ==> ColorOf(Plug(c0.up, RotateRight(p))).Black?
  {
    if c0.up.Top? {
      RootColor(c0, s, s);
    } else if c0.InLeft? {
      RootColor(c0.up, Rise(c0, s), RotateLeft(Fork(s, c0.entry, Black, t)));
    } else {
      RootColor(c0.up, Rise(c0, s), RotateRight(Fork(t, c0.entry, Black, s)));
    }
  }

  lemma SideRootColor<T>(c: Path<T>, s: Shape<T>, t: Shape<T>)
    requires !c.Top?
    ensures ColorOf(Plug(Beside(c, t), s)) == ColorOf(Plug(c, s))
  {
    if !c.up.Top? {
      RootColor(c.up, Rise(c, s), Rise(Beside(c, t), s));
    }
  }

  lemma {:induction false} PlugLeaf<T>(c: Path<T>)
    ensures Plug(c, Leaf).Leaf? <==> c.Top?
  {
    if !c.Top? {
      PlugFork(c, Leaf);
    }
  }

  /** The balance of the finished removal, when its fix-up did all it does to a red-black tree. */
  lemma RemovalDone<T>(c: Path<T>, s: Shape<T>, r: Shape<T>)
    requires s.Fork? && RedBlack(Plug(c, s))
    requires var g := RemovalGap(c, s);
             r == if g.color.Black? && g.fill.Fork? then Plug(g.path, Paint(g.fill, Black)) else Plug(g.path, g.fill)
    ensures var g := RemovalGap(c, s);
            RedBlack(r) <==> g.color.Red? || g.fill.Fork? || r.Leaf?
  {
    RemovalBalance(c, s);
    PlugLeaf(RemovalGap(c, s).path);
  }
}
