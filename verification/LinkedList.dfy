/**
 source/kernel/tools/list.c: the intrusive doubly linked list of the kernel.  The nodes of a list, in
 order, are `nodes`; every operation is the one on that sequence.
 */
module LinkedList {
  import opened Sequences

  class ListNode {
    var pre: ListNode?
    var next: ListNode?

    constructor ()
      ensures pre == null && next == null
    {
      pre, next := null, null;
    }
  }

  function Nth(s: seq<ListNode>, i: int): ListNode? {
    if 0 <= i < |s| then s[i] else null
  }

  /** Node `i` is linked to its neighbours. */
  ghost predicate LinkedAt(s: seq<ListNode>, i: nat)
    requires i < |s|
    reads s
  {
    s[i].pre == Nth(s, i - 1) && s[i].next == Nth(s, i + 1)
  }

  predicate Disjoint(s: seq<ListNode>, t: seq<ListNode>) {
    forall i, j :: 0 <= i < |s| && 0 <= j < |t| ==> s[i] != t[j]
  }

  class List {
    var first: ListNode?
    var last: ListNode?
    var count: int
    ghost var nodes: seq<ListNode>

    ghost predicate Valid()
      reads this, nodes
    {
      && NoDup(nodes) && count == |nodes| && first == Nth(nodes, 0) && last == Nth(nodes, |nodes| - 1)
      && forall i :: 0 <= i < |nodes| ==> LinkedAt(nodes, i)
    }

    /** list_init */
    constructor ()
      ensures Valid() && nodes == []
    {
      first, last, count, nodes := null, null, 0, [];
    }

    /** list_insert_first */
    method InsertFirst(n: ListNode)
      requires Valid() && n !in nodes
      modifies this, n, first
      ensures Valid() && nodes == [n] + old(nodes)
    {
      ghost var was := nodes;
      n.next := first;
      n.pre := null;
      if count == 0 {
        last := n;
        first := n;
      } else {
        first.pre := n;
        first := n;
      }
      count := count + 1;
      nodes := [n] + nodes;
      forall i | 0 <= i < |nodes| ensures LinkedAt(nodes, i) {
        if i > 0 { assert old(LinkedAt(was, i - 1)); }
      }
    }

    /** list_insert_last */
    method InsertLast(n: ListNode)
      requires Valid() && n !in nodes
      modifies this, n, last
      ensures Valid() && nodes == old(nodes) + [n]
    {
      ghost var was := nodes;
      n.pre := last;
      n.next := null;
      if count == 0 {
        first := n;
        last := n;
      } else {
        last.next := n;
        last := n;
      }
      count := count + 1;
      nodes := nodes + [n];
      forall i | 0 <= i < |nodes| ensures LinkedAt(nodes, i) {
        if i < |was| { assert old(LinkedAt(was, i)); }
      }
    }

    /** list_insert_behind, `pos` being node `k` */
    method InsertBehind(pos: ListNode, n: ListNode, ghost k: nat)
      requires Valid() && n !in nodes && k < |nodes| && nodes[k] == pos
      modifies this, n, pos, pos.next
      ensures Valid() && nodes == With(old(nodes), k + 1, n)
    {
      ghost var was := nodes;
      assert LinkedAt(nodes, k);
      n.pre := pos;
      n.next := pos.next;
      if pos == last {
        last := n;
      } else {
        pos.next.pre := n;
      }
      pos.next := n;
      count := count + 1;
      nodes := With(nodes, k + 1, n);
      forall i | 0 <= i < |nodes| ensures LinkedAt(nodes, i) {
        if i <= k { assert old(LinkedAt(was, i)); }
        if i > k + 1 { assert old(LinkedAt(was, i - 1)); }
      }
    }

    /** list_insert_front, `pos` being node `k` */
    method InsertFront(pos: ListNode, n: ListNode, ghost k: nat)
      requires Valid() && n !in nodes && k < |nodes| && nodes[k] == pos
      modifies this, n, pos, pos.pre
      ensures Valid() && nodes == With(old(nodes), k, n)
    {
      ghost var was := nodes;
      assert LinkedAt(nodes, k);
      n.next := pos;
      n.pre := pos.pre;
      if pos == first {
        first := n;
      } else {
        pos.pre.next := n;
      }
      pos.pre := n;
      count := count + 1;
      nodes := With(nodes, k, n);
      forall i | 0 <= i < |nodes| ensures LinkedAt(nodes, i) {
        if i < k { assert old(LinkedAt(was, i)); }
        if i > k { assert old(LinkedAt(was, i - 1)); }
      }
    }

    /** list_remove_first */
    method RemoveFirst() returns (n: ListNode?)
      requires Valid()
      modifies this, first, if first == null then null else first.next
      ensures Valid() && n == old(first)
      ensures n == null <==> old(nodes) == []
      ensures n == null ==> nodes == []
      ensures n != null ==> old(nodes) == [n] + nodes && n.pre == null && n.next == null
    {
      if count == 0 {
        return null;
      }
      ghost var was := nodes;
      assert LinkedAt(nodes, 0) && (|nodes| > 1 ==> LinkedAt(nodes, 1));
      n := first;
      first := n.next;
      if first == null {
        last := null;
      } else {
        n.next.pre := null;
      }
      n.next, n.pre := null, null;
      count := count - 1;
      nodes := nodes[1..];
      forall i | 0 <= i < |nodes| ensures LinkedAt(nodes, i) {
        assert old(LinkedAt(was, i + 1));
      }
    }

    /** list_remove of node `k` */
    method Remove(n: ListNode, ghost k: nat)
      requires Valid() && k < |nodes| && nodes[k] == n
      modifies this, n, n.pre, n.next
      ensures Valid() && nodes == Without(old(nodes), k) && n.pre == null && n.next == null
    {
      ghost var was := nodes;
      assert LinkedAt(nodes, k);
      if n == first {
        first := n.next;
      }
      if n == last {
        last := n.pre;
      }
      if n.pre != null {
        n.pre.next := n.next;
      }
      if n.next != null {
        n.next.pre := n.pre;
      }
      n.pre, n.next := null, null;
      count := count - 1;
      nodes := Without(nodes, k);
      forall i | 0 <= i < |nodes| ensures LinkedAt(nodes, i) {
        if i < k { assert old(LinkedAt(was, i)); }
        if i >= k { assert old(LinkedAt(was, i + 1)); }
      }
    }

    /** list_join: the nodes of `from` are moved behind those of this list. */
    method JoinFrom(from: List)
      requires Valid() && from.Valid() && from != this && Disjoint(nodes, from.nodes)
      modifies this, from, last, from.first
      ensures Valid() && from.Valid() && nodes == old(nodes) + old(from.nodes) && from.nodes == []
    {
      if from.count == 0 {
        return;
      }
      ghost var was, more := nodes, from.nodes;
      if count == 0 {
        first, last, count := from.first, from.last, from.count;
      } else {
        last.next := from.first;
        from.first.pre := last;
        last := from.last;
        count := count + from.count;
      }
      from.first, from.last, from.count := null, null, 0;
      nodes, from.nodes := was + more, [];
      forall i | 0 <= i < |nodes| ensures LinkedAt(nodes, i) {
        if i < |was| {
          assert nodes[i] == was[i] && old(LinkedAt(was, i));
        } else {
          assert nodes[i] == more[i - |was|] && old(LinkedAt(more, i - |was|));
        }
      }
    }
  }

  /** `n` put in at index `k`. */
  function With(s: seq<ListNode>, k: nat, n: ListNode): (r: seq<ListNode>)
    requires k <= |s|
    ensures |r| == |s| + 1
    ensures forall i :: 0 <= i < |r| ==> r[i] == if i < k then s[i] else if i == k then n else s[i - 1]
  {
    s[..k] + [n] + s[k..]
  }

  /** The node at index `k` taken out. */
  function Without(s: seq<ListNode>, k: nat): (r: seq<ListNode>)
    requires k < |s|
    ensures |r| == |s| - 1 && forall i :: 0 <= i < |r| ==> r[i] == if i < k then s[i] else s[i + 1]
  {
    s[..k] + s[k + 1..]
  }
}
