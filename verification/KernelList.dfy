/**
  The kernel's circular doubly linked list, as the modules use it: a sentinel and `next`/`prev` fields
  in every node.  The kernel headers are not part of the repository; the primitives below are written
  out as the kernel documents them.  A poisoned pointer is null.
  */
module KernelList {
  import opened Basics

  class ListNode {
    var data: int
    var next: ListNode?
    var prev: ListNode?

    constructor (d: int)
      ensures data == d && next == null && prev == null
    {
      data, next, prev := d, null, null;
    }
  }

  ghost predicate LinkAt(c: seq<ListNode>, i: int)
    reads c
  {
    0 <= i < |c| - 1 ==> c[i].next == c[i + 1] && c[i + 1].prev == c[i]
  }

  /** The pointers from head spell out exactly q, and next and prev are inverse to each other. */
  ghost predicate IsRing(head: ListNode, q: seq<ListNode>)
    reads head, q
  {
    && head !in q
    && Distinct(q)
    && forall i :: 0 <= i <= |q| ==> LinkAt(Ring(head, q), i)
  }

  /** The log is the data of the nodes of q, in order. */
  ghost predicate Shows(log: seq<int>, q: seq<ListNode>)
    reads q
  {
    |log| == |q| && forall i :: 0 <= i < |q| ==> log[i] == q[i].data
  }

  /** A ring is determined by its pointers: no two different lists can be read off the same memory. */
  lemma RingUnique(head: ListNode, p: seq<ListNode>, q: seq<ListNode>)
    requires IsRing(head, p) && IsRing(head, q)
    ensures p == q
  {
    var m := if |p| <= |q| then |p| else |q|;
    RingPrefix(head, p, q, m);
    assert LinkAt(Ring(head, p), m) && LinkAt(Ring(head, q), m);
    assert Ring(head, p)[m + 1] == Ring(head, q)[m + 1];
  }

  lemma {:induction false} RingPrefix(head: ListNode, p: seq<ListNode>, q: seq<ListNode>, k: nat)
    requires IsRing(head, p) && IsRing(head, q) && k <= |p| && k <= |q|
    ensures forall i :: 0 <= i <= k ==> Ring(head, p)[i] == Ring(head, q)[i]
    ensures p[..k] == q[..k]
  {
    if k > 0 {
      RingPrefix(head, p, q, k - 1);
      assert LinkAt(Ring(head, p), k - 1) && LinkAt(Ring(head, q), k - 1);
      assert p[k - 1] == Ring(head, p)[k] && q[k - 1] == Ring(head, q)[k];
    }
  }

  /** list_replace_rcu on raw pointers, whatever they point to.  The old node keeps its next pointer. */
  method ReplaceRcu(x: ListNode, n: ListNode)
    requires x != n && x.next != null && x.prev != null && x.next != x && x.prev != x
    modifies x`prev, n`next, n`prev, x.prev`next, x.next`prev
    ensures x.prev == null
    ensures n.next == if old(x.prev) == n then n else old(x.next)
    ensures n.prev == if old(x.prev) == n || old(x.next) == n then n else old(x.prev)
    ensures old(x.prev) != n ==> old(x.prev).next == n && old(x.next).prev == n
    ensures old(x.prev) == n && old(x.next) != n ==> old(x.next).prev == old(x.next.prev)
  {
    n.next := x.next;
    n.prev := x.prev;
    n.prev.next := n;
    n.next.prev := n;
    x.prev := null;
  }

  class List {
    const head: ListNode
    ghost var nodes: seq<ListNode>

    ghost predicate Valid()
      reads this, head, nodes
    {
      IsRing(head, nodes)
    }

    /** The memory the list is made of. */
    ghost function Cells(): set<ListNode>
      reads this
    {
      {head} + set x | x in nodes
    }

    /** INIT_LIST_HEAD */
    constructor ()
      ensures Valid() && nodes == [] && fresh(head)
    {
      head := new ListNode(0);
      nodes := [];
      new;
      head.next, head.prev := head, head;
      assert Ring(head, []) == [head, head];
    }

    /** list_add, and list_add_rcu for a writer that holds the lock */
    method Add(n: ListNode)
      requires Valid() && n !in nodes && n != head
      modifies this, Cells(), n
      ensures forall x :: x == n || x in old(Cells()) ==> x.data == old(x.data)
      ensures Valid() && nodes == [n] + old(nodes)
    {
      ghost var c := Ring(head, nodes);
      Apart(head, nodes);
      assert LinkAt(c, 0);
      var first := head.next;
      first.prev := n;
      n.next := first;
      n.prev := head;
      head.next := n;
      DistinctCons(n, nodes);
      nodes := [n] + nodes;
      ghost var c' := Ring(head, nodes);
      forall i | 0 <= i <= |nodes| ensures LinkAt(c', i) {
        assert i > 1 ==> old(LinkAt(c, i - 1));
      }
    }

    /** list_add_tail */
    method AddTail(n: ListNode)
      requires Valid() && n !in nodes && n != head
      modifies this, Cells(), n
      ensures forall x :: x == n || x in old(Cells()) ==> x.data == old(x.data)
      ensures Valid() && nodes == old(nodes) + [n]
    {
      ghost var c := Ring(head, nodes);
      Apart(head, nodes);
      assert LinkAt(c, |nodes|);
      var last := head.prev;
      head.prev := n;
      n.next := head;
      n.prev := last;
      last.next := n;
      DistinctSnoc(nodes, n);
      nodes := nodes + [n];
      ghost var c' := Ring(head, nodes);
      forall i | 0 <= i <= |nodes| ensures LinkAt(c', i) {
        assert i < |nodes| - 1 ==> old(LinkAt(c, i));
      }
    }

    /** __list_del: the neighbours of x are joined; the pointers of x itself are not touched. */
    method Unlink(x: ListNode)
      requires Valid() && x in nodes
      modifies this, Cells()
      ensures forall y :: y in old(Cells()) ==> y.data == old(y.data)
      ensures Valid() && nodes == Drop(old(nodes), Index(old(nodes), x))
      ensures x.next == old(x.next) && x.prev == old(x.prev)
    {
      ghost var c, k := Ring(head, nodes), Index(nodes, x);
      Apart(head, nodes);
      assert LinkAt(c, k) && LinkAt(c, k + 1);
      x.next.prev := x.prev;
      x.prev.next := x.next;
      DistinctDrop(nodes, k);
      nodes := Drop(nodes, k);
      ghost var c' := Ring(head, nodes);
      forall i | 0 <= i <= |nodes| ensures LinkAt(c', i) {
        assert old(LinkAt(c, i)) && old(LinkAt(c, i + 1));
      }
    }

    /** list_del: both pointers of the deleted node are poisoned. */
    method Del(x: ListNode)
      requires Valid() && x in nodes
      modifies this, Cells()
      ensures forall y :: y in old(Cells()) ==> y.data == old(y.data)
      ensures Valid() && nodes == Drop(old(nodes), Index(old(nodes), x))
      ensures x.next == null && x.prev == null
    {
      DistinctDrop(nodes, Index(nodes, x));
      Unlink(x);
      x.next, x.prev := null, null;
      assert x !in nodes;
    }

    /** list_del_rcu: readers may still stand on x, so its next pointer stays. */
    method DelRcu(x: ListNode)
      requires Valid() && x in nodes
      modifies this, Cells()
      ensures forall y :: y in old(Cells()) ==> y.data == old(y.data)
      ensures Valid() && nodes == Drop(old(nodes), Index(old(nodes), x))
      ensures x.next == old(x.next) && x.prev == null
    {
      DistinctDrop(nodes, Index(nodes, x));
      Unlink(x);
      x.prev := null;
      assert x !in nodes;
    }

    /** list_for_each_entry over an unchanging list: the values met, in order. */
    method Read() returns (log: seq<int>)
      requires Valid()
      ensures Shows(log, nodes)
    {
      ghost var c := Ring(head, nodes);
      assert LinkAt(c, 0);
      var cur := head.next;
      ghost var i := 0;
      log := [];
      while cur != head
        invariant 0 <= i <= |nodes| && cur == c[i + 1]
        invariant Shows(log, nodes[..i])
        decreases |nodes| - i
      {
        log := log + [cur.data];
        assert LinkAt(c, i + 1);
        cur := cur.next;
        i := i + 1;
      }
    }
  }
}
