/** link_list/code.c: front insertion, tail insertion and deletion on one list. */
module LinkListModule {
  import opened Basics
  import opened KernelList

  /** The allocation loop: node i holds step * i.  Stops at the first kmalloc that fails. */
  method Allocate(n: nat, step: int, grants: nat) returns (f: seq<ListNode>)
    ensures |f| == if grants < n then grants else n
    ensures Distinct(f) && fresh(set x | x in f)
    ensures forall i :: 0 <= i < |f| ==> f[i].data == step * i
  {
    f := [];
    while |f| < n && |f| < grants
      invariant |f| <= n && |f| <= grants
      invariant Distinct(f) && fresh(set x | x in f)
      invariant forall i :: 0 <= i < |f| ==> f[i].data == step * i
    {
      var node := new ListNode(step * |f|);
      DistinctSnoc(f, node);
      f := f + [node];
    }
  }

  /** Adding nodes one by one at the front of an empty list leaves them in reverse order. */
  method AddAllFront(list: List, f: seq<ListNode>)
    requires list.Valid() && list.nodes == [] && Distinct(f) && list.head !in f
    modifies list, list.head, f
    ensures list.Valid() && list.nodes == Reverse(f)
    ensures forall x :: x in f ==> x.data == old(x.data)
  {
    assert f[..0] == [];
    for i := 0 to |f|
      invariant list.Valid() && list.nodes == Reverse(f[..i])
      invariant forall x :: x in list.nodes ==> x in f
      invariant forall x :: x in f ==> x.data == old(x.data)
    {
      assert f[i] !in list.nodes by {
        ReverseAt(f[..i]);
        DistinctBefore(f, i);
      }
      list.Add(f[i]);
      assert list.nodes == Reverse(f[..i + 1]) by {
        assert f[..i + 1] == f[..i] + [f[i]];
        ReverseSnoc(f[..i], f[i]);
      }
    }
    assert f[..|f|] == f;
  }

  lemma DropLast<T>(q: seq<T>, x: T)
    requires x !in q
    ensures Index(q + [x], x) == |q| && Drop(q + [x], |q|) == q
  {
    assert (q + [x])[|q|] == x;
    assert forall k :: 0 <= k < |q| ==> (q + [x])[k] == q[k] && q[k] in q;
  }

  /** Tail insertion followed by deletion of the same node restores the list and every pointer in it. */
  method AddTailThenDelete(list: List, temp: ListNode) returns (log: seq<int>)
    requires list.Valid() && temp !in list.nodes && temp != list.head
    modifies list, list.Cells(), temp
    ensures forall x :: x == temp || x in old(list.Cells()) ==> x.data == old(x.data)
    ensures list.Valid() && list.nodes == old(list.nodes)
    ensures forall x :: x == list.head || x in list.nodes ==> x.next == old(x.next) && x.prev == old(x.prev)
    ensures Shows(log, old(list.nodes) + [temp])
  {
    ghost var q := list.nodes;
    list.AddTail(temp);
    log := list.Read();
    DropLast(q, temp);
    list.Del(temp);
    ghost var c := Ring(list.head, q);
    forall x | x == list.head || x in list.nodes ensures x.next == old(x.next) && x.prev == old(x.prev) {
      ghost var i := if x == list.head then |q| else Index(q, x);
      ghost var j := if x == list.head then 0 else i + 1;
      assert LinkAt(c, i) && old(LinkAt(c, i)) && LinkAt(c, j) && old(LinkAt(c, j));
    }
  }

  /** The first-inserted node is the last of the list; without it the rest is unchanged. */
  lemma DropFirstInserted(f: seq<ListNode>)
    requires f != [] && Distinct(f)
    ensures f[0] in Reverse(f) && Index(Reverse(f), f[0]) == |f| - 1
    ensures Drop(Reverse(f), |f| - 1) == Reverse(f[1..])
  {
    ReverseAt(f);
    ReverseAt(f[1..]);
    forall k | 0 < k < |f| ensures f[k] != f[0] {
      assert Differ(f, 0, k);
    }
  }

  lemma DownShows(log: seq<int>, f: seq<ListNode>)
    requires Shows(log, Reverse(f)) && forall i :: 0 <= i < |f| ==> f[i].data == 100 * i
    ensures log == Down(|f|, 100)
  {
    ReverseAt(f);
    forall i | 0 <= i < |f| ensures log[i] == Down(|f|, 100)[i] {
      assert log[i] == f[|f| - 1 - i].data;
    }
  }

  /** list_del of the first-inserted node, and the list printed after it */
  method DeleteFirstInserted(list: List, f: seq<ListNode>, ghost v: seq<int>) returns (log: seq<int>)
    requires list.Valid() && list.nodes == Reverse(f) && Shows(v, list.nodes) && Distinct(f) && f != []
    modifies list, list.Cells()
    ensures list.Valid() && list.nodes == Reverse(f[1..])
    ensures v == log + [old(f[0].data)]
  {
    DropFirstInserted(f);
    ghost var q := list.nodes;
    list.Del(f[0]);
    assert q == list.nodes + [f[0]];
    log := list.Read();
  }

  /** From the printed full list to the end of start. */
  method Exercise(list: List, f: seq<ListNode>) returns (log1: seq<int>, log2: seq<int>, log3: seq<int>)
    requires list.Valid() && list.nodes == Reverse(f) && Distinct(f) && f != []
    modifies list, list.Cells()
    ensures list.Valid() && list.nodes == Reverse(f[1..])
    ensures old(Shows(log1, Reverse(f)))
    ensures log2 == log1 + [1400]
    ensures log1 == log3 + [old(f[0].data)]
  {
    ghost var q := list.nodes;
    assert f[0] in q by { DropFirstInserted(f); }
    log1 := list.Read();
    var temp := new ListNode(1400);
    log2 := AddTailThenDelete(list, temp);
    assert Shows(log1, q);
    log3 := DeleteFirstInserted(list, f, log1);
  }

  /** The module's start, for any number n of nodes; kmalloc grants the first `grants` requests. */
  method Start(n: nat, grants: nat)
    returns (rc: int, list: List, ghost f: seq<ListNode>, log1: seq<int>, log2: seq<int>, log3: seq<int>)
    requires n >= 1
    ensures rc == (if grants < n then -1 else 0)
    ensures list.Valid()
    ensures rc == -1 ==> list.nodes == []
    ensures rc == 0 ==> |f| == n && list.nodes == Reverse(f[1..])
    ensures rc == 0 ==> log1 == Down(n, 100) && log2 == Down(n, 100) + [1400] && Down(n, 100) == log3 + [0]
  {
    rc, log1, log2, log3 := -1, [], [], [];
    list := new List();
    var fvar := Allocate(n, 100, grants);
    f := fvar;
    if |fvar| < n {
      return;
    }
    AddAllFront(list, fvar);
    assert forall x :: x in list.nodes ==> x in f by { ReverseAt(f); }
    ghost var q := list.nodes;
    forall log | Shows(log, q) ensures log == Down(n, 100) {
      DownShows(log, f);
    }
    log1, log2, log3 := Exercise(list, fvar);
    rc := 0;
  }
}
