/**
  The writer loops of rcu/code.c as a sequential program: both walk the list with a cursor
  and unlink the very node the cursor stands on.
  */
module RcuModule {
  import opened Basics
  import opened KernelList
  import LinkListModule

  // ---------------------------------------------------------------- values

  /** How many of the first i values are x. */
  function Count(v: seq<int>, x: int, i: nat): nat
    requires i <= |v|
  {
    if i == 0 then 0 else Count(v, x, i - 1) + if v[i - 1] == x then 1 else 0
  }

  /** Of the first i elements of q, those whose value is not x. */
  function Omit<T>(q: seq<T>, v: seq<int>, x: int, i: nat): seq<T>
    requires i <= |q| == |v|
  {
    if i == 0 then [] else if v[i - 1] == x then Omit(q, v, x, i - 1) else Omit(q, v, x, i - 1) + [q[i - 1]]
  }

  /** Of the first i elements of q, those whose value is x. */
  function Only<T>(q: seq<T>, v: seq<int>, x: int, i: nat): seq<T>
    requires i <= |q| == |v|
  {
    if i == 0 then [] else if v[i - 1] == x then Only(q, v, x, i - 1) + [q[i - 1]] else Only(q, v, x, i - 1)
  }

  function PlacesOf(v: seq<int>, x: int, i: nat): set<nat> {
    set j: nat | j < i && j < |v| && v[j] == x
  }

  lemma PlacesStep(v: seq<int>, x: int, i: nat)
    requires i < |v|
    ensures i !in PlacesOf(v, x, i)
    ensures PlacesOf(v, x, i + 1) == PlacesOf(v, x, i) + if v[i] == x then {i} else {}
  {
    forall j: nat ensures j in PlacesOf(v, x, i + 1) <==> j in PlacesOf(v, x, i) || (j == i && v[i] == x) {
    }
  }

  /** Count counts places. */
  lemma {:induction false} CountIs(v: seq<int>, x: int, i: nat)
    requires i <= |v|
    ensures Count(v, x, i) == |PlacesOf(v, x, i)|
  {
    if i > 0 {
      CountIs(v, x, i - 1);
      PlacesStep(v, x, i - 1);
    }
  }

  ghost predicate PartedAt<T>(q: seq<T>, v: seq<int>, x: int, j: int, kept: seq<T>, gone: seq<T>) {
    0 <= j < |q| == |v| ==> (q[j] in kept <==> v[j] != x) && (q[j] in gone <==> v[j] == x)
  }

  /**
    Of the first i nodes of q, exactly those whose value is not x are in kept, and those whose value is x in
    gone; both in the order of q.
    */
  ghost predicate Parted<T>(q: seq<T>, v: seq<int>, x: int, i: nat, kept: seq<T>, gone: seq<T>)
    requires i <= |q| == |v|
  {
    && InOrderOf(kept, q) && InOrderOf(gone, q)
    && (forall y :: y in kept ==> y in q[..i]) && (forall y :: y in gone ==> y in q[..i])
    && (forall j :: 0 <= j < i ==> PartedAt(q, v, x, j, kept, gone))
  }

  lemma {:induction false} PartedExactly<T>(q: seq<T>, v: seq<int>, x: int, i: nat)
    requires i <= |q| == |v| && Distinct(q)
    ensures Parted(q, v, x, i, Omit(q, v, x, i), Only(q, v, x, i))
  {
    if i > 0 {
      PartedExactly(q, v, x, i - 1);
      PartOneMore(q, v, x, i - 1, Omit(q, v, x, i - 1), Only(q, v, x, i - 1));
    }
  }

  lemma PartOneMore<T>(q: seq<T>, v: seq<int>, x: int, i: nat, kept: seq<T>, gone: seq<T>)
    requires i < |q| == |v| && Distinct(q) && Parted(q, v, x, i, kept, gone)
    ensures v[i] == x ==> Parted(q, v, x, i + 1, kept, gone + [q[i]])
    ensures v[i] != x ==> Parted(q, v, x, i + 1, kept + [q[i]], gone)
  {
    TakeOneMore(q, i);
    DistinctBefore(q, i);
    InOrderSnoc(gone, q, i);
    InOrderSnoc(kept, q, i);
    forall j | 0 <= j < i ensures PartedAt(q, v, x, j, kept, gone) && q[j] != q[i] {
      assert Differ(q, j, i);
    }
  }

  /** With x at p at most, Omit leaves out that place or nothing. */
  lemma {:induction false} OmitOne(v: seq<int>, x: int, p: nat, i: nat)
    requires i <= |v| && forall j :: 0 <= j < i ==> (v[j] == x <==> j == p)
    ensures Omit(v, v, x, i) == if p < i then v[..p] + v[p + 1..i] else v[..i]
  {
    if i > 0 {
      OmitOne(v, x, p, i - 1);
      TakeOneMore(v, i - 1);
      assert p < i - 1 ==> v[p + 1..i] == v[p + 1..i - 1] + [v[i - 1]];
    }
  }

  /** The list in the middle of the delete loop: what was kept of the first i nodes, then the rest. */
  ghost function Midway(q: seq<ListNode>, v: seq<int>, x: int, i: nat): seq<ListNode>
    requires i <= |q| == |v|
  {
    Omit(q, v, x, i) + q[i..]
  }

  lemma Seam<T>(head: T, kept: seq<T>, q: seq<T>, i: nat)
    requires i < |q|
    ensures var m, k := kept + q[i..], |kept|;
      && m[k] == q[i] && Ring(head, m)[k + 2] == Ring(head, q)[i + 2]
      && Drop(m, k) == kept + q[i + 1..] && m == kept + [q[i]] + q[i + 1..]
  {
    var m, k := kept + q[i..], |kept|;
    assert i + 1 < |q| ==> m[k + 1] == q[i + 1];
    assert Ring(head, m)[k + 2] == if i + 1 < |q| then m[k + 1] else head;
    assert m[k + 1..] == q[i + 1..] && m[..k] == kept;
    assert q[i..] == [q[i]] + q[i + 1..];
  }

  lemma MidwayStep(head: ListNode, q: seq<ListNode>, v: seq<int>, x: int, i: nat) returns (k: nat)
    requires i < |q| == |v|
    ensures k < |Midway(q, v, x, i)| && Midway(q, v, x, i)[k] == q[i]
    ensures Ring(head, Midway(q, v, x, i))[k + 2] == Ring(head, q)[i + 2]
    ensures Midway(q, v, x, i + 1) == if v[i] == x then Drop(Midway(q, v, x, i), k) else Midway(q, v, x, i)
  {
    k := |Omit(q, v, x, i)|;
    Seam(head, Omit(q, v, x, i), q, i);
  }

  // ---------------------------------------------------------------- the lock

  /** spin_lock and spin_unlock of mylist_lock, as the thread calls them. */
  datatype LockCall = Lock | Unlock

  /** n times a lock and its unlock. */
  function Pairs(n: nat): seq<LockCall> {
    if n == 0 then [] else Pairs(n - 1) + [Lock, Unlock]
  }

  lemma {:induction false} PairsAlternate(n: nat)
    ensures |Pairs(n)| == 2 * n && forall i :: 0 <= i < 2 * n ==> Pairs(n)[i] == if i % 2 == 0 then Lock else Unlock
  {
    if n > 0 {
      PairsAlternate(n - 1);
    }
  }

  function Unlocks(n: nat): (u: seq<LockCall>)
    ensures |u| == n && forall i :: 0 <= i < n ==> u[i] == Unlock
  {
    seq(n, i => Unlock)
  }

  lemma {:induction false} PairsAdd(m: nat, n: nat)
    ensures Pairs(m) + Pairs(n) == Pairs(m + n)
  {
    if n > 0 {
      PairsAdd(m, n - 1);
      assert Pairs(m) + Pairs(n) == Pairs(m) + Pairs(n - 1) + [Lock, Unlock];
    }
  }

  lemma BalancedIff(k: nat)
    ensures [Lock] + Unlocks(if k == 0 then 1 else k) == Pairs(1) <==> k <= 1
  {
    assert Pairs(1) == Pairs(0) + [Lock, Unlock];
    assert k <= 1 ==> [Lock] + Unlocks(1) == Pairs(1);
  }

  /** The build loop: each node goes to the front, under the lock. */
  method Build(list: List, val: seq<ListNode>) returns (calls: seq<LockCall>)
    requires list.Valid() && list.nodes == [] && Distinct(val) && list.head !in val
    modifies list, list.Cells(), val
    ensures list.Valid() && list.nodes == Reverse(val)
    ensures forall x :: x in val ==> x.data == old(x.data)
    ensures calls == Pairs(|val|)
  {
    calls := [];
    assert val[..0] == [];
    for i := 0 to |val|
      invariant list.Valid() && list.nodes == Reverse(val[..i])
      invariant forall x :: x in val ==> x.data == old(x.data)
      invariant calls == Pairs(i)
    {
      ReverseAt(val[..i]);
      DistinctBefore(val, i);
      TakeOneMore(val, i);
      ReverseSnoc(val[..i], val[i]);
      calls := calls + [Lock];
      list.Add(val[i]);
      calls := calls + [Unlock];
    }
    assert val[..|val|] == val;
  }

  // ---------------------------------------------------------------- the update loop

  /** Up to place f the pointers follow c, and from there they lead to n, whose prev pointer leads elsewhere. */
  ghost predicate Torn(head: ListNode, q: seq<ListNode>, f: nat, n: ListNode)
    reads head, q, n
  {
    && f < |q| && n !in q && n != head && head !in q
    && (forall j :: 0 <= j < f ==> Ring(head, q)[j].next == Ring(head, q)[j + 1])
    && Ring(head, q)[f].next == n
    && n.prev != Ring(head, q)[f]
  }

  /** Once torn, the pointers from head are no ring of any list at all. */
  lemma TornIsNoRing(head: ListNode, q: seq<ListNode>, f: nat, n: ListNode, p: seq<ListNode>)
    requires Torn(head, q, f, n)
    ensures !IsRing(head, p)
  {
    if IsRing(head, p) {
      assert LinkAt(Ring(head, p), f);
      TornPrefix(head, q, f, n, p, f);
    }
  }

  lemma {:induction false} TornPrefix(head: ListNode, q: seq<ListNode>, f: nat, n: ListNode, p: seq<ListNode>, j: nat)
    requires Torn(head, q, f, n) && IsRing(head, p) && j <= f
    ensures j <= |p| && Ring(head, p)[j] == Ring(head, q)[j]
  {
    if j > 0 {
      TornPrefix(head, q, f, n, p, j - 1);
      assert LinkAt(Ring(head, p), j - 1);
      assert Ring(head, q)[j] == q[j - 1];
    }
  }

  /** Where the pointers stand when the update loop has passed i nodes, of which the first match was at f. */
  ghost predicate Updated(head: ListNode, q: seq<ListNode>, n: ListNode, i: nat, k: nat, f: nat)
    requires i <= |q|
    reads head, q, n
  {
    var c := Ring(head, q);
    && (forall j :: i < j <= |q| ==> LinkAt(c, j))
    && (k == 0 ==> IsRing(head, q))
    && (k > 0 ==> f < i && (c[i + 1].prev == n || c[i + 1].prev == c[i]))
    && (k == 1 ==> IsRing(head, q[f := n]))
    && (k > 0 ==> c[f].next == n && forall j :: 0 <= j < f ==> c[j].next == c[j + 1])
    && (k > 1 ==> n.prev != c[f])
  }

  lemma Skip(head: ListNode, q: seq<ListNode>, n: ListNode, i: nat, k: nat, f: nat)
    requires i < |q| && Updated(head, q, n, i, k, f)
    ensures Updated(head, q, n, i + 1, k, f)
  {
    assert LinkAt(Ring(head, q), i + 1);
  }

  lemma NoRingLeft(head: ListNode, q: seq<ListNode>, n: ListNode, k: nat, f: nat)
    requires Updated(head, q, n, |q|, k, f) && k > 1 && n !in q && n != head && head !in q
    ensures forall p :: !IsRing(head, p)
  {
    forall p ensures !IsRing(head, p) {
      TornIsNoRing(head, q, f, n, p);
    }
  }

  /** The body of the update loop on a node that holds 10. */
  method Replace(head: ListNode, ghost q: seq<ListNode>, x: ListNode, n: ListNode,
                 ghost i: nat, ghost k: nat, ghost f: nat)
    requires i < |q| && x == q[i] && n !in q && n != head && head !in q && Distinct(q)
    requires Updated(head, q, n, i, k, f)
    modifies head, q, n
    ensures Updated(head, q, n, i + 1, k + 1, if k == 0 then i else f)
    ensures x.next == old(x.next)
    ensures n.data == 1400 && forall y :: y in q ==> y.data == old(y.data)
  {
    ghost var c := Ring(head, q);
    Apart(head, q);
    assert c[i + 1] == x && LinkAt(c, i + 1);
    assert k == 0 ==> LinkAt(c, i);
    n.data := 1400;
    ReplaceRcu(x, n);
    forall j | i + 1 < j <= |q| ensures LinkAt(c, j) {
      assert old(LinkAt(c, j));
    }
    if k == 0 {
      forall j | 0 <= j < i ensures c[j].next == c[j + 1] {
        assert old(LinkAt(c, j));
      }
      ghost var c' := Ring(head, q[i := n]);
      forall j | 0 <= j <= |q| ensures LinkAt(c', j) {
        assert old(LinkAt(c, j));
      }
      DistinctUpdate(q, i, n);
    }
  }

  method UpdateBody(head: ListNode, ghost q: seq<ListNode>, ghost v: seq<int>, x: ListNode, n: ListNode,
                    ghost i: nat, ghost k: nat, ghost f: nat)
    returns (next: ListNode, hit: bool, ghost f': nat)
    requires i < |q| && x == q[i] && n !in q && n != head && head !in q && Distinct(q)
    requires Updated(head, q, n, i, k, f) && Shows(v, q)
    modifies head, q, n
    ensures next == Ring(head, q)[i + 2] && Shows(v, q)
    ensures hit == (v[i] == 10) && f' == if hit && k == 0 then i else f
    ensures Updated(head, q, n, i + 1, if hit then k + 1 else k, f')
    ensures n.data == if v[i] == 10 then 1400 else old(n.data)
  {
    hit, f' := x.data == 10, f;
    assert LinkAt(Ring(head, q), i + 1);
    if hit {
      Replace(head, q, x, n, i, k, f);
      f' := if k == 0 then i else f;
    } else {
      Skip(head, q, n, i, k, f);
    }
    next := x.next;
  }

  /**
    The update loop: every node holding 10 is replaced by the one static new_node.  Although the cursor's
    node is unlinked under it, the walk visits each original node exactly once.  The pointers are a ring
    again exactly when at most one node held 10, and then it is the old list with that place taken by n.
    The lock is taken and released once for each match.
    */
  method Update(list: List, ghost v: seq<int>, n: ListNode)
    returns (calls: seq<LockCall>, ghost visited: seq<ListNode>, ghost at: nat)
    requires list.Valid() && Shows(v, list.nodes) && n !in list.nodes && n != list.head
    modifies list, list.Cells(), n
    ensures visited == old(list.nodes) && Shows(v, old(list.nodes))
    ensures calls == Pairs(Count(v, 10, |v|))
    ensures var q := old(list.nodes); var k := Count(v, 10, |v|);
      && (k == 0 ==> list.Valid() && list.nodes == q && n.data == old(n.data))
      && (k > 0 ==> n.data == 1400)
      && (k == 1 ==> at < |q| && v[at] == 10 && list.Valid() && list.nodes == q[at := n])
      && (k > 1 ==> forall p :: !IsRing(list.head, p))
  {
    ghost var q, c := list.nodes, Ring(list.head, list.nodes);
    ghost var i, k := 0, 0;
    calls, visited, at := [], [], 0;
    assert LinkAt(c, 0);
    var cur: ListNode := list.head.next;
    while cur != list.head
      invariant 0 <= i <= |q| && cur == c[i + 1] && visited == q[..i]
      invariant k == Count(v, 10, i) && Updated(list.head, q, n, i, k, at)
      invariant k == 1 ==> v[at] == 10
      invariant calls == Pairs(k)
      invariant n.data == if k == 0 then old(n.data) else 1400
      invariant list.nodes == q && Shows(v, q)
      decreases |q| - i
    {
      TakeOneMore(q, i);
      visited := visited + [cur];
      var hit;
      cur, hit, at := UpdateBody(list.head, q, v, cur, n, i, k, at);
      if hit {
        calls := calls + [Lock, Unlock];
        k := k + 1;
      }
      i := i + 1;
    }
    if k == 1 {
      list.nodes := q[at := n];
    } else if k > 1 {
      NoRingLeft(list.head, q, n, k, at);
    }
  }

  // ---------------------------------------------------------------- the delete loop

  /** list_del_rcu of the k-th node or nothing, and the hop off it. */
  method DeleteIf(list: List, x: ListNode, ghost k: nat, hit: bool) returns (next: ListNode)
    requires list.Valid() && k < |list.nodes| && list.nodes[k] == x
    modifies list, list.Cells()
    ensures list.Valid() && list.nodes == if hit then Drop(old(list.nodes), k) else old(list.nodes)
    ensures next == Ring(list.head, old(list.nodes))[k + 2]
    ensures forall y :: y in list.nodes ==> y in old(list.nodes)
    ensures forall y :: y in old(list.Cells()) ==> y.data == old(y.data)
  {
    assert LinkAt(Ring(list.head, list.nodes), k + 1);
    if hit {
      IndexIs(list.nodes, k);
      DistinctDrop(list.nodes, k);
      list.DelRcu(x);
    }
    next := x.next;
  }

  method DeleteBody(list: List, ghost q: seq<ListNode>, ghost v: seq<int>, x: ListNode, ghost i: nat)
    returns (next: ListNode, hit: bool)
    requires i < |q| && x == q[i] && list.Valid() && Shows(v, q) && list.nodes == Midway(q, v, 20, i)
    modifies list, list.Cells()
    ensures next == Ring(list.head, q)[i + 2] && Shows(v, q)
    ensures hit == (v[i] == 20)
    ensures list.Valid() && list.nodes == Midway(q, v, 20, i + 1)
    ensures forall y :: y in list.nodes ==> y in old(list.nodes)
  {
    ghost var k := MidwayStep(list.head, q, v, 20, i);
    hit := x.data == 20;
    next := DeleteIf(list, x, k, hit);
  }

  /** The nodes handed to call_rcu in the first i rounds are among the first i, and there is one per match. */
  lemma {:induction false} OnlyFacts(q: seq<ListNode>, v: seq<int>, x: int, i: nat)
    requires i <= |q| == |v|
    ensures |Only(q, v, x, i)| == Count(v, x, i)
    ensures forall y :: y in Only(q, v, x, i) ==> y in q[..i]
  {
    if i > 0 {
      OnlyFacts(q, v, x, i - 1);
      TakeOneMore(q, i - 1);
    }
  }

  function Below(s: set<nat>, n: nat): set<nat> {
    set k | k in s && k < n
  }

  /** Node x has been freed by one of the callbacks that have run. */
  predicate IsFreed(cs: seq<ListNode>, freed: set<nat>, x: ListNode) {
    exists k | k in freed :: k < |cs| && cs[k] == x
  }

  /**
    The rounds of the delete loop that hop off a freed node, when `ran(i)` names the callbacks, numbered as
    they were handed to call_rcu, that run before the hop of round i.
    */
  function DanglingHops(v: seq<int>, ran: nat -> set<nat>): set<nat> {
    set i: nat | i < |v| && v[i] == 20 && Count(v, 20, i) in ran(i)
  }

  /**
    In round i the node under the cursor is not yet freed when its data is looked at, and is freed when
    the cursor leaves it exactly when its own callback, just scheduled, has run.
    */
  lemma CursorFreed(q: seq<ListNode>, v: seq<int>, i: nat, freed: set<nat>, ran: set<nat>)
    requires i < |q| == |v| && Distinct(q) && (forall k :: k in freed ==> k < Count(v, 20, i))
    ensures var cs := Only(q, v, 20, i + 1);
      var freed' := freed + Below(ran, |cs|);
      && (forall k :: k in freed' ==> k < Count(v, 20, i + 1) == |cs|)
      && !IsFreed(Only(q, v, 20, i), freed, q[i])
      && (IsFreed(cs, freed', q[i]) <==> v[i] == 20 && Count(v, 20, i) in ran)
  {
    OnlyFacts(q, v, 20, i);
    OnlyFacts(q, v, 20, i + 1);
    DistinctBefore(q, i);
    var was, cs := Only(q, v, 20, i), Only(q, v, 20, i + 1);
    var freed' := freed + Below(ran, |cs|);
    if v[i] == 20 {
      assert cs == was + [q[i]] && cs[|was|] == q[i];
      assert forall k: nat :: k < |was| ==> cs[k] == was[k] && was[k] in q[..i];
      assert |was| in ran ==> |was| in freed';
    } else {
      assert cs == was;
      assert forall k: nat :: k < |was| ==> was[k] in q[..i];
    }
  }

  /** The callbacks that have run before round i: those named for an earlier round and scheduled by then. */
  function FreedBefore(v: seq<int>, ran: nat -> set<nat>, i: nat): set<nat>
    requires i <= |v|
  {
    if i == 0 then {} else FreedBefore(v, ran, i - 1) + Below(ran(i - 1), Count(v, 20, i))
  }

  lemma {:induction false} FreedAreScheduled(v: seq<int>, ran: nat -> set<nat>, i: nat)
    requires i <= |v|
    ensures forall k :: k in FreedBefore(v, ran, i) ==> k < Count(v, 20, i)
  {
    if i > 0 {
      FreedAreScheduled(v, ran, i - 1);
    }
  }

  /** Whichever callbacks run, the node whose data round i looks at has not been freed by then. */
  lemma BodiesAreSafe(q: seq<ListNode>, v: seq<int>, ran: nat -> set<nat>, i: nat)
    requires i < |q| == |v| && Distinct(q)
    ensures !IsFreed(Only(q, v, 20, i), FreedBefore(v, ran, i), q[i])
  {
    FreedAreScheduled(v, ran, i);
    CursorFreed(q, v, i, FreedBefore(v, ran, i), ran(i));
  }

  /** What the loop has called, and what has been freed, after i rounds. */
  datatype Ledger = Ledger(callbacks: seq<ListNode>, calls: seq<LockCall>, flag: int, freed: set<nat>,
                          hops: set<nat>)       // the rounds that followed the next pointer of a freed node

  ghost predicate Booked(q: seq<ListNode>, v: seq<int>, ran: nat -> set<nat>, i: nat, g: Ledger)
    requires i <= |q| == |v|
  {
    && g.callbacks == Only(q, v, 20, i)
    && g.calls == [Lock] + Unlocks(Count(v, 20, i))
    && g.flag == (if Count(v, 20, i) == 0 then 0 else 1)
    && g.freed == FreedBefore(v, ran, i)
    && g.hops == set j: nat | j < i && v[j] == 20 && Count(v, 20, j) in ran(j)
  }

  /** The calls of one round; then the callbacks in `due` run, and the cursor leaves x. */
  function Book(g: Ledger, x: ListNode, hit: bool, due: set<nat>, i: nat): Ledger {
    var cs := if hit then g.callbacks + [x] else g.callbacks;
    var freed := g.freed + Below(due, |cs|);
    Ledger(cs,
           if hit then g.calls + [Unlock] else g.calls,
           if hit then 1 else g.flag,
           freed,
           if IsFreed(cs, freed, x) then g.hops + {i} else g.hops)
  }

  lemma BookKept(q: seq<ListNode>, v: seq<int>, ran: nat -> set<nat>, i: nat, g: Ledger)
    requires i < |q| == |v| && Distinct(q) && Booked(q, v, ran, i, g)
    ensures Booked(q, v, ran, i + 1, Book(g, q[i], v[i] == 20, ran(i), i))
  {
    FreedAreScheduled(v, ran, i);
    CursorFreed(q, v, i, g.freed, ran(i));
    OnlyFacts(q, v, 20, i + 1);
    var g' := Book(g, q[i], v[i] == 20, ran(i), i);
    assert g'.callbacks == Only(q, v, 20, i + 1);
    assert g'.freed == FreedBefore(v, ran, i + 1);
  }

  /** The loop itself: one round per node of the list as it was. */
  method DeleteLoop(list: List, ghost v: seq<int>, ran: nat -> set<nat>) returns (g: Ledger)
    requires list.Valid() && Shows(v, list.nodes)
    modifies list, list.Cells()
    ensures list.Valid() && Shows(v, old(list.nodes))
    ensures list.nodes == Omit(old(list.nodes), v, 20, |v|)
    ensures Booked(old(list.nodes), v, ran, |v|, g)
  {
    ghost var q, c := list.nodes, Ring(list.head, list.nodes);
    var i := 0;
    g := Ledger([], [Lock], 0, {}, {});
    assert LinkAt(c, 0);
    var cur: ListNode := list.head.next;
    while cur != list.head
      invariant 0 <= i <= |q| && cur == c[i + 1]
      invariant list.Valid() && list.nodes == Midway(q, v, 20, i)
      invariant forall y :: y in list.nodes ==> y in q
      invariant Booked(q, v, ran, i, g)
      invariant Shows(v, q) && list.head !in q && Distinct(q)
      decreases |q| - i
    {
      var x, hit := cur, false;
      cur, hit := DeleteBody(list, q, v, x, i);
      BookKept(q, v, ran, i, g);
      g := Book(g, x, hit, ran(i), i);
      i := i + 1;
    }
    assert i == |q| && q[|q|..] == [];
  }

  /** The unlock after the loop, when there was no match. */
  function LastUnlock(g: Ledger): Ledger {
    if g.flag == 0 then g.(calls := g.calls + [Unlock]) else g
  }

  /** Everything the loop did, for the nodes q it found with values v. */
  ghost predicate Deleted(q: seq<ListNode>, v: seq<int>, ran: nat -> set<nat>, kept: seq<ListNode>, g: Ledger) {
    var k := Count(v, 20, |v|);
    && |q| == |v| && Parted(q, v, 20, |v|, kept, g.callbacks) && |g.callbacks| == k
    && g.calls == [Lock] + Unlocks(if k == 0 then 1 else k)
    && (g.calls == Pairs(1) <==> k <= 1)
    && g.flag == (if k == 0 then 0 else 1)
    && (forall j :: j in g.freed ==> j < k && g.callbacks[j] in q && g.callbacks[j] !in kept)
    && g.freed == FreedBefore(v, ran, |v|) && g.hops == DanglingHops(v, ran)
  }

  lemma GoneIsNotKept<T>(q: seq<T>, v: seq<int>, x: int, kept: seq<T>, gone: seq<T>, y: T)
    requires |q| == |v| && Parted(q, v, x, |v|, kept, gone) && y in gone
    ensures y in q && v[Index(q, y)] == x && y !in kept
  {
    assert PartedAt(q, v, x, Index(q, y), kept, gone);
  }

  lemma DeletedAll(q: seq<ListNode>, v: seq<int>, ran: nat -> set<nat>, g: Ledger)
    requires |q| == |v| && Distinct(q) && Booked(q, v, ran, |v|, g)
    ensures Deleted(q, v, ran, Omit(q, v, 20, |v|), LastUnlock(g))
  {
    PartedExactly(q, v, 20, |v|);
    OnlyFacts(q, v, 20, |v|);
    BalancedIff(Count(v, 20, |v|));
    FreedAreScheduled(v, ran, |v|);
    forall j | j in g.freed
      ensures j < Count(v, 20, |v|) && g.callbacks[j] in q && g.callbacks[j] !in Omit(q, v, 20, |v|)
    {
      GoneIsNotKept(q, v, 20, Omit(q, v, 20, |v|), g.callbacks, g.callbacks[j]);
    }
  }

  /**
    The delete loop: every node holding 20 is unlinked and handed to call_rcu while the cursor stands on
    it, and the callbacks named by `ran` run meanwhile.  Exactly those nodes go, the others stay in their
    order, the lock taken once is released max(1, k) times for k matches, and the hops off freed memory
    are those made right after the node's own callback.
    */
  method Delete(list: List, ghost v: seq<int>, ran: nat -> set<nat>) returns (g: Ledger)
    requires list.Valid() && Shows(v, list.nodes)
    modifies list, list.Cells()
    ensures list.Valid() && Shows(v, old(list.nodes))
    ensures list.nodes == Omit(old(list.nodes), v, 20, |v|)
    ensures Deleted(old(list.nodes), v, ran, list.nodes, g) && InOrderOf(list.nodes, old(list.nodes))
    ensures forall y :: y in old(list.nodes) ==> (y in list.nodes <==> old(y.data) != 20)
  {
    ghost var q := list.nodes;
    g := DeleteLoop(list, v, ran);
    DeletedAll(q, v, ran, g);
    g := LastUnlock(g);
    forall y | y in q ensures y in list.nodes <==> old(y.data) != 20 {
      assert PartedAt(q, v, 20, Index(q, y), list.nodes, g.callbacks);
    }
  }

  /** Some order of events makes the delete loop hop off freed memory exactly when it deletes anything at all. */
  lemma CanDangleIff(v: seq<int>)
    ensures (exists ran: nat -> set<nat> :: DanglingHops(v, ran) != {}) <==> Count(v, 20, |v|) >= 1
  {
    CountFacts(v, 20, |v|);
    assert v[..|v|] == v;
    if 20 in v {
      var i := Index(v, 20);
      var ran: nat -> set<nat> := (j: nat) => if j <= |v| then {Count(v, 20, j)} else {};
      assert i in DanglingHops(v, ran);
    }
  }

  // ---------------------------------------------------------------- start

  function Subst(v: seq<int>, x: int, y: int): (r: seq<int>)
    ensures |r| == |v| && forall i :: 0 <= i < |v| ==> r[i] == if v[i] == x then y else v[i]
  {
    seq(|v|, i requires 0 <= i < |v| => if v[i] == x then y else v[i])
  }

  lemma {:induction false} CountFacts(v: seq<int>, x: int, n: nat)
    requires n <= |v|
    ensures Count(v, x, n) == 0 <==> x !in v[..n]
    ensures (forall i, j :: 0 <= i < j < n ==> v[i] != x || v[j] != x) ==> Count(v, x, n) <= 1
  {
    if n > 0 {
      CountFacts(v, x, n - 1);
      TakeOneMore(v, n - 1);
    }
  }

  lemma {:induction false} OmitShows(q: seq<ListNode>, v: seq<int>, x: int, i: nat)
    requires Shows(v, q) && i <= |q|
    ensures Shows(Omit(v, v, x, i), Omit(q, v, x, i))
  {
    if i > 0 {
      OmitShows(q, v, x, i - 1);
    }
  }

  /** The values of the build loop are all different, and stay so far enough after the update. */
  lemma BuiltValues(n: nat)
    ensures var v := Down(n, 10); var w := Subst(v, 10, 1400);
      && Count(v, 10, |v|) == (if n > 1 then 1 else 0)
      && (forall i, j :: 0 <= i < j < |v| ==> v[i] != v[j])
      && Count(w, 20, |w|) == (if n > 2 then 1 else 0)
  {
    var v := Down(n, 10);
    var w := Subst(v, 10, 1400);
    CountFacts(v, 10, |v|);
    CountFacts(w, 20, |w|);
    assert n > 1 ==> v[n - 2] == 10;
    assert n > 2 ==> w[n - 3] == 20;
  }

  /** After the update 20 is third from the end, if it is there at all. */
  lemma LastRead(n: nat)
    ensures var w := Subst(Down(n, 10), 10, 1400);
      Omit(w, w, 20, |w|) == if n <= 2 then w else w[..n - 3] + w[n - 2..]
  {
    var w := Subst(Down(n, 10), 10, 1400);
    forall j | 0 <= j < n ensures w[j] == 20 <==> j == n - 3 {
      assert Down(n, 10)[j] == 10 * (n - 1 - j);
    }
    OmitOne(w, 20, if n <= 2 then n else n - 3, n);
    assert w[..n] == w && (n > 2 ==> w[n - 2..n] == w[n - 2..]);
  }

  /** Read, update and read again: the printed values differ by 10 turned into 1400. */
  method ReadUpdateRead(list: List, ghost v: seq<int>, n: ListNode)
    returns (log0: seq<int>, log1: seq<int>, calls: seq<LockCall>)
    requires list.Valid() && Shows(v, list.nodes) && n !in list.nodes && n != list.head
    requires forall i, j :: 0 <= i < j < |v| ==> v[i] != v[j]
    modifies list, list.Cells(), n
    ensures log0 == v
    ensures list.Valid() && Shows(log1, list.nodes) && log1 == Subst(v, 10, 1400)
    ensures forall x :: x in list.nodes ==> x == n || x in old(list.nodes)
    ensures calls == Pairs(Count(v, 10, |v|))
  {
    log0 := list.Read();
    assert Count(v, 10, |v|) <= 1 by { CountFacts(v, 10, |v|); }
    assert Count(v, 10, |v|) == 0 ==> 10 !in v by { CountFacts(v, 10, |v|); }
    ghost var visited, at;
    calls, visited, at := Update(list, v, n);
    log1 := list.Read();
  }

  method DeleteAndRead(list: List, ghost v: seq<int>, ran: nat -> set<nat>) returns (log: seq<int>, g: Ledger)
    requires list.Valid() && Shows(v, list.nodes)
    modifies list, list.Cells()
    ensures list.Valid() && Shows(log, list.nodes) && log == Omit(v, v, 20, |v|)
    ensures |g.callbacks| == Count(v, 20, |v|) && forall x :: x in g.callbacks ==> x.data == 20
    ensures g.calls == [Lock] + Unlocks(if Count(v, 20, |v|) == 0 then 1 else Count(v, 20, |v|))
    ensures g.hops == DanglingHops(v, ran)
  {
    ghost var q := list.nodes;
    g := Delete(list, v, ran);
    OmitShows(q, v, 20, |q|);
    forall x | x in g.callbacks ensures x.data == 20 {
      GoneIsNotKept(q, v, 20, list.nodes, g.callbacks, x);
    }
    log := list.Read();
  }

  /** From the first read to the last. */
  method Exercise(list: List, ghost v: seq<int>, n: ListNode, ran: nat -> set<nat>)
    returns (log0: seq<int>, log1: seq<int>, log2: seq<int>, callbacks: seq<ListNode>, calls: seq<LockCall>,
             hops: set<nat>)
    requires list.Valid() && Shows(v, list.nodes) && n !in list.nodes && n != list.head
    requires forall i, j :: 0 <= i < j < |v| ==> v[i] != v[j]
    modifies list, list.Cells(), n
    ensures log0 == v && log1 == Subst(v, 10, 1400) && log2 == Omit(log1, log1, 20, |log1|)
    ensures list.Valid() && Shows(log2, list.nodes)
    ensures |callbacks| == Count(log1, 20, |log1|) && forall x :: x in callbacks ==> x.data == 20
    ensures calls == Pairs(Count(v, 10, |v|)) + [Lock]
      + Unlocks(if Count(log1, 20, |log1|) == 0 then 1 else Count(log1, 20, |log1|))
    ensures hops == DanglingHops(log1, ran)
  {
    log0, log1, calls := ReadUpdateRead(list, v, n);
    var g;
    log2, g := DeleteAndRead(list, log1, ran);
    callbacks, calls, hops := g.callbacks, calls + g.calls, g.hops;
  }

  /** A lock followed by one unlock completes the pairs before it. */
  lemma StartCalls(n: nat, k: nat)
    ensures Pairs(n) + (Pairs(k) + [Lock] + Unlocks(1)) == Pairs(n + k + 1)
  {
    PairsAdd(n, k + 1);
    assert Pairs(k) + [Lock] + Unlocks(1) == Pairs(k + 1);
  }

  /** The nodes are allocated, all of them or none is used, and put on the list one by one. */
  method BuildAll(n: nat, grants: nat) returns (rc: int, list: List, newNode: ListNode, calls: seq<LockCall>)
    ensures rc == (if grants < n then -1 else 0) && list.Valid() && newNode !in list.nodes && newNode != list.head
    ensures rc == 0 ==> Shows(Down(n, 10), list.nodes)
    ensures rc != 0 ==> list.nodes == []
    ensures calls == if rc == 0 then Pairs(n) else []
    ensures fresh(list) && fresh(list.Cells()) && fresh(newNode)
  {
    list := new List();
    newNode := new ListNode(0);
    var val := LinkListModule.Allocate(n, 10, grants);
    if |val| < n {
      return -1, list, newNode, [];
    }
    calls := Build(list, val);
    ReverseAt(val);
    rc := 0;
  }

  /**
    The module's start up to its last read, for any number n of nodes; kmalloc grants the first `grants`,
    and `ran` says which callbacks run during the delete loop.
    */
  method Start(n: nat, grants: nat, ran: nat -> set<nat>)
    returns (rc: int, list: List, log0: seq<int>, log1: seq<int>, log2: seq<int>,
             callbacks: seq<ListNode>, calls: seq<LockCall>, hops: set<nat>)
    ensures rc == (if grants < n then -1 else 0) && list.Valid()
    ensures rc == 0 ==> log0 == Down(n, 10)
    ensures rc == 0 ==> log1 == Subst(log0, 10, 1400) && log2 == Omit(log1, log1, 20, |log1|) && Shows(log2, list.nodes)
    ensures rc == 0 ==> |callbacks| == (if n > 2 then 1 else 0) && forall x :: x in callbacks ==> x.data == 20
    ensures rc == 0 ==> log2 == if n <= 2 then log1 else log1[..n - 3] + log1[n - 2..]
    ensures rc != 0 ==> list.nodes == [] && log0 == log1 == log2 == [] && callbacks == []
    ensures calls == if rc == 0 then Pairs(n + (if n > 1 then 1 else 0) + 1) else []
    ensures rc == 0 ==> hops == DanglingHops(log1, ran)
  {
    var newNode;
    rc, list, newNode, calls := BuildAll(n, grants);
    log0, log1, log2, callbacks, hops := [], [], [], [], {};
    if rc == 0 {
      var more;
      BuiltValues(n);
      log0, log1, log2, callbacks, more, hops := Exercise(list, Down(n, 10), newNode, ran);
      StartCalls(n, if n > 1 then 1 else 0);
      LastRead(n);
      calls := calls + more;
    }
  }

  /** On the module's own list the delete loop can hop off freed memory as soon as there are three nodes. */
  lemma StartCanDangle(n: nat)
    ensures (exists ran: nat -> set<nat> :: DanglingHops(Subst(Down(n, 10), 10, 1400), ran) != {}) <==> n > 2
  {
    BuiltValues(n);
    CanDangleIff(Subst(Down(n, 10), 10, 1400));
  }
}
