/**
  The RCU-protected list of rcu/code.c as a step system: any number of writers
  serialised by one spinlock, any number of readers that take no lock at all,
  and deferred callbacks that free a node once its grace period is over.

  Every store that a reader can observe is a step of its own.  A writer first
  fills in the links of a node nobody can reach yet, and publishes it with one
  later store to a `next` field; readers may move in between.

  `State` is what the kernel memory holds.  `History` is bookkeeping that only
  the proofs use: the list the pointers spell out, an order on all nodes ever
  linked, and which walks may still get to a node that was taken off the list.
  */
module RcuProtocol {
  import opened Basics

  type Node = nat
  type Reader = nat
  type Writer = nat

  /** The sentinel `head_mylist`. */
  const HEAD: Node := 0

  /** Where a node is in its life. */
  datatype Status = Fresh | Linked | Replaced | Unlinked | Awaiting | Freed

  /** A callback handed to call_rcu: its node, and the read sections that its grace period still waits for. */
  datatype Callback = Callback(node: Node, waits: set<Reader>)

  /** The half-finished operation of the lock holder. */
  datatype Op = NoOp | Adding(n: Node) | Replacing(was: Node, n: Node)

  /** One pass of `list_for_each_entry`: the cursor, the nodes visited so far, and whether the cursor is back at HEAD. */
  datatype Walk = Walk(cursor: Node, seen: seq<Node>, done: bool)

  /** WholeWalk: one read section around the loop.  PerBody: a read section around each loop body only. */
  datatype Discipline = WholeWalk | PerBody

  datatype State = State(
    status: map<Node, Status>,
    next: map<Node, Node>,
    prev: map<Node, Node>,        // a poisoned prev is an absent key
    lock: Option<Writer>,
    op: Op,
    owes: map<Writer, Node>,      // a writer between list_del_rcu and call_rcu, and the node it deleted
    callbacks: seq<Callback>,     // handed to call_rcu and not yet run
    sections: set<Reader>,
    walks: map<Reader, Walk>,
    syncs: map<Writer, set<Reader>>)

  datatype Label =
    | Alloc(n: Node)
    | Acquire(w: Writer)
    | Release(w: Writer)
    | PrepareAdd(w: Writer, n: Node)
    | PublishAdd(w: Writer)
    | PrepareReplace(w: Writer, was: Node, n: Node)
    | PublishReplace(w: Writer)
    | Delete(w: Writer, x: Node)
    | CallRcu(w: Writer)
    | RunCallback(k: nat)
    | SyncBegin(w: Writer)
    | SyncEnd(w: Writer)
    | Enter(r: Reader)
    | BeginWalk(r: Reader)
    | Advance(r: Reader)
    | Leave(r: Reader)

  const INIT: State := State(map[], map[HEAD := HEAD], map[HEAD := HEAD], None, NoOp, map[], [], {}, map[], map[])

  /** Following a pointer; every pointer the protocol follows is shown to be present. */
  function Get(m: map<Node, Node>, x: Node): Node {
    if x in m then m[x] else HEAD
  }

  predicate Is(s: State, x: Node, st: Status) {
    x in s.status && s.status[x] == st
  }

  predicate Enabled(d: Discipline, s: State, l: Label) {
    match l
    case Alloc(n) => n != HEAD && n !in s.status
    case Acquire(w) => s.lock == None
    case Release(w) => s.lock == Some(w) && s.op == NoOp
    case PrepareAdd(w, n) => s.lock == Some(w) && s.op == NoOp && Is(s, n, Fresh)
    case PublishAdd(w) => s.lock == Some(w) && s.op.Adding?
    case PrepareReplace(w, was, n) => s.lock == Some(w) && s.op == NoOp && Is(s, was, Linked) && Is(s, n, Fresh)
    case PublishReplace(w) => s.lock == Some(w) && s.op.Replacing?
    case Delete(w, x) => s.lock == Some(w) && s.op == NoOp && w !in s.owes && Is(s, x, Linked)
    case CallRcu(w) => w in s.owes
    case RunCallback(k) => k < |s.callbacks| && s.callbacks[k].waits == {}
    case SyncBegin(w) => w !in s.syncs
    case SyncEnd(w) => w in s.syncs && s.syncs[w] == {}
    case Enter(r) => r !in s.sections && (d.PerBody? ==> r in s.walks && !s.walks[r].done && s.walks[r].cursor != HEAD)
    case BeginWalk(r) => r !in s.walks && (d.WholeWalk? <==> r in s.sections)
    case Advance(r) => r in s.walks && !s.walks[r].done && (d.WholeWalk? <==> r in s.sections)
    case Leave(r) => r in s.sections
  }

  /** A read section that ends no longer holds up any grace period. */
  function Forget(cs: seq<Callback>, r: Reader): seq<Callback> {
    seq(|cs|, i requires 0 <= i < |cs| => Callback(cs[i].node, cs[i].waits - {r}))
  }

  function Step(d: Discipline, s: State, l: Label): State
    requires Enabled(d, s, l)
  {
    match l
    case Alloc(n) => s.(status := s.status[n := Fresh])
    case Acquire(w) => s.(lock := Some(w))
    case Release(w) => s.(lock := None)
    case PrepareAdd(w, n) =>
      s.(next := s.next[n := Get(s.next, HEAD)], prev := s.prev[n := HEAD], op := Adding(n))
    case PublishAdd(w) =>
      var n := s.op.n;
      s.(next := s.next[HEAD := n], prev := s.prev[Get(s.next, n) := n],
         status := s.status[n := Linked], op := NoOp)
    case PrepareReplace(w, was, n) =>
      s.(next := s.next[n := Get(s.next, was)], prev := s.prev[n := Get(s.prev, was)], op := Replacing(was, n))
    case PublishReplace(w) =>
      var was, n := s.op.was, s.op.n;
      s.(next := s.next[Get(s.prev, n) := n], prev := s.prev[Get(s.next, n) := n] - {was},
         status := s.status[n := Linked][was := Replaced], op := NoOp)
    case Delete(w, x) =>
      s.(next := s.next[Get(s.prev, x) := Get(s.next, x)], prev := s.prev[Get(s.next, x) := Get(s.prev, x)] - {x},
         status := s.status[x := Unlinked], owes := s.owes[w := x])
    case CallRcu(w) =>
      s.(status := s.status[s.owes[w] := Awaiting], owes := s.owes - {w},
         callbacks := s.callbacks + [Callback(s.owes[w], s.sections)])
    case RunCallback(k) =>
      s.(status := s.status[s.callbacks[k].node := Freed], callbacks := Drop(s.callbacks, k))
    case SyncBegin(w) => s.(syncs := s.syncs[w := s.sections])
    case SyncEnd(w) => s.(syncs := s.syncs - {w})
    case Enter(r) => s.(sections := s.sections + {r})
    case BeginWalk(r) => s.(walks := s.walks[r := Walk(HEAD, [], false)])
    case Advance(r) =>
      var y := Get(s.next, s.walks[r].cursor);
      s.(walks := s.walks[r := if y == HEAD then Walk(HEAD, s.walks[r].seen, true)
                               else Walk(y, s.walks[r].seen + [y], false)])
    case Leave(r) =>
      s.(sections := s.sections - {r},
         walks := if d.WholeWalk? then s.walks - {r} else s.walks,
         callbacks := Forget(s.callbacks, r),
         syncs := map w | w in s.syncs :: s.syncs[w] - {r})
  }

  function Next(d: Discipline): (State, Label, State) -> bool {
    (s, l, s') => Enabled(d, s, l) && s' == Step(d, s, l)
  }

  type Trace = Run<State, Label>

  /** Any finite run of readers, writers and callbacks. */
  ghost predicate RcuRun(d: Discipline, t: Trace) {
    IsRun(INIT, Next(d), t)
  }

  // ---------------------------------------------------------------- proof history

  datatype History = History(
    list: seq<Node>,                    // the nodes on the ring, in order
    rank: map<Node, int>,               // list order, extended to every node ever linked
    low: int,                           // below every rank in use
    holders: map<Node, set<Reader>>)    // for a node off the list: walks begun before it was taken off

  const NO_HISTORY: History := History([], map[], 0, map[])

  /** The walks in progress inside a read section. */
  function Walkers(s: State): set<Reader> {
    s.walks.Keys * s.sections
  }

  function Place(h: History, i: nat, n: Node, r: set<Reader>): History
    requires i < |h.list|
  {
    var was := h.list[i];
    h.(list := h.list[i := n],
       rank := if was in h.rank then h.rank[n := h.rank[was]] else h.rank,
       holders := h.holders[was := r])
  }

  function TakeOff(h: History, i: nat, r: set<Reader>): History
    requires i < |h.list|
  {
    h.(list := Drop(h.list, i), holders := h.holders[h.list[i] := r])
  }

  /** How the proof history follows a step. */
  function Record(s: State, h: History, l: Label): History {
    match l
    case PublishAdd(_) =>
      if s.op.Adding? then h.(list := [s.op.n] + h.list, rank := h.rank[s.op.n := h.low], low := h.low - 1) else h
    case PublishReplace(_) =>
      if s.op.Replacing? && s.op.was in h.list
      then Place(h, Index(h.list, s.op.was), s.op.n, Walkers(s)) else h
    case Delete(_, x) =>
      if x in h.list then TakeOff(h, Index(h.list, x), Walkers(s)) else h
    case Leave(r) =>
      h.(holders := map x | x in h.holders :: h.holders[x] - {r})
    case _ => h
  }

  // ---------------------------------------------------------------- invariants

  ghost predicate LinkAt(next: map<Node, Node>, prev: map<Node, Node>, c: seq<Node>, i: int) {
    0 <= i < |c| - 1 ==>
      && c[i] in next && next[c[i]] == c[i + 1]
      && c[i + 1] in prev && prev[c[i + 1]] == c[i]
  }

  /** Along c, `next` and `prev` are each other's inverse. */
  ghost predicate Chained(next: map<Node, Node>, prev: map<Node, Node>, c: seq<Node>) {
    forall i :: 0 <= i < |c| - 1 ==> LinkAt(next, prev, c, i)
  }

  ghost predicate RingInv(s: State, h: History) {
    && HEAD !in s.status
    && HEAD !in h.list
    && Distinct(h.list)
    && (forall x :: x in h.list <==> Is(s, x, Linked))
    && Chained(s.next, s.prev, Ring(HEAD, h.list))
  }

  /** Ranks exist for exactly the nodes ever linked, and go up along the list. */
  ghost predicate Ordered(q: seq<Node>, rank: map<Node, int>) {
    && (forall x :: x in q ==> x in rank)
    && (forall i, j :: 0 <= i < j < |q| ==> rank[q[i]] < rank[q[j]])
  }

  /**
    The next pointer of x leads to a higher rank or back to HEAD, and no node of the list
    lies strictly in between, even when x itself has left the list.
    */
  ghost predicate Up(next: map<Node, Node>, q: seq<Node>, rank: map<Node, int>, x: Node) {
    x in rank ==>
      && x in next
      && (next[x] == HEAD || (next[x] in rank && rank[x] < rank[next[x]]))
      && (forall z :: z in q && z in rank && rank[x] < rank[z] ==> next[x] in rank && rank[next[x]] <= rank[z])
  }

  predicate EverLinked(s: State, x: Node) {
    x in s.status && s.status[x] != Fresh
  }

  ghost predicate RankInv(s: State, h: History) {
    && (forall x :: x in h.rank <==> EverLinked(s, x))
    && (forall x :: x in h.rank ==> h.low < h.rank[x])
    && Ordered(h.list, h.rank)
    && (forall x :: x in h.rank ==> Up(s.next, h.list, h.rank, x))
  }

  /** The walk of r may stand on x: x is on the list, or was when the walk began or later. */
  ghost predicate MayVisit(h: History, r: Reader, x: Node) {
    x == HEAD || x in h.list || (x in h.holders && r in h.holders[x])
  }

  predicate Removed(s: State, x: Node) {
    x in s.status && s.status[x] != Fresh && s.status[x] != Linked
  }

  /** A walk that may visit a node off the list may also visit whatever that node points to. */
  ghost predicate HoldClosed(next: map<Node, Node>, h: History) {
    forall x, r :: x in h.holders && r in h.holders[x] ==> MayVisit(h, r, Get(next, x))
  }

  /** The grace period of a node outlasts every walk that may still visit it. */
  ghost predicate GraceInv(s: State, h: History) {
    && (forall x :: x in h.holders <==> Removed(s, x))
    && (forall x :: x in h.holders ==> h.holders[x] <= Walkers(s))
    && (forall k :: 0 <= k < |s.callbacks| ==> Outlasts(s, h, s.callbacks[k]))
    && (forall x :: Is(s, x, Freed) ==> x in h.holders && h.holders[x] == {})
    && (forall w :: w in s.syncs ==> s.syncs[w] <= s.sections)
  }

  ghost predicate Outlasts(s: State, h: History, c: Callback) {
    c.node in h.holders && h.holders[c.node] <= c.waits <= s.sections
  }

  /** Each deleted node is owed to call_rcu by one writer, and each callback belongs to one node awaiting it. */
  ghost predicate QueueInv(s: State) {
    && (forall w :: w in s.owes ==> Is(s, s.owes[w], Unlinked))
    && (forall v, w :: v in s.owes && w in s.owes && v != w ==> s.owes[v] != s.owes[w])
    && (forall k :: 0 <= k < |s.callbacks| ==> Is(s, s.callbacks[k].node, Awaiting))
    && (forall j, k :: 0 <= j < k < |s.callbacks| ==> s.callbacks[j].node != s.callbacks[k].node)
  }

  ghost predicate Owed(s: State, x: Node) {
    exists w :: w in s.owes && s.owes[w] == x
  }

  ghost predicate Scheduled(s: State, x: Node) {
    exists k :: 0 <= k < |s.callbacks| && s.callbacks[k].node == x
  }

  /** Nobody forgets a deleted node. */
  ghost predicate NoneForgotten(s: State) {
    && (forall x :: Is(s, x, Unlinked) ==> Owed(s, x))
    && (forall x :: Is(s, x, Awaiting) ==> Scheduled(s, x))
  }

  ghost predicate OpInv(s: State) {
    && (s.lock == None ==> s.op == NoOp)
    && (s.op.Adding? ==>
          && Is(s, s.op.n, Fresh) && s.op.n in s.next && s.next[s.op.n] == Get(s.next, HEAD)
          && s.op.n in s.prev && s.prev[s.op.n] == HEAD)
    && (s.op.Replacing? ==>
          && Is(s, s.op.was, Linked) && Is(s, s.op.n, Fresh)
          && s.op.n in s.next && s.next[s.op.n] == Get(s.next, s.op.was)
          && s.op.n in s.prev && s.prev[s.op.n] == Get(s.prev, s.op.was))
  }

  /** Holds under both disciplines. */
  ghost predicate StructInv(s: State, h: History) {
    RingInv(s, h) && RankInv(s, h) && HoldClosed(s.next, h) && GraceInv(s, h) && OpInv(s) && QueueInv(s)
  }

  /** Where a walk stands; holds when each walk keeps its read section. */
  ghost predicate WalkOk(s: State, h: History, r: Reader) {
    r in s.walks ==>
      && r in s.sections
      && MayVisit(h, r, s.walks[r].cursor)
      && WalkShape(h, s.walks[r])
  }

  ghost predicate WalkInv(s: State, h: History) {
    forall r :: r in s.walks ==> WalkOk(s, h, r)
  }

  /** The visited nodes go strictly up in rank, and the cursor stands on the last of them unless it is at HEAD. */
  ghost predicate WalkShape(h: History, w: Walk) {
    && (forall i :: 0 <= i < |w.seen| ==> w.seen[i] in h.rank)
    && (forall i, j :: 0 <= i < j < |w.seen| ==> h.rank[w.seen[i]] < h.rank[w.seen[j]])
    && w.cursor == (if w.done || w.seen == [] then HEAD else w.seen[|w.seen| - 1])
  }

  // ---------------------------------------------------------------- the links under each writer step

  /** Around an element of the list: its neighbours, as the pointers give them. */
  lemma Neighbours(s: State, h: History, i: nat)
    requires RingInv(s, h) && i < |h.list|
    ensures var c := Ring(HEAD, h.list);
      && h.list[i] in s.next && s.next[h.list[i]] == c[i + 2]
      && h.list[i] in s.prev && s.prev[h.list[i]] == c[i]
      && c[i] in s.next && s.next[c[i]] == h.list[i]
      && c[i + 2] in s.prev && s.prev[c[i + 2]] == h.list[i]
  {
    assert LinkAt(s.next, s.prev, Ring(HEAD, h.list), i);
    assert LinkAt(s.next, s.prev, Ring(HEAD, h.list), i + 1);
  }

  lemma FirstLink(s: State, h: History)
    requires RingInv(s, h)
    ensures HEAD in s.next && s.next[HEAD] == Ring(HEAD, h.list)[1]
    ensures Ring(HEAD, h.list)[1] in s.prev && s.prev[Ring(HEAD, h.list)[1]] == HEAD
  {
    assert LinkAt(s.next, s.prev, Ring(HEAD, h.list), 0);
  }

  lemma ChainAfterAdd(next: map<Node, Node>, prev: map<Node, Node>, q: seq<Node>, n: Node)
    requires Chained(next, prev, Ring(HEAD, q)) && Distinct(q) && HEAD !in q && n !in q && n != HEAD
    requires n in next && next[n] == Ring(HEAD, q)[1] && n in prev && prev[n] == HEAD
    ensures Chained(next[HEAD := n], prev[Ring(HEAD, q)[1] := n], Ring(HEAD, [n] + q))
  {
    var c, c' := Ring(HEAD, q), Ring(HEAD, [n] + q);
    Apart(HEAD, q);
    var next', prev' := next[HEAD := n], prev[c[1] := n];
    forall i | 0 <= i < |c'| - 1 ensures LinkAt(next', prev', c', i) {
      assert LinkAt(next, prev, c, i - 1);
    }
  }

  lemma ChainAfterReplace(next: map<Node, Node>, prev: map<Node, Node>, q: seq<Node>, i: nat, n: Node)
    requires Chained(next, prev, Ring(HEAD, q)) && Distinct(q) && HEAD !in q && n !in q && n != HEAD && i < |q|
    requires n in next && next[n] == Ring(HEAD, q)[i + 2] && n in prev && prev[n] == Ring(HEAD, q)[i]
    ensures Chained(next[Ring(HEAD, q)[i] := n], prev[Ring(HEAD, q)[i + 2] := n] - {q[i]}, Ring(HEAD, q[i := n]))
  {
    var c, c' := Ring(HEAD, q), Ring(HEAD, q[i := n]);
    Apart(HEAD, q);
    var next', prev' := next[c[i] := n], prev[c[i + 2] := n] - {q[i]};
    assert c[i + 1] == q[i] && q[i] in q;
    forall k | 0 <= k < |c'| - 1 ensures LinkAt(next', prev', c', k) {
      assert LinkAt(next, prev, c, k);
    }
  }

  lemma ChainAfterDelete(next: map<Node, Node>, prev: map<Node, Node>, q: seq<Node>, i: nat)
    requires Chained(next, prev, Ring(HEAD, q)) && Distinct(q) && HEAD !in q && i < |q|
    ensures Chained(next[Ring(HEAD, q)[i] := Ring(HEAD, q)[i + 2]], prev[Ring(HEAD, q)[i + 2] := Ring(HEAD, q)[i]] - {q[i]},
                    Ring(HEAD, Drop(q, i)))
  {
    var c, c' := Ring(HEAD, q), Ring(HEAD, Drop(q, i));
    Apart(HEAD, q);
    var next', prev' := next[c[i] := c[i + 2]], prev[c[i + 2] := c[i]] - {q[i]};
    assert c[i + 1] == q[i] && q[i] in q;
    forall k | 0 <= k < |c'| - 1 ensures LinkAt(next', prev', c', k) {
      assert LinkAt(next, prev, c, k);
      assert LinkAt(next, prev, c, k + 1);
    }
  }

  // ---------------------------------------------------------------- the invariant under every step

  predicate Publishes(l: Label) {
    l.PublishAdd? || l.PublishReplace? || l.Delete?
  }

  /** Steps that publish nothing: which nodes are fresh, linked or off the list afterwards. */
  lemma QuietStatus(d: Discipline, s: State, l: Label)
    requires QueueInv(s) && Enabled(d, s, l) && !Publishes(l)
    ensures SameSides(s, Step(d, s, l), l)
  {
    if l.CallRcu? {
      Aside(s, s.owes[l.w], Step(d, s, l), l);
    } else if l.RunCallback? {
      Aside(s, s.callbacks[l.k].node, Step(d, s, l), l);
    }
  }

  ghost predicate SameSides(s: State, s': State, l: Label) {
    && (forall x :: x in s'.status <==> x in s.status || l == Alloc(x))
    && (forall x :: Is(s', x, Linked) <==> Is(s, x, Linked))
    && (forall x :: Is(s', x, Fresh) <==> Is(s, x, Fresh) || l == Alloc(x))
    && (forall x :: Removed(s', x) <==> Removed(s, x))
  }

  /** A node off the list that moves on in its life stays off the list. */
  lemma Aside(s: State, y: Node, s': State, l: Label)
    requires Removed(s, y) && !l.Alloc? && (s'.status == s.status[y := Awaiting] || s'.status == s.status[y := Freed])
    ensures SameSides(s, s', l)
  {
  }

  /** Steps that publish: which nodes have ever been linked afterwards. */
  lemma PublishedStatus(d: Discipline, s: State, l: Label)
    requires OpInv(s) && Enabled(d, s, l) && Publishes(l)
    ensures forall x :: EverLinked(Step(d, s, l), x) <==> EverLinked(s, x) || (!l.Delete? && x == s.op.n)
  {
  }

  /** Steps that publish nothing leave the list alone: the links they write are those of an unreachable node. */
  lemma QuietLinks(d: Discipline, s: State, h: History, l: Label)
    requires RingInv(s, h) && Enabled(d, s, l) && !Publishes(l)
    ensures Chained(Step(d, s, l).next, Step(d, s, l).prev, Ring(HEAD, h.list))
  {
    var s', c := Step(d, s, l), Ring(HEAD, h.list);
    forall i | 0 <= i < |c| - 1 ensures LinkAt(s'.next, s'.prev, c, i) {
      assert LinkAt(s.next, s.prev, c, i);
      RingMember(HEAD, h.list, i);
      RingMember(HEAD, h.list, i + 1);
    }
  }

  lemma RingKeptQuietly(d: Discipline, s: State, h: History, l: Label)
    requires RingInv(s, h) && QueueInv(s) && Enabled(d, s, l) && !Publishes(l)
    ensures RingInv(Step(d, s, l), Record(s, h, l))
  {
    QuietStatus(d, s, l);
    QuietLinks(d, s, h, l);
  }

  lemma RingKeptByAdd(d: Discipline, s: State, h: History, l: Label)
    requires RingInv(s, h) && OpInv(s) && Enabled(d, s, l) && l.PublishAdd?
    ensures RingInv(Step(d, s, l), Record(s, h, l))
  {
    var s', h' := Step(d, s, l), Record(s, h, l);
    FirstLink(s, h);
    ChainAfterAdd(s.next, s.prev, h.list, s.op.n);
    DistinctCons(s.op.n, h.list);
    assert forall x :: Is(s', x, Linked) <==> x == s.op.n || Is(s, x, Linked);
  }

  lemma RingKeptByReplace(d: Discipline, s: State, h: History, l: Label)
    requires RingInv(s, h) && OpInv(s) && Enabled(d, s, l) && l.PublishReplace?
    ensures RingInv(Step(d, s, l), Record(s, h, l))
  {
    var s', h', i := Step(d, s, l), Record(s, h, l), Index(h.list, s.op.was);
    Neighbours(s, h, i);
    ChainAfterReplace(s.next, s.prev, h.list, i, s.op.n);
    DistinctUpdate(h.list, i, s.op.n);
    assert forall x :: Is(s', x, Linked) <==> x == s.op.n || (x != s.op.was && Is(s, x, Linked));
  }

  lemma RingKeptByDelete(d: Discipline, s: State, h: History, l: Label)
    requires RingInv(s, h) && OpInv(s) && Enabled(d, s, l) && l.Delete?
    ensures RingInv(Step(d, s, l), Record(s, h, l))
  {
    var s', h', i := Step(d, s, l), Record(s, h, l), Index(h.list, l.x);
    Neighbours(s, h, i);
    ChainAfterDelete(s.next, s.prev, h.list, i);
    DistinctDrop(h.list, i);
    assert forall x :: Is(s', x, Linked) <==> x != l.x && Is(s, x, Linked);
  }

  /** No quiet step writes the next pointer of a node that was ever linked. */
  lemma QuietNext(d: Discipline, s: State, h: History, l: Label, x: Node)
    requires RankInv(s, h) && Enabled(d, s, l) && !Publishes(l) && x in h.rank
    ensures x in s.next && x in Step(d, s, l).next && Step(d, s, l).next[x] == s.next[x]
  {
    assert Up(s.next, h.list, h.rank, x);
  }

  lemma UpKeptQuietly(d: Discipline, s: State, h: History, l: Label, x: Node)
    requires RankInv(s, h) && Enabled(d, s, l) && !Publishes(l) && x in h.rank
    ensures Up(Step(d, s, l).next, h.list, h.rank, x)
  {
    assert Up(s.next, h.list, h.rank, x);
    QuietNext(d, s, h, l, x);
  }

  /** Ranks depend on which nodes were ever linked only. */
  lemma RankKeptQuietly(d: Discipline, s: State, h: History, l: Label)
    requires RankInv(s, h) && QueueInv(s) && Enabled(d, s, l) && !Publishes(l)
    ensures RankInv(Step(d, s, l), Record(s, h, l))
  {
    QuietStatus(d, s, l);
    var s' := Step(d, s, l);
    forall x | x in h.rank ensures Up(s'.next, h.list, h.rank, x) {
      UpKeptQuietly(d, s, h, l, x);
    }
  }

  lemma UpAfterAdd(next: map<Node, Node>, q: seq<Node>, rank: map<Node, int>, n: Node, low: int, x: Node)
    requires Ordered(q, rank) && HEAD !in rank && n !in rank && n != HEAD && (forall y :: y in rank ==> low < rank[y])
    requires n in next && next[n] == Ring(HEAD, q)[1]
    requires x in rank ==> Up(next, q, rank, x)
    ensures Up(next[HEAD := n], [n] + q, rank[n := low], x)
  {
    if x == n && q != [] {
      assert next[n] == q[0];
      forall z | z in q ensures rank[q[0]] <= rank[z] {
        assert q[Index(q, z)] == z;
      }
    }
  }

  lemma UpAfterReplace(next: map<Node, Node>, q: seq<Node>, rank: map<Node, int>, i: nat, n: Node, x: Node)
    requires Ordered(q, rank) && HEAD !in rank && i < |q| && n !in rank && n != HEAD
    requires forall z :: z in q[i := n] <==> z == n || (z in q && z != q[i])
    requires n in next && q[i] in next && next[n] == next[q[i]]
    requires Ring(HEAD, q)[i] in next && next[Ring(HEAD, q)[i]] == q[i]
    requires Up(next, q, rank, if x == n then q[i] else x)
    ensures Up(next[Ring(HEAD, q)[i] := n], q[i := n], rank[n := rank[q[i]]], x)
  {
  }

  lemma UpAfterDelete(next: map<Node, Node>, q: seq<Node>, rank: map<Node, int>, i: nat, x: Node)
    requires Ordered(q, rank) && HEAD !in rank && i < |q|
    requires forall z :: z in Drop(q, i) <==> z in q && z != q[i]
    requires q[i] in next && next[q[i]] == Ring(HEAD, q)[i + 2]
    requires Ring(HEAD, q)[i] in next && next[Ring(HEAD, q)[i]] == q[i]
    requires Up(next, q, rank, x) && Up(next, q, rank, q[i])
    requires Distinct(q)
    ensures Up(next[Ring(HEAD, q)[i] := next[q[i]]], Drop(q, i), rank, x)
  {
    forall z | z in q && z != q[i] ensures rank[z] != rank[q[i]] {
      var k := Index(q, z);
      assert k < i || i < k;
    }
  }

  lemma OrderedRemoved(q: seq<Node>, rank: map<Node, int>, i: nat)
    requires Ordered(q, rank) && i < |q|
    ensures Ordered(Drop(q, i), rank)
  {
  }

  lemma OrderedAdded(q: seq<Node>, rank: map<Node, int>, n: Node, low: int)
    requires Ordered(q, rank) && n !in rank && forall y :: y in rank ==> low < rank[y]
    ensures Ordered([n] + q, rank[n := low])
  {
    var p := [n] + q;
    assert forall i :: 0 < i < |p| ==> p[i] == q[i - 1] && p[i] in q;
  }

  lemma UpKeptByAdd(s: State, h: History, x: Node)
    requires RingInv(s, h) && RankInv(s, h) && OpInv(s) && s.op.Adding? && (x == s.op.n || x in h.rank)
    ensures Up(s.next[HEAD := s.op.n], [s.op.n] + h.list, h.rank[s.op.n := h.low], x)
  {
    FirstLink(s, h);
    assert x in h.rank ==> Up(s.next, h.list, h.rank, x);
    UpAfterAdd(s.next, h.list, h.rank, s.op.n, h.low, x);
  }

  lemma RankKeptByAdd(d: Discipline, s: State, h: History, l: Label)
    requires RingInv(s, h) && RankInv(s, h) && OpInv(s) && Enabled(d, s, l) && l.PublishAdd?
    ensures RankInv(Step(d, s, l), Record(s, h, l))
  {
    var s', h', n := Step(d, s, l), Record(s, h, l), s.op.n;
    PublishedStatus(d, s, l);
    OrderedAdded(h.list, h.rank, n, h.low);
    forall x | x in h'.rank ensures Up(s'.next, h'.list, h'.rank, x) {
      UpKeptByAdd(s, h, x);
    }
  }

  lemma UpKeptByReplace(s: State, h: History, x: Node)
    requires RingInv(s, h) && RankInv(s, h) && OpInv(s) && s.op.Replacing? && (x == s.op.n || x in h.rank)
    ensures var i := Index(h.list, s.op.was);
      Up(s.next[Ring(HEAD, h.list)[i] := s.op.n], h.list[i := s.op.n], h.rank[s.op.n := h.rank[s.op.was]], x)
  {
    var i := Index(h.list, s.op.was);
    Neighbours(s, h, i);
    DistinctUpdate(h.list, i, s.op.n);
    UpAfterReplace(s.next, h.list, h.rank, i, s.op.n, x);
  }

  lemma OrderedReplaced(q: seq<Node>, rank: map<Node, int>, i: nat, n: Node)
    requires Ordered(q, rank) && i < |q| && n !in rank
    ensures Ordered(q[i := n], rank[n := rank[q[i]]])
  {
  }

  lemma RankKeptByReplace(d: Discipline, s: State, h: History, l: Label)
    requires RingInv(s, h) && RankInv(s, h) && OpInv(s) && Enabled(d, s, l) && l.PublishReplace?
    ensures RankInv(Step(d, s, l), Record(s, h, l))
  {
    var s', h', n := Step(d, s, l), Record(s, h, l), s.op.n;
    var i := Index(h.list, s.op.was);
    OrderedReplaced(h.list, h.rank, i, n);
    PublishedStatus(d, s, l);
    assert Get(s.prev, n) == Ring(HEAD, h.list)[i] by { Neighbours(s, h, i); }
    forall x | x in h'.rank ensures Up(s'.next, h'.list, h'.rank, x) {
      UpKeptByReplace(s, h, x);
    }
  }

  lemma UpKeptByDelete(s: State, h: History, i: nat, x: Node)
    requires RingInv(s, h) && RankInv(s, h) && i < |h.list| && x in h.rank
    ensures h.list[i] in s.next
    ensures Up(s.next[Ring(HEAD, h.list)[i] := s.next[h.list[i]]], Drop(h.list, i), h.rank, x)
  {
    Neighbours(s, h, i);
    DistinctDrop(h.list, i);
    assert Up(s.next, h.list, h.rank, h.list[i]) && Up(s.next, h.list, h.rank, x);
    UpAfterDelete(s.next, h.list, h.rank, i, x);
  }

  lemma DeleteNext(d: Discipline, s: State, h: History, l: Label)
    requires RingInv(s, h) && Enabled(d, s, l) && l.Delete?
    ensures l.x in h.list && l.x in s.next
    ensures Step(d, s, l).next == s.next[Ring(HEAD, h.list)[Index(h.list, l.x)] := s.next[l.x]]
  {
    Neighbours(s, h, Index(h.list, l.x));
  }

  lemma RankKeptByDelete(d: Discipline, s: State, h: History, l: Label)
    requires RingInv(s, h) && RankInv(s, h) && OpInv(s) && Enabled(d, s, l) && l.Delete?
    ensures RankInv(Step(d, s, l), Record(s, h, l))
  {
    var s', h', i := Step(d, s, l), Record(s, h, l), Index(h.list, l.x);
    OrderedRemoved(h.list, h.rank, i);
    PublishedStatus(d, s, l);
    DeleteNext(d, s, h, l);
    forall x | x in h'.rank ensures Up(s'.next, h'.list, h'.rank, x) {
      UpKeptByDelete(s, h, i, x);
    }
  }

  /** What a walk may visit, it may still visit after any step other than its own last one. */
  lemma MayVisitKept(d: Discipline, s: State, h: History, l: Label, r: Reader, y: Node)
    requires RingInv(s, h) && OpInv(s) && GraceInv(s, h) && Enabled(d, s, l)
    requires MayVisit(h, r, y) && r in Walkers(s) && l != Leave(r)
    ensures MayVisit(Record(s, h, l), r, y)
  {
    match l
    case PublishReplace(_) =>
      DistinctUpdate(h.list, Index(h.list, s.op.was), s.op.n);
    case Delete(_, x) =>
      DistinctDrop(h.list, Index(h.list, x));
    case _ =>
  }

  /** No step changes the next pointer of a node that is already off the list. */
  lemma RemovedNextKept(d: Discipline, s: State, h: History, l: Label, x: Node)
    requires RingInv(s, h) && OpInv(s) && Enabled(d, s, l) && Removed(s, x)
    ensures Get(Step(d, s, l).next, x) == Get(s.next, x)
  {
    if l.Delete? || l.PublishReplace? {
      var i := Index(h.list, if l.Delete? then l.x else s.op.was);
      Neighbours(s, h, i);
      assert Ring(HEAD, h.list)[i] == HEAD || Ring(HEAD, h.list)[i] in h.list;
    }
  }

  /** A node just taken off the list still points to HEAD or to a node on the list. */
  lemma OffPointsIn(d: Discipline, s: State, h: History, l: Label)
    requires RingInv(s, h) && OpInv(s) && Enabled(d, s, l) && (l.Delete? || l.PublishReplace?)
    ensures var x := if l.Delete? then l.x else s.op.was;
      var y := Get(Step(d, s, l).next, x);
      y == HEAD || y in Record(s, h, l).list
  {
    var x := if l.Delete? then l.x else s.op.was;
    var i := Index(h.list, x);
    Neighbours(s, h, i);
    if l.Delete? {
      DistinctDrop(h.list, i);
    } else {
      DistinctUpdate(h.list, i, s.op.n);
    }
    var y := Ring(HEAD, h.list)[i + 2];
    assert y == HEAD || (y == h.list[i + 1] && y in h.list);
  }

  lemma HoldClosedKept(d: Discipline, s: State, h: History, l: Label)
    requires RingInv(s, h) && HoldClosed(s.next, h) && GraceInv(s, h) && OpInv(s) && Enabled(d, s, l)
    ensures HoldClosed(Step(d, s, l).next, Record(s, h, l))
  {
    var s', h' := Step(d, s, l), Record(s, h, l);
    forall x, r | x in h'.holders && r in h'.holders[x] ensures MayVisit(h', r, Get(s'.next, x)) {
      if x in h.holders {
        assert Removed(s, x);
        RemovedNextKept(d, s, h, l, x);
        MayVisitKept(d, s, h, l, r, Get(s.next, x));
      } else {
        OffPointsIn(d, s, h, l);
      }
    }
  }

  lemma GraceKeptByLeave(d: Discipline, s: State, h: History, l: Label)
    requires GraceInv(s, h) && Enabled(d, s, l) && l.Leave?
    ensures GraceInv(Step(d, s, l), Record(s, h, l))
  {
    var s', h' := Step(d, s, l), Record(s, h, l);
    forall k | 0 <= k < |s'.callbacks| ensures Outlasts(s', h', s'.callbacks[k]) {
      assert Outlasts(s, h, s.callbacks[k]);
    }
  }

  lemma GraceKeptByAdd(d: Discipline, s: State, h: History, l: Label)
    requires GraceInv(s, h) && OpInv(s) && Enabled(d, s, l) && l.PublishAdd?
    ensures GraceInv(Step(d, s, l), Record(s, h, l))
  {
    var s', h' := Step(d, s, l), Record(s, h, l);
    assert forall x :: Removed(s', x) <==> Removed(s, x);
    forall k | 0 <= k < |s'.callbacks| ensures Outlasts(s', h', s'.callbacks[k]) {
      assert Outlasts(s, h, s.callbacks[k]);
    }
  }

  /** Taking x off the list, in whatever state it goes to, opens it to the walks in progress and to no other. */
  lemma GraceKeptByTakingOff(s: State, h: History, x: Node, s': State, h': History)
    requires GraceInv(s, h) && x !in h.holders && s'.callbacks == s.callbacks
    requires s'.sections == s.sections && s'.walks == s.walks && s'.syncs == s.syncs
    requires x in s'.status && (s'.status[x] == Unlinked || s'.status[x] == Replaced)
    requires forall y :: y != x ==> (Removed(s', y) <==> Removed(s, y)) && (Is(s', y, Freed) <==> Is(s, y, Freed))
    requires h'.holders == h.holders[x := Walkers(s)]
    ensures GraceInv(s', h')
  {
    forall k | 0 <= k < |s'.callbacks| ensures Outlasts(s', h', s'.callbacks[k]) {
      assert Outlasts(s, h, s.callbacks[k]);
    }
  }

  lemma GraceKeptByPublishing(d: Discipline, s: State, h: History, l: Label)
    requires RingInv(s, h) && GraceInv(s, h) && OpInv(s) && Enabled(d, s, l) && Publishes(l)
    ensures GraceInv(Step(d, s, l), Record(s, h, l))
  {
    match l
    case PublishAdd(_) => GraceKeptByAdd(d, s, h, l);
    case PublishReplace(_) => GraceKeptByTakingOff(s, h, s.op.was, Step(d, s, l), Record(s, h, l));
    case Delete(_, x) => GraceKeptByTakingOff(s, h, x, Step(d, s, l), Record(s, h, l));
  }

  /** A callback outlasts the walks that were begun before its node was taken off the list. */
  lemma GraceKeptByCall(d: Discipline, s: State, h: History, l: Label)
    requires GraceInv(s, h) && QueueInv(s) && Enabled(d, s, l) && l.CallRcu?
    ensures GraceInv(Step(d, s, l), h)
  {
    var s' := Step(d, s, l);
    assert Removed(s, s.owes[l.w]);
    QuietStatus(d, s, l);
    forall k | 0 <= k < |s'.callbacks| ensures Outlasts(s', h, s'.callbacks[k]) {
      assert k < |s.callbacks| ==> Outlasts(s, h, s.callbacks[k]);
    }
  }

  lemma GraceKeptByCallback(d: Discipline, s: State, h: History, l: Label)
    requires GraceInv(s, h) && QueueInv(s) && Enabled(d, s, l) && l.RunCallback?
    ensures GraceInv(Step(d, s, l), h)
  {
    var s' := Step(d, s, l);
    assert Outlasts(s, h, s.callbacks[l.k]);
    QuietStatus(d, s, l);
    forall k | 0 <= k < |s'.callbacks| ensures Outlasts(s', h, s'.callbacks[k]) {
      assert Outlasts(s, h, s.callbacks[if k < l.k then k else k + 1]);
    }
  }

  predicate Defers(l: Label) {
    l.CallRcu? || l.RunCallback? || l.Leave?
  }

  lemma GraceKeptQuietly(d: Discipline, s: State, h: History, l: Label)
    requires GraceInv(s, h) && Enabled(d, s, l) && !Publishes(l) && !Defers(l)
    ensures GraceInv(Step(d, s, l), h)
  {
    var s' := Step(d, s, l);
    assert Walkers(s) <= Walkers(s');
    assert forall x :: Removed(s', x) <==> Removed(s, x);
    forall k | 0 <= k < |s'.callbacks| ensures Outlasts(s', h, s'.callbacks[k]) {
      assert Outlasts(s, h, s.callbacks[k]);
    }
  }

  lemma QueueKeptByDelete(d: Discipline, s: State, l: Label)
    requires QueueInv(s) && Enabled(d, s, l) && l.Delete?
    ensures QueueInv(Step(d, s, l))
  {
    assert Is(s, l.x, Linked);
  }

  lemma QueueKeptByCall(d: Discipline, s: State, l: Label)
    requires QueueInv(s) && Enabled(d, s, l) && l.CallRcu?
    ensures QueueInv(Step(d, s, l))
  {
    assert Is(s, s.owes[l.w], Unlinked);
  }

  lemma QueueKeptByCallback(d: Discipline, s: State, l: Label)
    requires QueueInv(s) && Enabled(d, s, l) && l.RunCallback?
    ensures QueueInv(Step(d, s, l))
  {
    var s', x := Step(d, s, l), s.callbacks[l.k].node;
    assert Is(s, x, Awaiting);
    assert forall k :: 0 <= k < |s'.callbacks| ==> s'.callbacks[k] == s.callbacks[if k < l.k then k else k + 1];
  }

  /** Steps that neither delete, call nor run a callback leave the debts and the callbacks as they are. */
  lemma QueueKeptElsewhere(s: State, s': State)
    requires QueueInv(s) && s'.owes == s.owes && |s'.callbacks| == |s.callbacks|
    requires forall k :: 0 <= k < |s.callbacks| ==> s'.callbacks[k].node == s.callbacks[k].node
    requires forall x :: Is(s, x, Unlinked) ==> Is(s', x, Unlinked)
    requires forall x :: Is(s, x, Awaiting) ==> Is(s', x, Awaiting)
    ensures QueueInv(s')
  {
  }

  lemma QueueKept(d: Discipline, s: State, l: Label)
    requires OpInv(s) && QueueInv(s) && Enabled(d, s, l)
    ensures QueueInv(Step(d, s, l))
  {
    match l
    case Delete(_, _) => QueueKeptByDelete(d, s, l);
    case CallRcu(_) => QueueKeptByCall(d, s, l);
    case RunCallback(_) => QueueKeptByCallback(d, s, l);
    case _ => QueueKeptElsewhere(s, Step(d, s, l));
  }

  lemma OpKeptByPrepare(d: Discipline, s: State, h: History, l: Label)
    requires RingInv(s, h) && OpInv(s) && Enabled(d, s, l) && (l.PrepareAdd? || l.PrepareReplace?)
    ensures OpInv(Step(d, s, l))
  {
    FirstLink(s, h);
    if l.PrepareReplace? {
      Neighbours(s, h, Index(h.list, l.was));
    }
  }

  lemma OpKept(d: Discipline, s: State, h: History, l: Label)
    requires RingInv(s, h) && OpInv(s) && QueueInv(s) && Enabled(d, s, l)
    ensures OpInv(Step(d, s, l))
  {
    if l.PrepareAdd? || l.PrepareReplace? {
      OpKeptByPrepare(d, s, h, l);
    } else if !Publishes(l) {
      QuietStatus(d, s, l);
    }
  }

  lemma RingKept(d: Discipline, s: State, h: History, l: Label)
    requires RingInv(s, h) && OpInv(s) && QueueInv(s) && Enabled(d, s, l)
    ensures RingInv(Step(d, s, l), Record(s, h, l))
  {
    match l
    case PublishAdd(_) => RingKeptByAdd(d, s, h, l);
    case PublishReplace(_) => RingKeptByReplace(d, s, h, l);
    case Delete(_, _) => RingKeptByDelete(d, s, h, l);
    case _ => RingKeptQuietly(d, s, h, l);
  }

  lemma RankKept(d: Discipline, s: State, h: History, l: Label)
    requires RingInv(s, h) && RankInv(s, h) && OpInv(s) && QueueInv(s) && Enabled(d, s, l)
    ensures RankInv(Step(d, s, l), Record(s, h, l))
  {
    match l
    case PublishAdd(_) => RankKeptByAdd(d, s, h, l);
    case PublishReplace(_) => RankKeptByReplace(d, s, h, l);
    case Delete(_, _) => RankKeptByDelete(d, s, h, l);
    case _ => RankKeptQuietly(d, s, h, l);
  }

  lemma GraceKept(d: Discipline, s: State, h: History, l: Label)
    requires RingInv(s, h) && GraceInv(s, h) && OpInv(s) && QueueInv(s) && Enabled(d, s, l)
    ensures GraceInv(Step(d, s, l), Record(s, h, l))
  {
    match l
    case Leave(_) => GraceKeptByLeave(d, s, h, l);
    case CallRcu(_) => GraceKeptByCall(d, s, h, l);
    case RunCallback(_) => GraceKeptByCallback(d, s, h, l);
    case _ =>
      if Publishes(l) {
        GraceKeptByPublishing(d, s, h, l);
      } else {
        GraceKeptQuietly(d, s, h, l);
      }
  }

  /** Every step of either discipline keeps the links, the order and the grace periods consistent. */
  lemma StructKept(d: Discipline, s: State, h: History, l: Label)
    requires StructInv(s, h) && Enabled(d, s, l)
    ensures StructInv(Step(d, s, l), Record(s, h, l))
  {
    RingKept(d, s, h, l);
    RankKept(d, s, h, l);
    HoldClosedKept(d, s, h, l);
    GraceKept(d, s, h, l);
    OpKept(d, s, h, l);
    QueueKept(d, s, l);
  }

  /** Ranks are given once. */
  lemma RanksKept(d: Discipline, s: State, h: History, l: Label)
    requires RingInv(s, h) && RankInv(s, h) && OpInv(s) && Enabled(d, s, l)
    ensures forall x :: x in h.rank ==> x in Record(s, h, l).rank && Record(s, h, l).rank[x] == h.rank[x]
  {
  }

  /** One step of a cursor: to a higher rank, and to a node the walk may visit. */
  lemma AdvanceStays(s: State, h: History, r: Reader)
    requires StructInv(s, h) && r in s.walks && r in s.sections
    requires MayVisit(h, r, s.walks[r].cursor) && WalkShape(h, s.walks[r])
    ensures var c := s.walks[r].cursor; var y := Get(s.next, c);
      && c in s.next && HEAD !in h.rank
      && MayVisit(h, r, y)
      && (y != HEAD ==> y in h.rank && (c != HEAD ==> c in h.rank && h.rank[c] < h.rank[y]))
  {
    var c := s.walks[r].cursor;
    FirstLink(s, h);
    if c == HEAD {
      var y := Ring(HEAD, h.list)[1];
      assert y == HEAD || (y == h.list[0] && y in h.list);
    } else {
      assert c in h.rank by { assert c in h.list ==> Is(s, c, Linked); assert c in h.holders ==> Removed(s, c); }
      assert Up(s.next, h.list, h.rank, c);
      if c in h.list {
        var i := Index(h.list, c);
        Neighbours(s, h, i);
        var y := Ring(HEAD, h.list)[i + 2];
        assert y == HEAD || (y == h.list[i + 1] && y in h.list);
      }
    }
  }

  /** A walk is moved by its own reader only. */
  lemma WalkUntouched(s: State, l: Label, r: Reader)
    requires Enabled(WholeWalk, s, l) && r in s.walks && r in s.sections && l != Advance(r) && l != Leave(r)
    ensures var s' := Step(WholeWalk, s, l);
      r in s'.walks && s'.walks[r] == s.walks[r] && r in s'.sections
  {
  }

  lemma ShapeKept(h: History, h': History, w: Walk)
    requires WalkShape(h, w) && forall x :: x in h.rank ==> x in h'.rank && h'.rank[x] == h.rank[x]
    ensures WalkShape(h', w)
  {
  }

  lemma OtherWalkKept(s: State, h: History, l: Label, r: Reader)
    requires StructInv(s, h) && Enabled(WholeWalk, s, l) && r in s.walks && WalkOk(s, h, r)
    requires l != Advance(r) && l != Leave(r)
    ensures WalkOk(Step(WholeWalk, s, l), Record(s, h, l), r)
  {
    WalkUntouched(s, l, r);
    MayVisitKept(WholeWalk, s, h, l, r, s.walks[r].cursor);
    RanksKept(WholeWalk, s, h, l);
    ShapeKept(h, Record(s, h, l), s.walks[r]);
  }

  lemma OwnWalkKept(s: State, h: History, r: Reader)
    requires StructInv(s, h) && Enabled(WholeWalk, s, Advance(r)) && WalkOk(s, h, r)
    ensures WalkOk(Step(WholeWalk, s, Advance(r)), h, r)
  {
    AdvanceStays(s, h, r);
    WalkGrows(h, s.walks[r], Get(s.next, s.walks[r].cursor));
  }

  lemma WalkGrows(h: History, w: Walk, y: Node)
    requires WalkShape(h, w) && !w.done
    requires y != HEAD ==> y in h.rank && (w.cursor != HEAD ==> w.cursor in h.rank && h.rank[w.cursor] < h.rank[y])
    requires HEAD !in h.rank
    ensures WalkShape(h, if y == HEAD then Walk(HEAD, w.seen, true) else Walk(y, w.seen + [y], false))
  {
  }

  /** With one read section per walk, every step keeps every cursor on a node whose grace period is not over. */
  lemma WalkKept(s: State, h: History, l: Label)
    requires StructInv(s, h) && WalkInv(s, h) && Enabled(WholeWalk, s, l)
    ensures WalkInv(Step(WholeWalk, s, l), Record(s, h, l))
  {
    forall r ensures WalkOk(Step(WholeWalk, s, l), Record(s, h, l), r) {
      assert WalkOk(s, h, r);
      if l == Advance(r) {
        OwnWalkKept(s, h, r);
      } else if l == BeginWalk(r) || l == Leave(r) {
      } else if r in s.walks {
        OtherWalkKept(s, h, l, r);
      }
    }
  }
}
