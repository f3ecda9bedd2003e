/** What holds in every run of the RCU step system: memory safety of the readers and the life of each node. */
module RcuSafety {
  import opened Basics
  import opened RcuProtocol

  /** The proof history after the first k steps of a run. */
  function HistAt(t: Trace, k: nat): History
    requires k <= |t.steps| < |t.states|
  {
    if k == 0 then NO_HISTORY else Record(t.states[k - 1], HistAt(t, k - 1), t.steps[k - 1])
  }

  lemma OneStep(d: Discipline, t: Trace, k: nat)
    requires RcuRun(d, t) && k < |t.steps|
    ensures Enabled(d, t.states[k], t.steps[k]) && t.states[k + 1] == Step(d, t.states[k], t.steps[k])
  {
    assert StepAt(Next(d), t, k);
  }

  lemma InitInv()
    ensures StructInv(INIT, NO_HISTORY) && WalkInv(INIT, NO_HISTORY) && NoneForgotten(INIT)
  {
    assert Ring(HEAD, []) == [HEAD, HEAD];
  }

  /** Every reachable state is consistent; under WholeWalk so is every walk in it. */
  lemma {:induction false} RunInv(d: Discipline, t: Trace, k: nat)
    requires RcuRun(d, t) && k < |t.states|
    ensures StructInv(t.states[k], HistAt(t, k))
    ensures d == WholeWalk ==> WalkInv(t.states[k], HistAt(t, k))
  {
    if k == 0 {
      InitInv();
    } else {
      RunInv(d, t, k - 1);
      OneStep(d, t, k - 1);
      StructKept(d, t.states[k - 1], HistAt(t, k - 1), t.steps[k - 1]);
      if d == WholeWalk {
        WalkKept(t.states[k - 1], HistAt(t, k - 1), t.steps[k - 1]);
      }
    }
  }

  // ---------------------------------------------------------------- no reader touches freed memory

  /** The node reached from x by k further pointer hops. */
  function Follow(next: map<Node, Node>, x: Node, k: nat): Node
    decreases k
  {
    if k == 0 then x else Follow(next, Get(next, x), k - 1)
  }

  /** Neither the node under any cursor nor any node the cursor could get to from there has been freed. */
  ghost predicate ReadersSafe(s: State) {
    forall r, k: nat :: r in s.walks ==> !Is(s, Follow(s.next, s.walks[r].cursor, k), Freed)
  }

  /** One hop from a node a walk may visit leads to another such node. */
  lemma HopMayVisit(s: State, h: History, r: Reader, x: Node)
    requires RingInv(s, h) && HoldClosed(s.next, h) && MayVisit(h, r, x)
    ensures MayVisit(h, r, Get(s.next, x))
  {
    if x == HEAD {
      FirstLink(s, h);
      RingMember(HEAD, h.list, 1);
    } else if x in h.list {
      Neighbours(s, h, Index(h.list, x));
      RingMember(HEAD, h.list, Index(h.list, x) + 2);
    }
  }

  lemma {:induction false} FollowMayVisit(s: State, h: History, r: Reader, x: Node, k: nat)
    requires RingInv(s, h) && HoldClosed(s.next, h) && MayVisit(h, r, x)
    ensures MayVisit(h, r, Follow(s.next, x, k))
    decreases k
  {
    if k > 0 {
      HopMayVisit(s, h, r, x);
      FollowMayVisit(s, h, r, Get(s.next, x), k - 1);
    }
  }

  lemma NotFreed(s: State, h: History, r: Reader, x: Node)
    requires RingInv(s, h) && GraceInv(s, h) && MayVisit(h, r, x)
    ensures !Is(s, x, Freed)
  {
  }

  lemma PathNotFreed(s: State, h: History, r: Reader, k: nat)
    requires StructInv(s, h) && WalkInv(s, h) && r in s.walks
    ensures MayVisit(h, r, Follow(s.next, s.walks[r].cursor, k))
    ensures !Is(s, Follow(s.next, s.walks[r].cursor, k), Freed) && s.walks[r].cursor in s.next
  {
    assert WalkOk(s, h, r);
    FollowMayVisit(s, h, r, s.walks[r].cursor, k);
    NotFreed(s, h, r, Follow(s.next, s.walks[r].cursor, k));
    AdvanceStays(s, h, r);
  }

  /**
    The RCU guarantee: with one read section per walk, in every run of any number of readers,
    writers and callbacks, no reader stands on a freed node and none can get to one.
    */
  lemma NoReaderOnFreedNode(t: Trace, n: nat)
    requires RcuRun(WholeWalk, t) && n < |t.states|
    ensures ReadersSafe(t.states[n])
    ensures forall r :: r in t.states[n].walks ==> t.states[n].walks[r].cursor in t.states[n].next
  {
    var s := t.states[n];
    RunInv(WholeWalk, t, n);
    forall r, k: nat | r in s.walks
      ensures !Is(s, Follow(s.next, s.walks[r].cursor, k), Freed) && s.walks[r].cursor in s.next
    {
      PathNotFreed(s, HistAt(t, n), r, k);
    }
    forall r | r in s.walks ensures s.walks[r].cursor in s.next {
      PathNotFreed(s, HistAt(t, n), r, 0);
    }
  }

  lemma VisitedWaits(s: State, h: History, r: Reader, c: Callback)
    requires RingInv(s, h) && GraceInv(s, h) && QueueInv(s) && c in s.callbacks && MayVisit(h, r, c.node)
    ensures r in c.waits
  {
    var k :| 0 <= k < |s.callbacks| && s.callbacks[k] == c;
    assert Outlasts(s, h, s.callbacks[k]) && Is(s, s.callbacks[k].node, Awaiting) && !Is(s, c.node, Linked);
  }

  /**
    Why this works: a grace period waits for every walk that can still get to the node, not only for those
    standing on it.  A walk on an unlinked node holds up every node that is unlinked behind it later.
    */
  lemma GraceWaitsForPaths(t: Trace, n: nat, r: Reader, k: nat, c: Callback)
    requires RcuRun(WholeWalk, t) && n < |t.states| && r in t.states[n].walks && c in t.states[n].callbacks
    requires c.node == Follow(t.states[n].next, t.states[n].walks[r].cursor, k)
    ensures r in c.waits
  {
    RunInv(WholeWalk, t, n);
    PathNotFreed(t.states[n], HistAt(t, n), r, k);
    VisitedWaits(t.states[n], HistAt(t, n), r, c);
  }

  // ---------------------------------------------------------------- synchronize_rcu

  /** Step b of the run begins a synchronize_rcu of w that has not returned before step e. */
  ghost predicate Syncing(t: Trace, b: nat, e: nat, w: Writer) {
    b < e <= |t.steps| && t.steps[b] == SyncBegin(w) && forall k :: b < k < e ==> t.steps[k] != SyncEnd(w)
  }

  /** Every walk that may still visit x is among those that w waits for. */
  ghost predicate Covers(s: State, h: History, w: Writer, x: Node) {
    Removed(s, x) && w in s.syncs && x in h.holders && h.holders[x] <= s.syncs[w]
  }

  lemma CoverBegins(s: State, h: History, w: Writer, x: Node)
    requires GraceInv(s, h) && Enabled(WholeWalk, s, SyncBegin(w)) && Removed(s, x)
    ensures Covers(Step(WholeWalk, s, SyncBegin(w)), h, w, x)
  {
  }

  lemma StaysRemoved(d: Discipline, s: State, h: History, l: Label, x: Node)
    requires RingInv(s, h) && OpInv(s) && QueueInv(s) && Enabled(d, s, l) && Removed(s, x)
    ensures Removed(Step(d, s, l), x)
    ensures x in h.holders ==> var h' := Record(s, h, l);
      x in h'.holders && h'.holders[x] == if l.Leave? then h.holders[x] - {l.r} else h.holders[x]
  {
    assert !Is(s, x, Linked);
    if !Publishes(l) {
      QuietStatus(d, s, l);
    }
  }

  lemma SyncStep(s: State, l: Label, w: Writer)
    requires Enabled(WholeWalk, s, l) && l != SyncEnd(w) && w in s.syncs
    ensures w in Step(WholeWalk, s, l).syncs
    ensures Step(WholeWalk, s, l).syncs[w] == if l.Leave? then s.syncs[w] - {l.r} else s.syncs[w]
  {
  }

  lemma CoverKept(s: State, h: History, l: Label, w: Writer, x: Node)
    requires RingInv(s, h) && OpInv(s) && QueueInv(s) && Enabled(WholeWalk, s, l) && l != SyncEnd(w)
    requires Covers(s, h, w, x)
    ensures Covers(Step(WholeWalk, s, l), Record(s, h, l), w, x)
  {
    StaysRemoved(WholeWalk, s, h, l, x);
    SyncStep(s, l, w);
  }

  lemma CoverStarts(t: Trace, b: nat, w: Writer, x: Node)
    requires RcuRun(WholeWalk, t) && b < |t.steps| && t.steps[b] == SyncBegin(w) && Removed(t.states[b], x)
    ensures Covers(t.states[b + 1], HistAt(t, b + 1), w, x)
  {
    RunInv(WholeWalk, t, b);
    OneStep(WholeWalk, t, b);
    CoverBegins(t.states[b], HistAt(t, b), w, x);
  }

  lemma CoverGoesOn(t: Trace, k: nat, w: Writer, x: Node)
    requires RcuRun(WholeWalk, t) && k < |t.steps| && t.steps[k] != SyncEnd(w)
    requires Covers(t.states[k], HistAt(t, k), w, x)
    ensures Covers(t.states[k + 1], HistAt(t, k + 1), w, x)
  {
    RunInv(WholeWalk, t, k);
    OneStep(WholeWalk, t, k);
    CoverKept(t.states[k], HistAt(t, k), t.steps[k], w, x);
  }

  lemma {:induction false} SyncCovers(t: Trace, b: nat, e: nat, w: Writer, x: Node)
    requires RcuRun(WholeWalk, t) && Syncing(t, b, e, w) && Removed(t.states[b], x)
    ensures Covers(t.states[e], HistAt(t, e), w, x)
  {
    if e == b + 1 {
      CoverStarts(t, b, w, x);
    } else {
      SyncCovers(t, b, e - 1, w, x);
      CoverGoesOn(t, e - 1, w, x);
    }
  }

  lemma NotVisited(s: State, h: History, r: Reader, x: Node, k: nat)
    requires StructInv(s, h) && WalkInv(s, h) && r in s.walks
    requires Removed(s, x) && x in h.holders && h.holders[x] == {}
    ensures Follow(s.next, s.walks[r].cursor, k) != x
  {
    PathNotFreed(s, h, r, k);
    assert !Is(s, x, Linked);
  }

  /**
    synchronize_rcu as the writer uses it after a replacement: when the call begun at step b returns at step
    e, no walk stands on, or can still get to, any node that had been taken off the list before the call.
    */
  lemma SynchronizeReleases(t: Trace, b: nat, e: nat, w: Writer, x: Node, r: Reader, k: nat)
    requires RcuRun(WholeWalk, t) && Syncing(t, b, e, w) && e < |t.steps| && t.steps[e] == SyncEnd(w)
    requires Removed(t.states[b], x) && r in t.states[e].walks
    ensures Follow(t.states[e].next, t.states[e].walks[r].cursor, k) != x
  {
    SyncCovers(t, b, e, w, x);
    OneStep(WholeWalk, t, e);
    RunInv(WholeWalk, t, e);
    NotVisited(t.states[e], HistAt(t, e), r, x, k);
  }

  // ---------------------------------------------------------------- the life of a node

  /** How often a node was passed to kmalloc, list_del_rcu, call_rcu and kfree. */
  datatype Life = Life(allocs: nat, dels: nat, calls: nat, frees: nat)

  function Tick(f: Life, s: State, l: Label, x: Node): Life {
    match l
    case Alloc(n) => if n == x then f.(allocs := f.allocs + 1) else f
    case Delete(_, y) => if y == x then f.(dels := f.dels + 1) else f
    case CallRcu(w) => if w in s.owes && s.owes[w] == x then f.(calls := f.calls + 1) else f
    case RunCallback(k) => if k < |s.callbacks| && s.callbacks[k].node == x then f.(frees := f.frees + 1) else f
    case _ => f
  }

  /** What happened to x in the first k steps of a run. */
  function Lived(t: Trace, x: Node, k: nat): Life
    requires k <= |t.steps| < |t.states|
  {
    if k == 0 then Life(0, 0, 0, 0) else Tick(Lived(t, x, k - 1), t.states[k - 1], t.steps[k - 1], x)
  }

  function Where(s: State, x: Node): Option<Status> {
    if x in s.status then Some(s.status[x]) else None
  }

  /** Where in its life a step takes node x. */
  function Moved(s: State, l: Label, x: Node): Option<Status> {
    match l
    case Alloc(n) => if x == n then Some(Fresh) else Where(s, x)
    case PublishAdd(_) => if s.op.Adding? && x == s.op.n then Some(Linked) else Where(s, x)
    case PublishReplace(_) =>
      if s.op.Replacing? && x == s.op.was then Some(Replaced)
      else if s.op.Replacing? && x == s.op.n then Some(Linked)
      else Where(s, x)
    case Delete(_, y) => if x == y then Some(Unlinked) else Where(s, x)
    case CallRcu(w) => if w in s.owes && x == s.owes[w] then Some(Awaiting) else Where(s, x)
    case RunCallback(k) => if k < |s.callbacks| && x == s.callbacks[k].node then Some(Freed) else Where(s, x)
    case _ => Where(s, x)
  }

  lemma StepMoves(d: Discipline, s: State, l: Label, x: Node)
    requires Enabled(d, s, l)
    ensures Where(Step(d, s, l), x) == Moved(s, l, x)
  {
  }

  /** The life a node must have had to be where it is. */
  function Expected(at: Option<Status>): Life {
    match at
    case None => Life(0, 0, 0, 0)
    case Some(Fresh) => Life(1, 0, 0, 0)
    case Some(Linked) => Life(1, 0, 0, 0)
    case Some(Replaced) => Life(1, 0, 0, 0)
    case Some(Unlinked) => Life(1, 1, 0, 0)
    case Some(Awaiting) => Life(1, 1, 1, 0)
    case Some(Freed) => Life(1, 1, 1, 1)
  }

  lemma OneMoveOfLife(d: Discipline, s: State, l: Label, x: Node)
    requires OpInv(s) && QueueInv(s) && Enabled(d, s, l)
    ensures Expected(Moved(s, l, x)) == Tick(Expected(Where(s, x)), s, l, x)
  {
    match l
    case CallRcu(w) => assert Is(s, s.owes[w], Unlinked);
    case RunCallback(k) => assert Is(s, s.callbacks[k].node, Awaiting);
    case _ =>
  }

  /**
    In every run each node goes through kmalloc, list_del_rcu, call_rcu and kfree in that order and at
    most once each; in particular nothing is freed twice, and only what was passed to call_rcu is freed.
    */
  lemma {:induction false} EveryNodeLivesOnce(d: Discipline, t: Trace, x: Node, k: nat)
    requires RcuRun(d, t) && k < |t.states|
    ensures Lived(t, x, k) == Expected(Where(t.states[k], x))
  {
    if k > 0 {
      EveryNodeLivesOnce(d, t, x, k - 1);
      RunInv(d, t, k - 1);
      OneStep(d, t, k - 1);
      OneMoveOfLife(d, t.states[k - 1], t.steps[k - 1], x);
      StepMoves(d, t.states[k - 1], t.steps[k - 1], x);
    }
  }

  lemma OwedKept(d: Discipline, s: State, l: Label, x: Node)
    requires QueueInv(s) && Enabled(d, s, l) && Is(Step(d, s, l), x, Unlinked)
    requires Is(s, x, Unlinked) ==> Owed(s, x)
    ensures Owed(Step(d, s, l), x)
  {
    var s' := Step(d, s, l);
    StepMoves(d, s, l, x);
    if l.Delete? && l.x == x {
      assert l.w in s'.owes && s'.owes[l.w] == x;
    } else {
      assert Is(s, x, Unlinked);
      var w :| w in s.owes && s.owes[w] == x;
      assert w in s'.owes && s'.owes[w] == x;
    }
  }

  lemma ScheduledKept(d: Discipline, s: State, l: Label, x: Node)
    requires QueueInv(s) && Enabled(d, s, l) && Is(Step(d, s, l), x, Awaiting)
    requires Is(s, x, Awaiting) ==> Scheduled(s, x)
    ensures Scheduled(Step(d, s, l), x)
  {
    var s' := Step(d, s, l);
    StepMoves(d, s, l, x);
    if l.CallRcu? && s.owes[l.w] == x {
      assert s'.callbacks[|s.callbacks|].node == x;
    } else {
      assert Is(s, x, Awaiting);
      var k :| 0 <= k < |s.callbacks| && s.callbacks[k].node == x;
      assert s'.callbacks[if l.RunCallback? && k > l.k then k - 1 else k].node == x;
    }
  }

  lemma NoneForgottenKept(d: Discipline, s: State, l: Label)
    requires QueueInv(s) && NoneForgotten(s) && Enabled(d, s, l)
    ensures NoneForgotten(Step(d, s, l))
  {
    var s' := Step(d, s, l);
    forall x | Is(s', x, Unlinked) ensures Owed(s', x) {
      OwedKept(d, s, l, x);
    }
    forall x | Is(s', x, Awaiting) ensures Scheduled(s', x) {
      ScheduledKept(d, s, l, x);
    }
  }

  /** Every deleted node is owed to call_rcu by some writer or has its callback scheduled, until it is freed. */
  lemma {:induction false} NoNodeForgotten(d: Discipline, t: Trace, k: nat)
    requires RcuRun(d, t) && k < |t.states|
    ensures NoneForgotten(t.states[k])
  {
    if k == 0 {
      InitInv();
    } else {
      NoNodeForgotten(d, t, k - 1);
      RunInv(d, t, k - 1);
      OneStep(d, t, k - 1);
      NoneForgottenKept(d, t.states[k - 1], t.steps[k - 1]);
    }
  }

  /**
    In every reachable state the pointers from HEAD spell out one ring of exactly the linked nodes,
    each once, with next and prev inverse to each other.
    */
  lemma PointersSpellTheList(d: Discipline, t: Trace, n: nat)
    requires RcuRun(d, t) && n < |t.states|
    ensures var q := HistAt(t, n).list; var s := t.states[n];
      && Distinct(q) && HEAD !in q && Chained(s.next, s.prev, Ring(HEAD, q))
      && (forall x :: x in q <==> Is(s, x, Linked))
      && (forall k :: 0 <= k < |Ring(HEAD, q)| ==> Follow(s.next, HEAD, k) == Ring(HEAD, q)[k])
  {
    RunInv(d, t, n);
    var c, s := Ring(HEAD, HistAt(t, n).list), t.states[n];
    forall k | 0 <= k < |c| ensures Follow(s.next, HEAD, k) == c[k] {
      FollowRing(s.next, s.prev, c, 0, k);
    }
  }

  lemma {:induction false} FollowRing(next: map<Node, Node>, prev: map<Node, Node>, c: seq<Node>, i: nat, k: nat)
    requires Chained(next, prev, c) && i + k < |c|
    ensures Follow(next, c[i], k) == c[i + k]
    decreases k
  {
    if k > 0 {
      assert LinkAt(next, prev, c, i);
      FollowRing(next, prev, c, i + 1, k - 1);
    }
  }
}
