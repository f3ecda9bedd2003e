/**
  What can always still happen under either discipline: from every reachable state new nodes can be linked
  and replaced, synchronize_rcu can return, and every node that was ever linked can be freed, except those
  that a replacement has taken, or is about to take, off the list.
  */
module RcuProgress {
  import opened Basics
  import opened RcuProtocol
  import opened RcuSafety

  predicate ReaderStep(l: Label, r: Reader) {
    l == Enter(r) || l == BeginWalk(r) || l == Advance(r) || l == Leave(r)
  }

  /** u goes on from t without a step of reader r. */
  ghost predicate OthersOnly(t: Trace, u: Trace, r: Reader) {
    t.Begins(u) && forall k :: |t.steps| <= k < |u.steps| ==> !ReaderStep(u.steps[k], r)
  }

  lemma OthersAddUp(t: Trace, v: Trace, u: Trace, r: Reader)
    requires OthersOnly(t, v, r) && OthersOnly(v, u, r)
    ensures OthersOnly(t, u, r)
  {
    forall k | |t.steps| <= k < |u.steps| ensures !ReaderStep(u.steps[k], r) {
      assert k < |v.steps| ==> u.steps[k] == v.steps[k];
    }
  }

  lemma Go(d: Discipline, t: Trace, l: Label) returns (u: Trace)
    requires RcuRun(d, t) && Enabled(d, t.Last(), l)
    ensures RcuRun(d, u) && t.Begins(u) && u.Last() == Step(d, t.Last(), l) && u.steps == t.steps + [l]
    ensures forall r :: !ReaderStep(l, r) ==> OthersOnly(t, u, r)
  {
    ExtendIsRun(INIT, Next(d), t, l, Step(d, t.Last(), l));
    u := t.Extend(l, Step(d, t.Last(), l));
  }

  /** What the constructions below need of a reachable state. */
  lemma Reachable(d: Discipline, t: Trace)
    requires RcuRun(d, t)
    ensures OpInv(t.Last()) && NoneForgotten(t.Last())
    ensures forall w :: w in t.Last().owes ==> Is(t.Last(), t.Last().owes[w], Unlinked)
    ensures forall w :: w in t.Last().syncs ==> t.Last().syncs[w] <= t.Last().sections
    ensures forall k :: 0 <= k < |t.Last().callbacks| ==> t.Last().callbacks[k].waits <= t.Last().sections
  {
    RunInv(d, t, |t.steps|);
    NoNodeForgotten(d, t, |t.steps|);
    forall k | 0 <= k < |t.Last().callbacks| ensures t.Last().callbacks[k].waits <= t.Last().sections {
      assert Outlasts(t.Last(), HistAt(t, |t.steps|), t.Last().callbacks[k]);
    }
  }

  // ---------------------------------------------------------------- grace periods end

  /** All but the read sections is as it was. */
  ghost predicate SameButSections(s: State, s': State) {
    && s'.status == s.status && s'.syncs.Keys == s.syncs.Keys && |s'.callbacks| == |s.callbacks|
    && forall k :: 0 <= k < |s.callbacks| ==> s'.callbacks[k].node == s.callbacks[k].node
  }

  lemma LeaveOnly(d: Discipline, s: State, q: Reader)
    requires Enabled(d, s, Leave(q))
    ensures SameButSections(s, Step(d, s, Leave(q))) && Step(d, s, Leave(q)).sections == s.sections - {q}
  {
  }

  /** The open read sections can all be closed, by their own readers. */
  lemma {:induction false} Drain(d: Discipline, t: Trace, r: Reader) returns (u: Trace)
    requires RcuRun(d, t) && r !in t.Last().sections
    ensures RcuRun(d, u) && OthersOnly(t, u, r) && SameButSections(t.Last(), u.Last()) && u.Last().sections == {}
    decreases |t.Last().sections|
  {
    if t.Last().sections == {} {
      u := t;
    } else {
      var q :| q in t.Last().sections;
      LeaveOnly(d, t.Last(), q);
      var v := Go(d, t, Leave(q));
      u := Drain(d, v, r);
      OthersAddUp(t, v, u, r);
    }
  }

  lemma {:induction false} Unused(q: set<Reader>) returns (r: Reader)
    ensures forall x :: x in q ==> x < r
  {
    if q == {} {
      r := 0;
    } else {
      var x :| x in q;
      var b := Unused(q - {x});
      r := if x < b then b else x + 1;
      forall y | y in q ensures y < r {
        assert y == x || y in q - {x};
      }
    }
  }

  /** A synchronize_rcu in progress can always return. */
  lemma SyncCanReturn(d: Discipline, t: Trace, w: Writer) returns (u: Trace)
    requires RcuRun(d, t) && w in t.Last().syncs
    ensures RcuRun(d, u) && t.Begins(u) && |t.steps| < |u.steps| && u.steps[|u.steps| - 1] == SyncEnd(w)
  {
    var r := Unused(t.Last().sections);
    var v := Drain(d, t, r);
    Reachable(d, v);
    u := Go(d, v, SyncEnd(w));
  }

  /** r was in a read section at position i and has not left it in the steps from i to n. */
  ghost predicate StillIn(t: Trace, i: nat, n: nat, r: Reader)
    requires i <= n <= |t.steps| < |t.states|
  {
    r in t.states[i].sections && forall j :: i <= j < n ==> t.steps[j] != Leave(r)
  }

  /** A grace period that began in step i waits, at n, for exactly the readers inside a section at i and since. */
  ghost predicate WaitsFor(t: Trace, i: nat, n: nat, waits: set<Reader>)
    requires i <= n <= |t.steps| < |t.states|
  {
    forall r :: r in waits <==> StillIn(t, i, n, r)
  }

  lemma WaitsBegin(t: Trace, i: nat)
    requires i < |t.steps| < |t.states| && !t.steps[i].Leave?
    ensures WaitsFor(t, i, i + 1, t.states[i].sections)
  {
  }

  lemma WaitsGoOn(t: Trace, i: nat, n: nat, waits: set<Reader>)
    requires i <= n < |t.steps| < |t.states| && WaitsFor(t, i, n, waits)
    ensures WaitsFor(t, i, n + 1, if t.steps[n].Leave? then waits - {t.steps[n].r} else waits)
  {
    forall r ensures StillIn(t, i, n + 1, r) <==> StillIn(t, i, n, r) && t.steps[n] != Leave(r) {
    }
  }

  lemma CallStep(d: Discipline, s: State, l: Label, k: nat) returns (k': nat)
    requires Enabled(d, s, l) && k < |s.callbacks| && (l.RunCallback? ==> l.k != k)
    ensures var cs := Step(d, s, l).callbacks;
      && k' < |cs| && cs[k'].node == s.callbacks[k].node
      && cs[k'].waits == if l.Leave? then s.callbacks[k].waits - {l.r} else s.callbacks[k].waits
  {
    k' := if l.RunCallback? && l.k < k then k - 1 else k;
  }

  /** Step i hands node x to call_rcu. */
  predicate Calls(t: Trace, i: nat, x: Node) {
    i < |t.steps| && i < |t.states| && t.steps[i].CallRcu?
    && t.steps[i].w in t.states[i].owes && t.states[i].owes[t.steps[i].w] == x
  }

  lemma AwaitingBefore(d: Discipline, t: Trace, n: nat, x: Node)
    requires RcuRun(d, t) && n < |t.steps| && Is(t.states[n + 1], x, Awaiting) && !Calls(t, n, x)
    ensures Is(t.states[n], x, Awaiting)
    ensures t.steps[n].RunCallback? ==>
      t.steps[n].k < |t.states[n].callbacks| && t.states[n].callbacks[t.steps[n].k].node != x
  {
    OneStep(d, t, n);
    StepMoves(d, t.states[n], t.steps[n], x);
  }

  lemma CalledWhenUnlinked(d: Discipline, t: Trace, n: nat, x: Node)
    requires RcuRun(d, t) && n < |t.steps|
    ensures Calls(t, n, x) ==> Is(t.states[n], x, Unlinked)
  {
    RunInv(d, t, n);
  }

  lemma {:induction false} StaysCalled(d: Discipline, t: Trace, i: nat, n: nat, x: Node)
    requires RcuRun(d, t) && Calls(t, i, x) && i < n <= |t.steps|
    ensures Is(t.states[n], x, Awaiting) || Is(t.states[n], x, Freed)
  {
    OneStep(d, t, n - 1);
    StepMoves(d, t.states[n - 1], t.steps[n - 1], x);
    if i + 1 < n {
      StaysCalled(d, t, i, n - 1, x);
      RunInv(d, t, n - 1);
      MovesOn(d, t.states[n - 1], t.steps[n - 1], x);
    }
  }

  lemma MovesOn(d: Discipline, s: State, l: Label, x: Node)
    requires OpInv(s) && QueueInv(s) && Enabled(d, s, l) && (Is(s, x, Awaiting) || Is(s, x, Freed))
    ensures Moved(s, l, x) == Some(Awaiting) || Moved(s, l, x) == Some(Freed)
  {
    if l.CallRcu? {
      assert Is(s, s.owes[l.w], Unlinked);
    }
  }

  lemma {:induction false} CallbackWaits(d: Discipline, t: Trace, i: nat, n: nat, x: Node) returns (k: nat)
    requires RcuRun(d, t) && Calls(t, i, x) && i < n <= |t.steps| && Is(t.states[n], x, Awaiting)
    ensures k < |t.states[n].callbacks| && t.states[n].callbacks[k].node == x
    ensures WaitsFor(t, i, n, t.states[n].callbacks[k].waits)
  {
    OneStep(d, t, n - 1);
    if i + 1 == n {
      k := |t.states[i].callbacks|;
      WaitsBegin(t, i);
    } else {
      StaysCalled(d, t, i, n - 1, x);
      CalledWhenUnlinked(d, t, n - 1, x);
      AwaitingBefore(d, t, n - 1, x);
      var b := CallbackWaits(d, t, i, n - 1, x);
      k := CallStep(d, t.states[n - 1], t.steps[n - 1], b);
      WaitsGoOn(t, i, n - 1, t.states[n - 1].callbacks[b].waits);
    }
  }

  /**
    A callback waits for no reader that came later: while x awaits the callback handed over in step i, it
    can run exactly when every reader that was inside a read section at that step has left it since.
    */
  lemma CallbackDueIff(d: Discipline, t: Trace, i: nat, n: nat, x: Node) returns (k: nat)
    requires RcuRun(d, t) && Calls(t, i, x) && i < n <= |t.steps| && Is(t.states[n], x, Awaiting)
    ensures k < |t.states[n].callbacks| && t.states[n].callbacks[k].node == x
    ensures Enabled(d, t.states[n], RunCallback(k)) <==> forall r :: !StillIn(t, i, n, r)
  {
    k := CallbackWaits(d, t, i, n, x);
    var waits := t.states[n].callbacks[k].waits;
    assert waits == {} <==> forall r :: r !in waits;
  }

  lemma {:induction false} SyncWaits(d: Discipline, t: Trace, b: nat, n: nat, w: Writer)
    requires RcuRun(d, t) && Syncing(t, b, n, w)
    ensures w in t.states[n].syncs && WaitsFor(t, b, n, t.states[n].syncs[w])
  {
    OneStep(d, t, n - 1);
    if b + 1 == n {
      WaitsBegin(t, b);
    } else {
      SyncWaits(d, t, b, n - 1, w);
      WaitsGoOn(t, b, n - 1, t.states[n - 1].syncs[w]);
    }
  }

  /** synchronize_rcu waits for no reader that came later, and can be called whenever it is not in progress. */
  lemma SyncDueIff(d: Discipline, t: Trace, b: nat, n: nat, w: Writer)
    requires RcuRun(d, t) && Syncing(t, b, n, w)
    ensures Enabled(d, t.states[n], SyncEnd(w)) <==> forall r :: !StillIn(t, b, n, r)
  {
    SyncWaits(d, t, b, n, w);
    var waits := t.states[n].syncs[w];
    assert waits == {} <==> forall r :: r !in waits;
  }

  /** A synchronize_rcu of w is in progress before step n. */
  ghost predicate InSync(t: Trace, n: nat, w: Writer) {
    exists b: nat :: Syncing(t, b, n, w)
  }

  lemma SyncProgress(t: Trace, n: nat, w: Writer)
    requires n < |t.steps|
    ensures InSync(t, n + 1, w) <==> t.steps[n] == SyncBegin(w) || (t.steps[n] != SyncEnd(w) && InSync(t, n, w))
  {
    if t.steps[n] == SyncBegin(w) {
      assert Syncing(t, n, n + 1, w);
    } else if t.steps[n] != SyncEnd(w) && InSync(t, n, w) {
      var b: nat :| Syncing(t, b, n, w);
      assert Syncing(t, b, n + 1, w);
    }
    if t.steps[n] != SyncBegin(w) && InSync(t, n + 1, w) {
      var b: nat :| Syncing(t, b, n + 1, w);
      assert Syncing(t, b, n, w);
    }
  }

  lemma {:induction false} SyncBeginsIff(d: Discipline, t: Trace, n: nat, w: Writer)
    requires RcuRun(d, t) && n <= |t.steps|
    ensures Enabled(d, t.states[n], SyncBegin(w)) <==> !InSync(t, n, w)
  {
    if n > 0 {
      SyncBeginsIff(d, t, n - 1, w);
      OneStep(d, t, n - 1);
      SyncProgress(t, n - 1, w);
    }
  }

  // ---------------------------------------------------------------- nodes are freed

  /** x has been replaced, or its replacement is under way. */
  predicate Spared(s: State, x: Node) {
    Is(s, x, Replaced) || (s.op.Replacing? && s.op.was == x)
  }

  lemma StaysSpared(d: Discipline, s: State, l: Label, x: Node)
    requires OpInv(s) && QueueInv(s) && Enabled(d, s, l) && Spared(s, x)
    ensures Spared(Step(d, s, l), x)
  {
    StepMoves(d, s, l, x);
    match l
    case CallRcu(w) => assert Is(s, s.owes[w], Unlinked);
    case RunCallback(k) => assert Is(s, s.callbacks[k].node, Awaiting);
    case _ =>
  }

  lemma SparedStep(d: Discipline, t: Trace, k: nat, x: Node)
    requires RcuRun(d, t) && 0 < k < |t.states| && Spared(t.states[k - 1], x)
    ensures Spared(t.states[k], x)
  {
    RunInv(d, t, k - 1);
    OneStep(d, t, k - 1);
    StaysSpared(d, t.states[k - 1], t.steps[k - 1], x);
  }

  lemma SparedIsNotFreed(s: State, x: Node)
    requires OpInv(s) && Spared(s, x)
    ensures !Is(s, x, Freed)
  {
  }

  /** However a run goes on, a node that was replaced or is being replaced is never freed. */
  lemma {:induction false} SparedForGood(d: Discipline, t: Trace, n: nat, k: nat, x: Node)
    requires RcuRun(d, t) && n <= k < |t.states| && Spared(t.states[n], x)
    ensures Spared(t.states[k], x) && !Is(t.states[k], x, Freed)
  {
    RunInv(d, t, k);
    if n < k {
      SparedForGood(d, t, n, k - 1, x);
      SparedStep(d, t, k, x);
    }
    SparedIsNotFreed(t.states[k], x);
  }

  /** u goes on from t without a step of r and ends with x freed. */
  ghost predicate Frees(d: Discipline, t: Trace, u: Trace, r: Reader, x: Node) {
    RcuRun(d, u) && OthersOnly(t, u, r) && Is(u.Last(), x, Freed)
  }

  lemma AwaitingFreed(d: Discipline, t: Trace, r: Reader, x: Node, k: nat) returns (u: Trace)
    requires RcuRun(d, t) && r !in t.Last().sections
    requires k < |t.Last().callbacks| && t.Last().callbacks[k].node == x
    ensures Frees(d, t, u, r, x)
  {
    var v := Drain(d, t, r);
    Reachable(d, v);
    u := Go(d, v, RunCallback(k));
    OthersAddUp(t, v, u, r);
  }

  lemma UnlinkedFreed(d: Discipline, t: Trace, r: Reader, x: Node, w: Writer) returns (u: Trace)
    requires RcuRun(d, t) && r !in t.Last().sections && w in t.Last().owes && t.Last().owes[w] == x
    ensures Frees(d, t, u, r, x)
  {
    var v := Go(d, t, CallRcu(w));
    u := AwaitingFreed(d, v, r, x, |t.Last().callbacks|);
    OthersAddUp(t, v, u, r);
  }

  /** A writer with the lock and nothing half finished deletes x, after handing over what it still owes. */
  lemma {:induction false} IdleFrees(d: Discipline, t: Trace, r: Reader, x: Node, w: Writer) returns (u: Trace)
    requires RcuRun(d, t) && r !in t.Last().sections && Is(t.Last(), x, Linked)
    requires t.Last().lock == Some(w) && t.Last().op == NoOp
    ensures Frees(d, t, u, r, x)
    decreases w in t.Last().owes
  {
    if w in t.Last().owes {
      Reachable(d, t);
      var v := Go(d, t, CallRcu(w));
      u := IdleFrees(d, v, r, x, w);
      OthersAddUp(t, v, u, r);
    } else {
      var v := Go(d, t, Delete(w, x));
      u := UnlinkedFreed(d, v, r, x, w);
      OthersAddUp(t, v, u, r);
    }
  }

  /** x is linked or fresh, and no half-finished operation is about it. */
  predicate Settled(s: State, x: Node) {
    (Is(s, x, Linked) || Is(s, x, Fresh)) && (s.op != NoOp ==> s.op.n != x) && !Spared(s, x)
  }

  /** The lock can be had with nothing half finished: whoever has it completes its operation first. */
  lemma TakeTurn(d: Discipline, t: Trace, r: Reader) returns (u: Trace, w: Writer)
    requires RcuRun(d, t)
    ensures RcuRun(d, u) && OthersOnly(t, u, r) && u.Last().sections == t.Last().sections
    ensures u.Last().lock == Some(w) && u.Last().op == NoOp && |u.steps| <= |t.steps| + 1
    ensures forall x :: Settled(t.Last(), x) ==> Where(u.Last(), x) == Where(t.Last(), x)
  {
    Reachable(d, t);
    var s := t.Last();
    w := if s.lock == None then 0 else s.lock.value;
    if s.lock.Some? && s.op == NoOp {
      u := t;
    } else if s.lock == None {
      u := Go(d, t, Acquire(w));
    } else {
      u := Go(d, t, if s.op.Adding? then PublishAdd(w) else PublishReplace(w));
    }
  }

  /** Any writer can get the lock from any other: the holder completes its operation and releases it. */
  lemma CanLock(d: Discipline, t: Trace, w: Writer) returns (u: Trace)
    requires RcuRun(d, t)
    ensures RcuRun(d, u) && t.Begins(u) && u.Last().lock == Some(w) && u.Last().op == NoOp
    ensures |u.steps| <= |t.steps| + 3
  {
    var v;
    u, v := TakeTurn(d, t, 0);
    if v != w {
      u := Go(d, u, Release(v));
      u := Go(d, u, Acquire(w));
    }
  }

  lemma LinkedIsSettled(d: Discipline, t: Trace, x: Node)
    requires RcuRun(d, t) && Is(t.Last(), x, Linked) && !Spared(t.Last(), x)
    ensures Settled(t.Last(), x)
  {
    Reachable(d, t);
  }

  /**
    From every reachable state of either discipline, every node that was ever linked can be freed without
    a step of any reader that is outside its read sections, unless it was replaced or is being replaced.
    */
  lemma CanBeFreed(d: Discipline, t: Trace, r: Reader, x: Node) returns (u: Trace)
    requires RcuRun(d, t) && r !in t.Last().sections && EverLinked(t.Last(), x) && !Spared(t.Last(), x)
    ensures Frees(d, t, u, r, x)
  {
    Reachable(d, t);
    match t.Last().status[x] {
      case Linked =>
        LinkedIsSettled(d, t, x);
        var v, w := TakeTurn(d, t, r);
        u := IdleFrees(d, v, r, x, w);
        OthersAddUp(t, v, u, r);
      case Unlinked =>
        assert Owed(t.Last(), x);
        var w :| w in t.Last().owes && t.Last().owes[w] == x;
        u := UnlinkedFreed(d, t, r, x, w);
      case Awaiting =>
        assert Scheduled(t.Last(), x);
        var k :| 0 <= k < |t.Last().callbacks| && t.Last().callbacks[k].node == x;
        u := AwaitingFreed(d, t, r, x, k);
      case Freed => u := t;
    }
  }

  /** u goes on from t to a state in which x is freed. */
  ghost predicate Reclaims(d: Discipline, t: Trace, u: Trace, x: Node) {
    RcuRun(d, u) && t.Begins(u) && Is(u.Last(), x, Freed)
  }

  /** Which nodes leak: a node that was ever linked can still be freed exactly when no replacement took it. */
  lemma ReclaimedIff(d: Discipline, t: Trace, x: Node)
    requires RcuRun(d, t) && EverLinked(t.Last(), x)
    ensures (exists u :: Reclaims(d, t, u, x)) <==> !Spared(t.Last(), x)
  {
    if Spared(t.Last(), x) {
      forall u | Reclaims(d, t, u, x) ensures false {
        SparedForGood(d, u, |t.steps|, |u.steps|, x);
      }
    } else {
      var r := Unused(t.Last().sections);
      var u := CanBeFreed(d, t, r, x);
      assert Reclaims(d, t, u, x);
    }
  }

  // ---------------------------------------------------------------- nodes are linked

  /** A newly allocated node is no business of any half-finished operation. */
  lemma Allocate(d: Discipline, t: Trace, x: Node) returns (u: Trace)
    requires RcuRun(d, t) && x != HEAD && x !in t.Last().status
    ensures RcuRun(d, u) && t.Begins(u) && Is(u.Last(), x, Fresh) && Settled(u.Last(), x)
    ensures forall y :: Settled(t.Last(), y) ==> y != x && Settled(u.Last(), y) && Where(u.Last(), y) == Where(t.Last(), y)
  {
    Reachable(d, t);
    u := Go(d, t, Alloc(x));
  }

  /** From every reachable state a new node can be allocated and put on the list. */
  lemma CanBeLinked(d: Discipline, t: Trace, x: Node) returns (u: Trace)
    requires RcuRun(d, t) && x != HEAD && x !in t.Last().status
    ensures RcuRun(d, u) && t.Begins(u) && Is(u.Last(), x, Linked)
  {
    u := Allocate(d, t, x);
    var w;
    u, w := TakeTurn(d, u, 0);
    u := Go(d, u, PrepareAdd(w, x));
    u := Go(d, u, PublishAdd(w));
  }

  /** From every reachable state any node of the list can be replaced by a new one, or is being replaced. */
  lemma CanBeReplaced(d: Discipline, t: Trace, x: Node, n: Node) returns (u: Trace)
    requires RcuRun(d, t) && Is(t.Last(), x, Linked) && !Spared(t.Last(), x) && n != HEAD && n !in t.Last().status
    ensures RcuRun(d, u) && t.Begins(u) && Is(u.Last(), x, Replaced) && Is(u.Last(), n, Linked)
  {
    LinkedIsSettled(d, t, x);
    u := Allocate(d, t, n);
    var w;
    u, w := TakeTurn(d, u, 0);
    u := Go(d, u, PrepareReplace(w, x, n));
    u := Go(d, u, PublishReplace(w));
  }
}
