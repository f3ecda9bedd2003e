/**
  The readers of rcu/code.c open and close a read section inside the loop body, so that the cursor outlives
  the section; the delete loop holds a cursor over list_del_rcu and call_rcu in the same way.  This is not
  enough: between two bodies the node under the cursor can be deleted, its grace period can end, and it can
  be freed.  The nodes that are safe from this are exactly those taken off the list by a replacement, which
  nothing ever frees.

  A thread that both walks and writes has one name as a reader and one as a writer.
  */
module RcuBracketing {
  import opened Basics
  import opened RcuProtocol
  import opened RcuSafety
  import opened RcuProgress

  /** Between two loop bodies of reader r: outside any section, cursor on x, walk not over. */
  predicate BetweenBodies(s: State, r: Reader, x: Node) {
    && r in s.walks && r !in s.sections && x != HEAD
    && s.walks[r].cursor == x && !s.walks[r].done
  }

  /** u goes on from t to a state in which x is freed under the cursor of r, which has not moved. */
  ghost predicate Dangles(t: Trace, u: Trace, r: Reader, x: Node) {
    RcuRun(PerBody, u) && OthersOnly(t, u, r) && BetweenBodies(u.Last(), r, x) && Is(u.Last(), x, Freed)
  }

  // ---------------------------------------------------------------- cursors stand on nodes

  lemma EverLinkedKept(d: Discipline, s: State, l: Label, x: Node)
    requires Enabled(d, s, l) && EverLinked(s, x)
    ensures EverLinked(Step(d, s, l), x)
  {
    StepMoves(d, s, l, x);
  }

  lemma HopOnNode(s: State, h: History, c: Node)
    requires RingInv(s, h) && RankInv(s, h) && (c == HEAD || EverLinked(s, c))
    ensures Get(s.next, c) == HEAD || EverLinked(s, Get(s.next, c))
  {
    if c == HEAD {
      FirstLink(s, h);
      RingMember(HEAD, h.list, 1);
    } else {
      assert Up(s.next, h.list, h.rank, c);
    }
  }

  /** Other steps than its own leave a cursor where it is. */
  lemma WalkSettled(s: State, l: Label, r: Reader)
    requires Enabled(PerBody, s, l) && l != Advance(r) && r in Step(PerBody, s, l).walks
    ensures r in s.walks ==> Step(PerBody, s, l).walks[r] == s.walks[r]
    ensures r !in s.walks ==> Step(PerBody, s, l).walks[r].cursor == HEAD
  {
  }

  lemma CursorStep(s: State, h: History, l: Label, r: Reader)
    requires RingInv(s, h) && RankInv(s, h) && Enabled(PerBody, s, l) && r in Step(PerBody, s, l).walks
    requires r in s.walks ==> s.walks[r].cursor == HEAD || EverLinked(s, s.walks[r].cursor)
    ensures var s' := Step(PerBody, s, l); s'.walks[r].cursor == HEAD || EverLinked(s', s'.walks[r].cursor)
  {
    if l == Advance(r) {
      HopOnNode(s, h, s.walks[r].cursor);
    } else {
      WalkSettled(s, l, r);
      if r in s.walks && s.walks[r].cursor != HEAD {
        EverLinkedKept(PerBody, s, l, s.walks[r].cursor);
      }
    }
  }

  /** Even between bodies a cursor is at HEAD or on a node that was on the list once. */
  lemma {:induction false} CursorOnNode(t: Trace, k: nat, r: Reader)
    requires RcuRun(PerBody, t) && k < |t.states| && r in t.states[k].walks
    ensures t.states[k].walks[r].cursor == HEAD || EverLinked(t.states[k], t.states[k].walks[r].cursor)
  {
    if k > 0 {
      RunInv(PerBody, t, k - 1);
      OneStep(PerBody, t, k - 1);
      if r in t.states[k - 1].walks {
        CursorOnNode(t, k - 1, r);
      }
      CursorStep(t.states[k - 1], HistAt(t, k - 1), t.steps[k - 1], r);
    }
  }

  // ---------------------------------------------------------------- how a node gets freed under a cursor

  lemma StaysBetween(s: State, l: Label, r: Reader, x: Node)
    requires Enabled(PerBody, s, l) && BetweenBodies(s, r, x) && !ReaderStep(l, r)
    ensures BetweenBodies(Step(PerBody, s, l), r, x)
  {
  }

  /** Steps of others leave the cursor of r between its bodies. */
  lemma {:induction false} CursorStays(t: Trace, u: Trace, r: Reader, x: Node, k: nat)
    requires RcuRun(PerBody, t) && RcuRun(PerBody, u) && OthersOnly(t, u, r) && BetweenBodies(t.Last(), r, x)
    requires |t.steps| <= k < |u.states|
    ensures BetweenBodies(u.states[k], r, x)
  {
    if k > |t.steps| {
      CursorStays(t, u, r, x, k - 1);
      OneStep(PerBody, u, k - 1);
      StaysBetween(u.states[k - 1], u.steps[k - 1], r, x);
    }
  }

  /**
    From every reachable state in which reader r is between two bodies on x, whoever holds the lock and
    whatever is half finished, the run can go on without a step of r so that x is freed under the cursor,
    unless x was replaced or is being replaced.  The reader's next access, to the data or to the next
    pointer, is then to freed memory.
    */
  lemma CursorCanDangle(t: Trace, r: Reader, x: Node) returns (u: Trace)
    requires RcuRun(PerBody, t) && BetweenBodies(t.Last(), r, x) && !Spared(t.Last(), x)
    ensures Dangles(t, u, r, x) && t.Begins(u)
    ensures Enabled(PerBody, u.Last(), Advance(r)) && Enabled(PerBody, u.Last(), Enter(r))
    ensures !ReadersSafe(u.Last())
  {
    CursorOnNode(t, |t.steps|, r);
    u := CanBeFreed(PerBody, t, r, x);
    CursorStays(t, u, r, x, |u.steps|);
    assert Follow(u.Last().next, u.Last().walks[r].cursor, 0) == x;
  }

  /**
    The exact condition: a cursor between bodies can be left dangling if and only if its node is neither
    replaced nor about to be.
    */
  lemma DanglesIff(t: Trace, r: Reader, x: Node)
    requires RcuRun(PerBody, t) && BetweenBodies(t.Last(), r, x)
    ensures (exists u :: Dangles(t, u, r, x)) <==> !Spared(t.Last(), x)
  {
    if Spared(t.Last(), x) {
      forall u | Dangles(t, u, r, x) ensures false {
        SparedForGood(PerBody, u, |t.steps|, |u.steps|, x);
      }
    } else {
      var u := CursorCanDangle(t, r, x);
    }
  }

  // ---------------------------------------------------------------- the bracketing that is needed

  lemma OneNodeList() returns (t: Trace)
    ensures RcuRun(PerBody, t)
    ensures Is(t.Last(), 1, Linked) && Get(t.Last().next, HEAD) == 1 && t.Last().op == NoOp
    ensures t.Last().walks == map[] && t.Last().sections == {}
  {
    t := Go(PerBody, Run([INIT], []), Alloc(1));
    t := Go(PerBody, t, Acquire(0));
    t := Go(PerBody, t, PrepareAdd(0, 1));
    t := Go(PerBody, t, PublishAdd(0));
  }

  /** A reader that is about to enter its first loop body, on a list of one node. */
  lemma FirstBody() returns (t: Trace)
    ensures RcuRun(PerBody, t) && BetweenBodies(t.Last(), 7, 1) && !Spared(t.Last(), 1)
  {
    t := OneNodeList();
    t := Go(PerBody, t, BeginWalk(7));
    t := Go(PerBody, t, Advance(7));
  }

  /** Readers are safe in every run exactly when the read section spans the whole walk. */
  lemma SafeIffWholeWalk(d: Discipline)
    ensures (forall t :: RcuRun(d, t) ==> ReadersSafe(t.Last())) <==> d == WholeWalk
  {
    if d == WholeWalk {
      forall t | RcuRun(d, t) ensures ReadersSafe(t.Last()) {
        NoReaderOnFreedNode(t, |t.steps|);
      }
    } else {
      var t := FirstBody();
      var u := CursorCanDangle(t, 7, 1);
      assert RcuRun(d, u) && !ReadersSafe(u.Last());
    }
  }
}
