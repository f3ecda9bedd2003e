/**
  What one pass over the RCU-protected list sees while writers keep changing it.
  A walk is described by two positions of a run t: b, where the cursor has just been put at HEAD, and a
  later n at which the walk is still going on or has just ended.
  */
module RcuWalk {
  import opened Basics
  import opened RcuProtocol
  import opened RcuSafety

  /** The walk that r began just before position b is still the walk of r at position n. */
  ghost predicate Walking(t: Trace, b: nat, n: nat, r: Reader) {
    && 0 < b <= n <= |t.steps| && t.steps[b - 1] == BeginWalk(r)
    && forall k :: b <= k < n ==> t.steps[k] != Leave(r)
  }

  ghost predicate LinkedThroughout(t: Trace, b: nat, n: nat, z: Node)
    requires n < |t.states|
  {
    forall k :: b <= k <= n ==> Is(t.states[k], z, Linked)
  }

  ghost predicate LinkedSometime(t: Trace, b: nat, n: nat, z: Node)
    requires n < |t.states|
  {
    exists k :: b <= k <= n && Is(t.states[k], z, Linked)
  }

  /** r has a walk at position n. */
  predicate HasWalk(t: Trace, n: nat, r: Reader) {
    n < |t.states| && r in t.states[n].walks
  }

  function WalkAt(t: Trace, n: nat, r: Reader): Walk
    requires HasWalk(t, n, r)
  {
    t.states[n].walks[r]
  }

  // ---------------------------------------------------------------- single steps

  /** The only nodes a walk can newly get to are those just published. */
  lemma NewlyVisitable(s: State, h: History, l: Label, r: Reader, y: Node)
    requires MayVisit(Record(s, h, l), r, y)
    ensures MayVisit(h, r, y) || y in Record(s, h, l).list
  {
    if l.Delete? && l.x in h.list {
      assert forall z :: z in Drop(h.list, Index(h.list, l.x)) ==> z in h.list;
    }
  }

  /** Two places of one list are ordered as their ranks are. */
  lemma PlacesOrdered(h: History, j: nat, k: nat)
    requires Ordered(h.list, h.rank) && j < |h.list| && k < |h.list|
    ensures h.rank[h.list[j]] < h.rank[h.list[k]] <==> j < k
  {
    assert k < j ==> h.rank[h.list[k]] < h.rank[h.list[j]];
  }

  lemma RanksDiffer(h: History, y: Node, z: Node)
    requires Ordered(h.list, h.rank) && y in h.list && z in h.list && y != z
    ensures h.rank[y] != h.rank[z]
  {
    PlacesOrdered(h, Index(h.list, y), Index(h.list, z));
    PlacesOrdered(h, Index(h.list, z), Index(h.list, y));
  }

  /** The walk has passed the place of z. */
  ghost predicate Passed(h: History, w: Walk, z: Node) {
    w.done || (w.cursor in h.rank && z in h.rank && h.rank[z] <= h.rank[w.cursor])
  }

  lemma FirstIsLowest(h: History, z: Node)
    requires Ordered(h.list, h.rank) && z in h.list
    ensures h.rank[h.list[0]] <= h.rank[z]
  {
    PlacesOrdered(h, Index(h.list, z), 0);
  }

  /** One hop of the cursor skips no node of the list. */
  lemma HopSkipsNothing(s: State, h: History, r: Reader, z: Node)
    requires StructInv(s, h) && WalkOk(s, h, r) && Enabled(WholeWalk, s, Advance(r)) && z in h.list
    requires Passed(h, Step(WholeWalk, s, Advance(r)).walks[r], z)
    ensures z in h.rank && HEAD !in h.rank
    ensures Passed(h, s.walks[r], z) ||
      (var y := Get(s.next, s.walks[r].cursor); y in h.rank && h.rank[y] == h.rank[z])
  {
    CursorFacts(s, h, r);
    if s.walks[r].cursor == HEAD {
      FirstIsLowest(h, z);
    }
  }

  lemma CursorFacts(s: State, h: History, r: Reader)
    requires StructInv(s, h) && r in s.walks && WalkOk(s, h, r)
    ensures HEAD !in h.rank && Get(s.next, HEAD) == Ring(HEAD, h.list)[1]
    ensures s.walks[r].cursor != HEAD ==>
      s.walks[r].cursor in h.rank && Up(s.next, h.list, h.rank, s.walks[r].cursor)
  {
    FirstLink(s, h);
  }

  // ---------------------------------------------------------------- the same, along a run

  lemma {:induction false} WalkExists(t: Trace, b: nat, n: nat, r: Reader)
    requires RcuRun(WholeWalk, t) && Walking(t, b, n, r)
    ensures HasWalk(t, n, r)
  {
    OneStep(WholeWalk, t, n - 1);
    if n > b {
      WalkExists(t, b, n - 1, r);
      RunInv(WholeWalk, t, n - 1);
      assert WalkOk(t.states[n - 1], HistAt(t, n - 1), r);
      if t.steps[n - 1] != Advance(r) {
        WalkUntouched(t.states[n - 1], t.steps[n - 1], r);
      }
    }
  }

  /** A walk other than by its own reader's steps stays as it is. */
  lemma WalkRests(t: Trace, n: nat, r: Reader)
    requires RcuRun(WholeWalk, t) && 0 < n < |t.states| && HasWalk(t, n - 1, r)
    requires t.steps[n - 1] != Advance(r) && t.steps[n - 1] != Leave(r)
    ensures HasWalk(t, n, r) && WalkAt(t, n, r) == WalkAt(t, n - 1, r)
  {
    OneStep(WholeWalk, t, n - 1);
    RunInv(WholeWalk, t, n - 1);
    assert WalkOk(t.states[n - 1], HistAt(t, n - 1), r);
    WalkUntouched(t.states[n - 1], t.steps[n - 1], r);
  }

  lemma ListFacts(t: Trace, n: nat)
    requires RcuRun(WholeWalk, t) && n < |t.states|
    ensures Ordered(HistAt(t, n).list, HistAt(t, n).rank) && HEAD !in HistAt(t, n).rank
    ensures forall z :: z in HistAt(t, n).list <==> Is(t.states[n], z, Linked)
  {
    RunInv(WholeWalk, t, n);
  }

  lemma VisitStep(t: Trace, n: nat, r: Reader, y: Node)
    requires RcuRun(WholeWalk, t) && 0 < n < |t.states| && MayVisit(HistAt(t, n), r, y)
    ensures MayVisit(HistAt(t, n - 1), r, y) || y in HistAt(t, n).list
  {
    NewlyVisitable(t.states[n - 1], HistAt(t, n - 1), t.steps[n - 1], r, y);
  }

  /** A reader without a walk holds on to no node off the list. */
  lemma HoldersWalk(t: Trace, n: nat, r: Reader, y: Node)
    requires RcuRun(WholeWalk, t) && n < |t.states| && r !in t.states[n].walks && y in HistAt(t, n).holders
    ensures r !in HistAt(t, n).holders[y]
  {
    RunInv(WholeWalk, t, n);
    assert r !in Walkers(t.states[n]);
  }

  /** A walk that has just begun holds on to no node off the list. */
  lemma BeginsClean(t: Trace, b: nat, r: Reader, y: Node)
    requires RcuRun(WholeWalk, t) && Walking(t, b, b, r) && MayVisit(HistAt(t, b), r, y)
    ensures y == HEAD || y in HistAt(t, b).list
  {
    OneStep(WholeWalk, t, b - 1);
    if y in HistAt(t, b - 1).holders {
      HoldersWalk(t, b - 1, r, y);
    }
  }

  /** What the half-finished operation is about, as the history has it. */
  lemma OpFacts(t: Trace, n: nat)
    requires RcuRun(WholeWalk, t) && n < |t.states|
    ensures var s, h := t.states[n], HistAt(t, n);
      && (s.op.Adding? ==> s.op.n !in h.rank)
      && (s.op.Replacing? ==> s.op.n !in h.rank && s.op.was in h.list && s.op.was in h.rank && s.op.was != HEAD)
  {
    RunInv(WholeWalk, t, n);
  }

  lemma RankStep(t: Trace, n: nat, x: Node)
    requires RcuRun(WholeWalk, t) && 0 < n < |t.states| && x in HistAt(t, n - 1).rank
    ensures x in HistAt(t, n).rank && HistAt(t, n).rank[x] == HistAt(t, n - 1).rank[x]
  {
    OpFacts(t, n - 1);
  }

  lemma WalkFacts(t: Trace, n: nat, r: Reader)
    requires RcuRun(WholeWalk, t) && HasWalk(t, n, r)
    ensures WalkShape(HistAt(t, n), WalkAt(t, n, r)) && MayVisit(HistAt(t, n), r, WalkAt(t, n, r).cursor)
    ensures WalkAt(t, n, r).cursor == HEAD || WalkAt(t, n, r).cursor in HistAt(t, n).rank
  {
    RunInv(WholeWalk, t, n);
    assert WalkOk(t.states[n], HistAt(t, n), r);
  }

  /** What one hop of the walk does. */
  lemma HopFacts(t: Trace, n: nat, r: Reader)
    requires RcuRun(WholeWalk, t) && 0 < n < |t.states| && HasWalk(t, n - 1, r) && t.steps[n - 1] == Advance(r)
    ensures HasWalk(t, n, r) && HistAt(t, n) == HistAt(t, n - 1) && !WalkAt(t, n - 1, r).done
    ensures var w, w', y := WalkAt(t, n - 1, r), WalkAt(t, n, r), Get(t.states[n - 1].next, WalkAt(t, n - 1, r).cursor);
      w' == (if y == HEAD then Walk(HEAD, w.seen, true) else Walk(y, w.seen + [y], false))
  {
    OneStep(WholeWalk, t, n - 1);
  }

  /** A walk only ever gets to nodes that were on the list at some moment of the walk. */
  lemma {:induction false} VisitsWereLinked(t: Trace, b: nat, n: nat, r: Reader, y: Node)
    requires RcuRun(WholeWalk, t) && Walking(t, b, n, r) && y != HEAD && MayVisit(HistAt(t, n), r, y)
    ensures LinkedSometime(t, b, n, y)
  {
    ListFacts(t, n);
    if n == b {
      BeginsClean(t, b, r, y);
    }
    if y in HistAt(t, n).list {
      assert Is(t.states[n], y, Linked);
    } else {
      VisitStep(t, n, r, y);
      VisitsWereLinked(t, b, n - 1, r, y);
      var k :| b <= k <= n - 1 && Is(t.states[k], y, Linked);
    }
  }

  /** The nodes seen at n are those seen before, and possibly the one under the cursor. */
  lemma SeenStep(t: Trace, b: nat, n: nat, r: Reader)
    requires RcuRun(WholeWalk, t) && Walking(t, b, n, r)
    ensures HasWalk(t, n, r)
    ensures n == b ==> WalkAt(t, n, r) == Walk(HEAD, [], false)
    ensures n > b ==> HasWalk(t, n - 1, r)
    ensures n > b ==>
      || WalkAt(t, n, r).seen == WalkAt(t, n - 1, r).seen
      || (&& WalkAt(t, n, r).cursor != HEAD
          && WalkAt(t, n, r).seen == WalkAt(t, n - 1, r).seen + [WalkAt(t, n, r).cursor])
  {
    WalkExists(t, b, n, r);
    if n == b {
      OneStep(WholeWalk, t, n - 1);
    } else {
      WalkExists(t, b, n - 1, r);
      if t.steps[n - 1] == Advance(r) {
        HopFacts(t, n, r);
      } else {
        WalkRests(t, n, r);
      }
    }
  }

  lemma {:induction false} SeenWereLinked(t: Trace, b: nat, n: nat, r: Reader, i: nat)
    requires RcuRun(WholeWalk, t) && Walking(t, b, n, r) && HasWalk(t, n, r) && i < |WalkAt(t, n, r).seen|
    ensures LinkedSometime(t, b, n, WalkAt(t, n, r).seen[i])
  {
    SeenStep(t, b, n, r);
    if n > b && i < |WalkAt(t, n - 1, r).seen| {
      SeenWereLinked(t, b, n - 1, r, i);
      var k :| b <= k <= n - 1 && Is(t.states[k], WalkAt(t, n - 1, r).seen[i], Linked);
    } else {
      WalkFacts(t, n, r);
      VisitsWereLinked(t, b, n, r, WalkAt(t, n, r).seen[i]);
    }
  }

  /** A node linked throughout the walk shares its place in the order with nothing else the walk can get to. */
  lemma {:induction false} PlaceIsItsOwn(t: Trace, b: nat, n: nat, r: Reader, z: Node, y: Node)
    requires RcuRun(WholeWalk, t) && Walking(t, b, n, r) && LinkedThroughout(t, b, n, z)
    requires y != HEAD && y != z && MayVisit(HistAt(t, n), r, y)
    ensures y in HistAt(t, n).rank && z in HistAt(t, n).rank && HistAt(t, n).rank[y] != HistAt(t, n).rank[z]
  {
    ListFacts(t, n);
    assert Is(t.states[n], z, Linked);
    if n == b {
      BeginsClean(t, b, r, y);
    }
    if y in HistAt(t, n).list {
      RanksDiffer(HistAt(t, n), y, z);
    } else {
      VisitStep(t, n, r, y);
      PlaceIsItsOwn(t, b, n - 1, r, z, y);
      RankStep(t, n, y);
      RankStep(t, n, z);
    }
  }

  /** After a hop past z, either the walk was past z before, or it now stands on the place of z. */
  lemma HopStep(t: Trace, n: nat, r: Reader, z: Node)
    requires RcuRun(WholeWalk, t) && 0 < n < |t.states| && HasWalk(t, n - 1, r) && t.steps[n - 1] == Advance(r)
    requires HasWalk(t, n, r) && Is(t.states[n - 1], z, Linked) && Passed(HistAt(t, n), WalkAt(t, n, r), z)
    ensures z in HistAt(t, n).rank
    ensures Passed(HistAt(t, n - 1), WalkAt(t, n - 1, r), z) ||
      (&& WalkAt(t, n, r).cursor in HistAt(t, n).rank && WalkAt(t, n, r).cursor != HEAD
       && HistAt(t, n).rank[WalkAt(t, n, r).cursor] == HistAt(t, n).rank[z]
       && WalkAt(t, n, r).cursor in WalkAt(t, n, r).seen)
  {
    HopFacts(t, n, r);
    RunInv(WholeWalk, t, n - 1);
    OneStep(WholeWalk, t, n - 1);
    assert WalkOk(t.states[n - 1], HistAt(t, n - 1), r);
    HopSkipsNothing(t.states[n - 1], HistAt(t, n - 1), r, z);
  }

  /** A node linked throughout the walk has been seen as soon as the cursor is past its place. */
  lemma {:induction false} NothingSkipped(t: Trace, b: nat, n: nat, r: Reader, z: Node)
    requires RcuRun(WholeWalk, t) && Walking(t, b, n, r) && LinkedThroughout(t, b, n, z)
    requires HasWalk(t, n, r) && Passed(HistAt(t, n), WalkAt(t, n, r), z)
    ensures z in WalkAt(t, n, r).seen
  {
    SeenStep(t, b, n, r);
    ListFacts(t, n);
    if n > b {
      assert Is(t.states[n - 1], z, Linked);
      if t.steps[n - 1] == Advance(r) {
        HopStep(t, n, r, z);
        if Passed(HistAt(t, n - 1), WalkAt(t, n - 1, r), z) {
          NothingSkipped(t, b, n - 1, r, z);
        } else if WalkAt(t, n, r).cursor != z {
          WalkFacts(t, n, r);
          PlaceIsItsOwn(t, b, n, r, z, WalkAt(t, n, r).cursor);
        }
      } else {
        RestPassed(t, n, r, z);
        NothingSkipped(t, b, n - 1, r, z);
      }
    }
  }

  lemma RestPassed(t: Trace, n: nat, r: Reader, z: Node)
    requires RcuRun(WholeWalk, t) && 0 < n < |t.states| && HasWalk(t, n - 1, r)
    requires t.steps[n - 1] != Advance(r) && t.steps[n - 1] != Leave(r)
    requires Is(t.states[n - 1], z, Linked) && HasWalk(t, n, r) && Passed(HistAt(t, n), WalkAt(t, n, r), z)
    ensures WalkAt(t, n, r) == WalkAt(t, n - 1, r) && Passed(HistAt(t, n - 1), WalkAt(t, n - 1, r), z)
  {
    WalkRests(t, n, r);
    WalkFacts(t, n - 1, r);
    ListFacts(t, n - 1);
    ListFacts(t, n);
    RankStep(t, n, z);
    if WalkAt(t, n, r).cursor != HEAD {
      RankStep(t, n, WalkAt(t, n, r).cursor);
    }
  }

  lemma OrderAgrees(t: Trace, n: nat, r: Reader, i: nat, j: nat)
    requires RcuRun(WholeWalk, t) && HasWalk(t, n, r) && i < j < |WalkAt(t, n, r).seen|
    ensures WalkAt(t, n, r).seen[i] != WalkAt(t, n, r).seen[j]
    ensures var q, y, z := HistAt(t, n).list, WalkAt(t, n, r).seen[i], WalkAt(t, n, r).seen[j];
      y in q && z in q ==> Index(q, y) < Index(q, z)
  {
    WalkFacts(t, n, r);
    ListFacts(t, n);
    var q, y, z := HistAt(t, n).list, WalkAt(t, n, r).seen[i], WalkAt(t, n, r).seen[j];
    if y in q && z in q {
      PlacesOrdered(HistAt(t, n), Index(q, y), Index(q, z));
    }
  }

  /** Elements of seen that are on the list q stand in list order. */
  ghost predicate InListOrder(seen: seq<Node>, q: seq<Node>) {
    forall i, j :: 0 <= i < j < |seen| && seen[i] in q && seen[j] in q ==> Index(q, seen[i]) < Index(q, seen[j])
  }

  /**
    What a completed walk has seen, whatever any number of writers did meanwhile: every node that stayed
    on the list all the time; no node twice; nothing that was not on the list at some moment of the walk;
    and nodes still on the list in list order.
    */
  lemma CompletedWalk(t: Trace, b: nat, n: nat, r: Reader)
    requires RcuRun(WholeWalk, t) && Walking(t, b, n, r) && HasWalk(t, n, r) && WalkAt(t, n, r).done
    ensures forall z :: LinkedThroughout(t, b, n, z) ==> z in WalkAt(t, n, r).seen
    ensures Distinct(WalkAt(t, n, r).seen)
    ensures forall y :: y in WalkAt(t, n, r).seen ==> LinkedSometime(t, b, n, y)
    ensures InListOrder(WalkAt(t, n, r).seen, HistAt(t, n).list)
  {
    var seen, q := WalkAt(t, n, r).seen, HistAt(t, n).list;
    forall z | LinkedThroughout(t, b, n, z) ensures z in seen {
      NothingSkipped(t, b, n, r, z);
    }
    forall y | y in seen ensures LinkedSometime(t, b, n, y) {
      SeenWereLinked(t, b, n, r, Index(seen, y));
    }
    forall i, j ensures Differ(seen, i, j) {
      if 0 <= i < j < |seen| {
        OrderAgrees(t, n, r, i, j);
      } else if 0 <= j < i < |seen| {
        OrderAgrees(t, n, r, j, i);
      }
    }
    forall i, j | 0 <= i < j < |seen| && seen[i] in q && seen[j] in q ensures Index(q, seen[i]) < Index(q, seen[j]) {
      OrderAgrees(t, n, r, i, j);
    }
  }

  // ---------------------------------------------------------------- walks that overlap replacements only

  /** Between b and n the list changed by replacements only. */
  ghost predicate OnlyReplaced(t: Trace, b: nat, n: nat) {
    b <= n <= |t.steps| && forall k :: b <= k < n ==> !t.steps[k].PublishAdd? && !t.steps[k].Delete?
  }

  ghost predicate HoldsPlace(t: Trace, k: nat, j: nat, y: Node)
    requires k <= |t.steps| < |t.states|
  {
    j < |HistAt(t, k).list| && HistAt(t, k).list[j] == y
  }

  /** Node y stood at position j of the list at some moment from b to n. */
  ghost predicate HeldPlace(t: Trace, b: nat, n: nat, j: nat, y: Node)
    requires n <= |t.steps| < |t.states|
  {
    exists k :: b <= k <= n && HoldsPlace(t, k, j, y)
  }

  /** A published replacement changes one place and no rank; a step that adds, deletes and replaces nothing changes none. */
  lemma ReplaceStep(t: Trace, n: nat) returns (i: nat)
    requires RcuRun(WholeWalk, t) && 0 < n < |t.states| && !t.steps[n - 1].PublishAdd? && !t.steps[n - 1].Delete?
    ensures |HistAt(t, n).list| == |HistAt(t, n - 1).list|
    ensures forall j :: 0 <= j < |HistAt(t, n).list| && j != i ==> HistAt(t, n).list[j] == HistAt(t, n - 1).list[j]
    ensures !t.steps[n - 1].PublishReplace? ==> HistAt(t, n).list == HistAt(t, n - 1).list
    ensures SameRanks(HistAt(t, n - 1), HistAt(t, n))
  {
    RunInv(WholeWalk, t, n - 1);
    OneStep(WholeWalk, t, n - 1);
    i := ReplaceRecord(t.states[n - 1], HistAt(t, n - 1), t.steps[n - 1]);
  }

  /** Each place has the rank it had. */
  ghost predicate SameRanks(h: History, h': History) {
    && |h'.list| == |h.list|
    && forall j :: 0 <= j < |h.list| ==>
         h.list[j] in h.rank && h'.list[j] in h'.rank && h'.rank[h'.list[j]] == h.rank[h.list[j]]
  }

  lemma ReplaceRecord(s: State, h: History, l: Label) returns (i: nat)
    requires RingInv(s, h) && RankInv(s, h) && OpInv(s) && Enabled(WholeWalk, s, l)
    requires !l.PublishAdd? && !l.Delete?
    ensures var h' := Record(s, h, l);
      && SameRanks(h, h')
      && (forall j :: 0 <= j < |h.list| && j != i ==> h'.list[j] == h.list[j])
      && (!l.PublishReplace? ==> h'.list == h.list)
  {
    RanksKept(WholeWalk, s, h, l);
    i := 0;
    if l.PublishReplace? {
      i := Index(h.list, s.op.was);
    }
    assert forall j :: 0 <= j < |h.list| ==> h.list[j] in h.rank;
  }

  /** Whatever the walk can get to stood at some place of the list meanwhile, and has the rank of that place. */
  lemma {:induction false} VisitsHeldPlace(t: Trace, b: nat, n: nat, r: Reader, y: Node) returns (j: nat)
    requires RcuRun(WholeWalk, t) && Walking(t, b, n, r) && OnlyReplaced(t, b, n)
    requires y != HEAD && MayVisit(HistAt(t, n), r, y)
    ensures j < |HistAt(t, n).list| && HeldPlace(t, b, n, j, y)
    ensures y in HistAt(t, n).rank && HistAt(t, n).list[j] in HistAt(t, n).rank
    ensures HistAt(t, n).rank[y] == HistAt(t, n).rank[HistAt(t, n).list[j]]
  {
    ListFacts(t, n);
    if n == b {
      BeginsClean(t, b, r, y);
    }
    if y in HistAt(t, n).list {
      j := Index(HistAt(t, n).list, y);
      assert HoldsPlace(t, n, j, y);
    } else {
      VisitStep(t, n, r, y);
      j := VisitsHeldPlace(t, b, n - 1, r, y);
      PlaceStep(t, b, n, j, y);
    }
  }

  /** A place keeps its rank under a replacement, and so does a node that stood at it. */
  lemma PlaceStep(t: Trace, b: nat, n: nat, j: nat, y: Node)
    requires RcuRun(WholeWalk, t) && 0 < n < |t.states| && !t.steps[n - 1].PublishAdd? && !t.steps[n - 1].Delete?
    requires j < |HistAt(t, n - 1).list| && HeldPlace(t, b, n - 1, j, y)
    requires y in HistAt(t, n - 1).rank && HistAt(t, n - 1).list[j] in HistAt(t, n - 1).rank
    requires HistAt(t, n - 1).rank[y] == HistAt(t, n - 1).rank[HistAt(t, n - 1).list[j]]
    ensures j < |HistAt(t, n).list| && HeldPlace(t, b, n, j, y)
    ensures y in HistAt(t, n).rank && HistAt(t, n).list[j] in HistAt(t, n).rank
    ensures HistAt(t, n).rank[y] == HistAt(t, n).rank[HistAt(t, n).list[j]]
  {
    RankStep(t, n, y);
    var _ := ReplaceStep(t, n);
    var k :| b <= k <= n - 1 && HoldsPlace(t, k, j, y);
    assert HoldsPlace(t, k, j, y);
  }

  /** The i-th node seen has the rank of the i-th place, and all places have been seen when the walk is done. */
  ghost predicate InPlace(h: History, w: Walk) {
    && |w.seen| <= |h.list|
    && (forall i :: 0 <= i < |w.seen| ==>
          w.seen[i] in h.rank && h.list[i] in h.rank && h.rank[w.seen[i]] == h.rank[h.list[i]])
    && (w.done ==> |w.seen| == |h.list|)
  }

  /** From the place k - 1, a pointer that skips nothing leads to place k, or to HEAD from the last place. */
  lemma NextPlace(next: map<Node, Node>, h: History, c: Node, k: nat, j: nat)
    requires Ordered(h.list, h.rank) && HEAD !in h.rank && c in h.rank && Up(next, h.list, h.rank, c)
    requires 0 < k <= |h.list| && h.rank[c] == h.rank[h.list[k - 1]]
    requires next[c] != HEAD ==> j < |h.list| && h.rank[next[c]] == h.rank[h.list[j]]
    ensures next[c] == HEAD <==> k == |h.list|
    ensures next[c] != HEAD ==> j == k
  {
    if k < |h.list| {
      PlacesOrdered(h, k - 1, k);
      assert h.list[k] in h.list && next[c] in h.rank;
      PlacesOrdered(h, k, j);
    }
    if next[c] != HEAD {
      PlacesOrdered(h, k - 1, j);
    }
  }

  lemma HopInPlace(s: State, h: History, w: Walk, j: nat)
    requires InPlace(h, w) && WalkShape(h, w) && !w.done
    requires Ordered(h.list, h.rank) && HEAD !in h.rank && Get(s.next, HEAD) == Ring(HEAD, h.list)[1]
    requires w.cursor != HEAD ==> w.cursor in h.rank && Up(s.next, h.list, h.rank, w.cursor)
    requires var y := Get(s.next, w.cursor);
      y != HEAD ==> j < |h.list| && y in h.rank && h.list[j] in h.rank && h.rank[y] == h.rank[h.list[j]]
    ensures var y := Get(s.next, w.cursor);
      InPlace(h, if y == HEAD then Walk(HEAD, w.seen, true) else Walk(y, w.seen + [y], false))
  {
    var k := |w.seen|;
    if w.cursor == HEAD {
      assert k == 0;
    } else {
      assert w.cursor == w.seen[k - 1];
      NextPlace(s.next, h, w.cursor, k, j);
    }
  }

  lemma HopInPlaceAlong(t: Trace, b: nat, n: nat, r: Reader)
    requires RcuRun(WholeWalk, t) && b < n && Walking(t, b, n, r) && OnlyReplaced(t, b, n)
    requires HasWalk(t, n - 1, r) && t.steps[n - 1] == Advance(r) && InPlace(HistAt(t, n - 1), WalkAt(t, n - 1, r))
    ensures HasWalk(t, n, r) && InPlace(HistAt(t, n), WalkAt(t, n, r))
  {
    var s, h, w := t.states[n - 1], HistAt(t, n - 1), WalkAt(t, n - 1, r);
    HopFacts(t, n, r);
    RunInv(WholeWalk, t, n - 1);
    assert WalkOk(s, h, r);
    HopMayVisit(s, h, r, w.cursor);
    var j := 0;
    if Get(s.next, w.cursor) != HEAD {
      j := VisitsHeldPlace(t, b, n - 1, r, Get(s.next, w.cursor));
    }
    CursorFacts(s, h, r);
    HopInPlace(s, h, w, j);
  }

  lemma RestInPlace(t: Trace, n: nat, r: Reader)
    requires RcuRun(WholeWalk, t) && 0 < n < |t.states| && HasWalk(t, n - 1, r)
    requires t.steps[n - 1] != Advance(r) && t.steps[n - 1] != Leave(r)
    requires !t.steps[n - 1].PublishAdd? && !t.steps[n - 1].Delete?
    requires InPlace(HistAt(t, n - 1), WalkAt(t, n - 1, r))
    ensures HasWalk(t, n, r) && InPlace(HistAt(t, n), WalkAt(t, n, r))
  {
    WalkRests(t, n, r);
    var _ := ReplaceStep(t, n);
    var seen := WalkAt(t, n, r).seen;
    forall i | 0 <= i < |seen|
      ensures seen[i] in HistAt(t, n).rank && HistAt(t, n).rank[seen[i]] == HistAt(t, n - 1).rank[seen[i]]
    {
      RankStep(t, n, seen[i]);
    }
  }

  lemma {:induction false} SeenInPlace(t: Trace, b: nat, n: nat, r: Reader)
    requires RcuRun(WholeWalk, t) && Walking(t, b, n, r) && OnlyReplaced(t, b, n)
    ensures HasWalk(t, n, r) && InPlace(HistAt(t, n), WalkAt(t, n, r))
  {
    SeenStep(t, b, n, r);
    if n > b {
      SeenInPlace(t, b, n - 1, r);
      if t.steps[n - 1] == Advance(r) {
        HopInPlaceAlong(t, b, n, r);
      } else {
        RestInPlace(t, n, r);
      }
    }
  }

  lemma LastHeldPlace(t: Trace, b: nat, n: nat, r: Reader, i: nat)
    requires RcuRun(WholeWalk, t) && Walking(t, b, n, r) && OnlyReplaced(t, b, n) && HasWalk(t, n, r)
    requires i < |WalkAt(t, n, r).seen| && WalkAt(t, n, r).seen[i] == WalkAt(t, n, r).cursor != HEAD
    ensures HeldPlace(t, b, n, i, WalkAt(t, n, r).seen[i])
  {
    WalkFacts(t, n, r);
    SeenInPlace(t, b, n, r);
    ListFacts(t, n);
    var j := VisitsHeldPlace(t, b, n, r, WalkAt(t, n, r).cursor);
    PlacesOrdered(HistAt(t, n), i, j);
    PlacesOrdered(HistAt(t, n), j, i);
  }

  /** The i-th node seen stood at place i of the list at some moment of the walk. */
  lemma {:induction false} SeenHeldPlace(t: Trace, b: nat, n: nat, r: Reader, i: nat)
    requires RcuRun(WholeWalk, t) && Walking(t, b, n, r) && OnlyReplaced(t, b, n)
    requires HasWalk(t, n, r) && i < |WalkAt(t, n, r).seen|
    ensures HeldPlace(t, b, n, i, WalkAt(t, n, r).seen[i])
  {
    SeenStep(t, b, n, r);
    if n > b && i < |WalkAt(t, n - 1, r).seen| {
      SeenHeldPlace(t, b, n - 1, r, i);
      var k :| b <= k <= n - 1 && HoldsPlace(t, k, i, WalkAt(t, n - 1, r).seen[i]);
    } else {
      LastHeldPlace(t, b, n, r, i);
    }
  }

  /**
    A completed walk that overlaps any number of replacements sees one node per place, in order,
    and at each place a node that stood there at some moment of the walk.
    */
  lemma ReplacedWalk(t: Trace, b: nat, n: nat, r: Reader)
    requires RcuRun(WholeWalk, t) && Walking(t, b, n, r) && OnlyReplaced(t, b, n)
    requires HasWalk(t, n, r) && WalkAt(t, n, r).done
    ensures |WalkAt(t, n, r).seen| == |HistAt(t, n).list|
    ensures forall i :: 0 <= i < |WalkAt(t, n, r).seen| ==> HeldPlace(t, b, n, i, WalkAt(t, n, r).seen[i])
  {
    SeenInPlace(t, b, n, r);
    forall i | 0 <= i < |WalkAt(t, n, r).seen| ensures HeldPlace(t, b, n, i, WalkAt(t, n, r).seen[i]) {
      SeenHeldPlace(t, b, n, r, i);
    }
  }

  /** Between b and n at most one replacement was published. */
  ghost predicate AtMostOneReplaced(t: Trace, b: nat, n: nat) {
    && OnlyReplaced(t, b, n)
    && forall j, k :: b <= j < k < n ==> !t.steps[j].PublishReplace? || !t.steps[k].PublishReplace?
  }

  ghost predicate NoneReplaced(t: Trace, b: nat, n: nat) {
    OnlyReplaced(t, b, n) && forall k :: b <= k < n ==> !t.steps[k].PublishReplace?
  }

  lemma {:induction false} NoChange(t: Trace, b: nat, n: nat)
    requires RcuRun(WholeWalk, t) && NoneReplaced(t, b, n)
    ensures HistAt(t, n).list == HistAt(t, b).list
  {
    if n > b {
      NoChange(t, b, n - 1);
      var _ := ReplaceStep(t, n);
    }
  }

  /** With at most one replacement, old and new list differ in at most one place, and every list between is one of them. */
  lemma {:induction false} OneChange(t: Trace, b: nat, n: nat) returns (i: nat)
    requires RcuRun(WholeWalk, t) && AtMostOneReplaced(t, b, n)
    ensures |HistAt(t, n).list| == |HistAt(t, b).list|
    ensures forall j :: 0 <= j < |HistAt(t, n).list| && j != i ==> HistAt(t, n).list[j] == HistAt(t, b).list[j]
    ensures forall k :: b <= k <= n ==> HistAt(t, k).list == HistAt(t, b).list || HistAt(t, k).list == HistAt(t, n).list
  {
    i := 0;
    if n > b {
      i := OneChange(t, b, n - 1);
      var j := ReplaceStep(t, n);
      if t.steps[n - 1].PublishReplace? {
        i := j;
        forall k | b <= k < n ensures HistAt(t, k).list == HistAt(t, b).list {
          NoChange(t, b, k);
        }
      }
    }
  }

  /** A completed walk that overlaps one replacement sees exactly the old list or exactly the new one. */
  lemma OldOrNew(t: Trace, b: nat, n: nat, r: Reader)
    requires RcuRun(WholeWalk, t) && Walking(t, b, n, r) && AtMostOneReplaced(t, b, n)
    requires HasWalk(t, n, r) && WalkAt(t, n, r).done
    ensures WalkAt(t, n, r).seen == HistAt(t, b).list || WalkAt(t, n, r).seen == HistAt(t, n).list
  {
    ReplacedWalk(t, b, n, r);
    var i := OneChange(t, b, n);
    var seen, old', new' := WalkAt(t, n, r).seen, HistAt(t, b).list, HistAt(t, n).list;
    forall j | 0 <= j < |seen| ensures seen[j] == old'[j] || seen[j] == new'[j] {
      var k :| b <= k <= n && HoldsPlace(t, k, j, seen[j]);
    }
    if i < |seen| && seen[i] != old'[i] {
      assert seen == new';
    } else {
      assert seen == old';
    }
  }

  // ---------------------------------------------------------------- walks end

  /** How many nodes were added between b and n. */
  function Adds(t: Trace, b: nat, n: nat): nat
    requires b <= n <= |t.steps|
  {
    if n == b then 0 else Adds(t, b, n - 1) + if t.steps[n - 1].PublishAdd? then 1 else 0
  }

  function RanksOf(q: seq<Node>, rank: map<Node, int>): set<int> {
    if q == [] then {} else (if q[0] in rank then {rank[q[0]]} else {}) + RanksOf(q[1..], rank)
  }

  /** The places in the order that a walk begun at b can come across. */
  function Places(t: Trace, b: nat, n: nat): set<int>
    requires b <= n <= |t.steps| < |t.states|
  {
    if n == b then RanksOf(HistAt(t, b).list, HistAt(t, b).rank)
    else Places(t, b, n - 1) + if t.steps[n - 1].PublishAdd? then {HistAt(t, n - 1).low} else {}
  }

  lemma {:induction false} RanksOfFacts(q: seq<Node>, rank: map<Node, int>)
    ensures |RanksOf(q, rank)| <= |q|
    ensures forall x :: x in q && x in rank ==> rank[x] in RanksOf(q, rank)
  {
    if q != [] {
      RanksOfFacts(q[1..], rank);
      var rest := RanksOf(q[1..], rank);
      assert q[0] in rank ==> |rest + {rank[q[0]]}| <= |rest| + 1;
    }
  }

  lemma {:induction false} PlacesBounded(t: Trace, b: nat, n: nat)
    requires b <= n <= |t.steps| < |t.states|
    ensures |Places(t, b, n)| <= |HistAt(t, b).list| + Adds(t, b, n)
  {
    if n == b {
      RanksOfFacts(HistAt(t, b).list, HistAt(t, b).rank);
    } else {
      PlacesBounded(t, b, n - 1);
    }
  }

  lemma PublishedRank(s: State, h: History, l: Label, r: Reader, y: Node)
    requires s.op.Replacing? ==> s.op.was in h.list && s.op.was in h.rank && s.op.was != HEAD
    requires MayVisit(Record(s, h, l), r, y) && !MayVisit(h, r, y)
    ensures y in Record(s, h, l).rank
    ensures l.PublishAdd? ==> Record(s, h, l).rank[y] == h.low
    ensures !l.PublishAdd? ==>
      && s.op.Replacing? && MayVisit(h, r, s.op.was) && s.op.was != HEAD
      && s.op.was in h.rank && Record(s, h, l).rank[y] == h.rank[s.op.was]
  {
    NewlyVisitable(s, h, l, r, y);
  }

  /** A node the walk could not get to before has the lowest rank, or the rank of one it could get to. */
  lemma PublishedRankAlong(t: Trace, n: nat, r: Reader, y: Node)
    requires RcuRun(WholeWalk, t) && 0 < n < |t.states|
    requires MayVisit(HistAt(t, n), r, y) && !MayVisit(HistAt(t, n - 1), r, y)
    ensures y in HistAt(t, n).rank
    ensures t.steps[n - 1].PublishAdd? ==> HistAt(t, n).rank[y] == HistAt(t, n - 1).low
    ensures !t.steps[n - 1].PublishAdd? ==> var op, h := t.states[n - 1].op, HistAt(t, n - 1);
      && op.Replacing? && MayVisit(h, r, op.was) && op.was != HEAD
      && op.was in h.rank && HistAt(t, n).rank[y] == h.rank[op.was]
  {
    OpFacts(t, n - 1);
    PublishedRank(t.states[n - 1], HistAt(t, n - 1), t.steps[n - 1], r, y);
  }

  lemma {:induction false} VisitsInPlaces(t: Trace, b: nat, n: nat, r: Reader, y: Node)
    requires RcuRun(WholeWalk, t) && Walking(t, b, n, r) && y != HEAD && MayVisit(HistAt(t, n), r, y)
    ensures y in HistAt(t, n).rank && HistAt(t, n).rank[y] in Places(t, b, n)
  {
    if n == b {
      BeginsClean(t, b, r, y);
      ListFacts(t, b);
      RanksOfFacts(HistAt(t, b).list, HistAt(t, b).rank);
    } else if MayVisit(HistAt(t, n - 1), r, y) {
      VisitsInPlaces(t, b, n - 1, r, y);
      RankStep(t, n, y);
    } else {
      PublishedRankAlong(t, n, r, y);
      if !t.steps[n - 1].PublishAdd? {
        VisitsInPlaces(t, b, n - 1, r, t.states[n - 1].op.was);
      }
    }
  }

  lemma {:induction false} SeenInPlaces(t: Trace, b: nat, n: nat, r: Reader, i: nat)
    requires RcuRun(WholeWalk, t) && Walking(t, b, n, r) && HasWalk(t, n, r) && i < |WalkAt(t, n, r).seen|
    ensures WalkAt(t, n, r).seen[i] in HistAt(t, n).rank
    ensures HistAt(t, n).rank[WalkAt(t, n, r).seen[i]] in Places(t, b, n)
  {
    SeenStep(t, b, n, r);
    if n > b && i < |WalkAt(t, n - 1, r).seen| {
      SeenInPlaces(t, b, n - 1, r, i);
      RankStep(t, n, WalkAt(t, n - 1, r).seen[i]);
    } else {
      WalkFacts(t, n, r);
      VisitsInPlaces(t, b, n, r, WalkAt(t, n, r).seen[i]);
    }
  }

  /** Strictly increasing values drawn from a set are no more than the set holds. */
  lemma {:induction false} IncreasingFits(v: seq<int>, p: set<int>)
    requires forall i, j :: 0 <= i < j < |v| ==> v[i] < v[j]
    requires forall i :: 0 <= i < |v| ==> v[i] in p
    ensures |v| <= |p|
  {
    if v != [] {
      var last := v[|v| - 1];
      IncreasingFits(v[..|v| - 1], p - {last});
    }
  }

  /**
    Walks end: whatever the writers do, a walk visits at most as many nodes as were on the list when it
    began plus those added since; deletions and replacements never make it longer.
    */
  lemma WalkIsBounded(t: Trace, b: nat, n: nat, r: Reader)
    requires RcuRun(WholeWalk, t) && Walking(t, b, n, r) && HasWalk(t, n, r)
    ensures |WalkAt(t, n, r).seen| <= |HistAt(t, b).list| + Adds(t, b, n)
  {
    WalkFacts(t, n, r);
    PlacesBounded(t, b, n);
    var seen, rank := WalkAt(t, n, r).seen, HistAt(t, n).rank;
    var v := seq(|seen|, i requires 0 <= i < |seen| && seen[i] in rank => rank[seen[i]]);
    forall i | 0 <= i < |v| ensures v[i] in Places(t, b, n) {
      SeenInPlaces(t, b, n, r, i);
    }
    IncreasingFits(v, Places(t, b, n));
  }

  /** u goes on from t by steps of reader r alone, each a hop of its cursor. */
  ghost predicate OnlyHops(t: Trace, u: Trace, r: Reader) {
    t.Begins(u) && forall k :: |t.steps| <= k < |u.steps| ==> u.steps[k] == Advance(r)
  }

  /** How many hops a walk can still make if no more nodes are added, the last one back to HEAD included. */
  function HopsLeft(t: Trace, b: nat, r: Reader): int
    requires b <= |t.steps| < |t.states| && HasWalk(t, |t.steps|, r)
  {
    var w := WalkAt(t, |t.steps|, r);
    if w.done then 0 else |HistAt(t, b).list| + Adds(t, b, |t.steps|) - |w.seen| + 1
  }

  /** What was so far does not depend on how a run goes on. */
  lemma {:induction false} SamePast(t: Trace, u: Trace, b: nat, n: nat)
    requires t.Begins(u) && b <= n <= |t.steps| < |t.states| && |u.steps| < |u.states|
    ensures HistAt(u, n) == HistAt(t, n) && Adds(u, b, n) == Adds(t, b, n)
    decreases n
  {
    if n > 0 {
      assert u.states[n - 1] == t.states[n - 1] && u.steps[n - 1] == t.steps[n - 1];
      SamePast(t, u, if b < n then b else n - 1, n - 1);
    }
  }

  lemma WalkStillOn(t: Trace, u: Trace, b: nat, r: Reader)
    requires Walking(t, b, |t.steps|, r) && OnlyHops(t, u, r)
    ensures Walking(u, b, |u.steps|, r)
  {
    forall k | b <= k < |u.steps| ensures u.steps[k] != Leave(r) {
      assert k < |t.steps| ==> u.steps[k] == t.steps[k];
    }
  }

  lemma HopRun(t: Trace, r: Reader) returns (u: Trace)
    requires RcuRun(WholeWalk, t) && HasWalk(t, |t.steps|, r) && !WalkAt(t, |t.steps|, r).done
    ensures RcuRun(WholeWalk, u) && OnlyHops(t, u, r) && |u.steps| == |t.steps| + 1
    ensures u.steps[|t.steps|] == Advance(r) && HasWalk(u, |t.steps|, r)
    ensures WalkAt(u, |t.steps|, r) == WalkAt(t, |t.steps|, r)
  {
    var n := |t.steps|;
    WalkInSection(t, n, r);
    var s' := Step(WholeWalk, t.states[n], Advance(r));
    ExtendIsRun(INIT, Next(WholeWalk), t, Advance(r), s');
    u := t.Extend(Advance(r), s');
  }

  lemma WalkInSection(t: Trace, n: nat, r: Reader)
    requires RcuRun(WholeWalk, t) && HasWalk(t, n, r)
    ensures r in t.states[n].sections
  {
    RunInv(WholeWalk, t, n);
    assert WalkOk(t.states[n], HistAt(t, n), r);
  }

  lemma Hop(t: Trace, b: nat, r: Reader) returns (u: Trace)
    requires RcuRun(WholeWalk, t) && Walking(t, b, |t.steps|, r) && HasWalk(t, |t.steps|, r)
    requires !WalkAt(t, |t.steps|, r).done
    ensures RcuRun(WholeWalk, u) && OnlyHops(t, u, r) && |u.steps| == |t.steps| + 1
    ensures Walking(u, b, |u.steps|, r) && HasWalk(u, |u.steps|, r)
    ensures HistAt(u, |u.steps|).list == HistAt(t, |t.steps|).list && HistAt(u, b).list == HistAt(t, b).list
    ensures Adds(u, b, |u.steps|) == Adds(t, b, |t.steps|)
    ensures WalkAt(u, |u.steps|, r).done || |WalkAt(u, |u.steps|, r).seen| == |WalkAt(t, |t.steps|, r).seen| + 1
  {
    u := HopRun(t, r);
    WalkStillOn(t, u, b, r);
    HopFacts(u, |u.steps|, r);
    SamePast(t, u, b, |t.steps|);
    SamePast(t, u, b, b);
  }

  lemma BeginRun(t: Trace, r: Reader) returns (u: Trace)
    requires RcuRun(WholeWalk, t) && r !in t.Last().walks && r in t.Last().sections
    ensures RcuRun(WholeWalk, u) && t.Begins(u) && Walking(u, |u.steps|, |u.steps|, r)
    ensures u.steps == t.steps + [BeginWalk(r)]
  {
    var s' := Step(WholeWalk, t.Last(), BeginWalk(r));
    ExtendIsRun(INIT, Next(WholeWalk), t, BeginWalk(r), s');
    u := t.Extend(BeginWalk(r), s');
  }

  /** A reader without a walk can begin one at any time, opening its read section first if need be. */
  lemma WalkCanStart(t: Trace, r: Reader) returns (u: Trace)
    requires RcuRun(WholeWalk, t) && r !in t.Last().walks
    ensures RcuRun(WholeWalk, u) && t.Begins(u) && Walking(u, |u.steps|, |u.steps|, r)
    ensures u.steps == t.steps + (if r in t.Last().sections then [] else [Enter(r)]) + [BeginWalk(r)]
  {
    if r in t.Last().sections {
      u := BeginRun(t, r);
    } else {
      var s' := Step(WholeWalk, t.Last(), Enter(r));
      ExtendIsRun(INIT, Next(WholeWalk), t, Enter(r), s');
      u := BeginRun(t.Extend(Enter(r), s'), r);
    }
  }

  /**
    Readers never wait: from any point, steps of its own reader alone complete a walk, and no more of them
    than the bound leaves.
    */
  lemma {:induction false} WalkCanFinish(t: Trace, b: nat, r: Reader) returns (u: Trace)
    requires RcuRun(WholeWalk, t) && Walking(t, b, |t.steps|, r) && HasWalk(t, |t.steps|, r)
    ensures RcuRun(WholeWalk, u) && OnlyHops(t, u, r) && Walking(u, b, |u.steps|, r)
    ensures HasWalk(u, |u.steps|, r) && WalkAt(u, |u.steps|, r).done
    ensures |u.steps| - |t.steps| <= HopsLeft(t, b, r)
    ensures HistAt(u, |u.steps|).list == HistAt(t, |t.steps|).list
    decreases HopsLeft(t, b, r)
  {
    WalkIsBounded(t, b, |t.steps|, r);
    if WalkAt(t, |t.steps|, r).done {
      u := t;
    } else {
      var v := Hop(t, b, r);
      WalkIsBounded(v, b, |v.steps|, r);
      u := WalkCanFinish(v, b, r);
      HopsAddUp(t, v, u, r);
    }
  }

  lemma HopsAddUp(t: Trace, v: Trace, u: Trace, r: Reader)
    requires OnlyHops(t, v, r) && OnlyHops(v, u, r)
    ensures OnlyHops(t, u, r)
  {
    forall k | |t.steps| <= k < |u.steps| ensures u.steps[k] == Advance(r) {
      assert k < |v.steps| ==> u.steps[k] == v.steps[k];
    }
  }
}
