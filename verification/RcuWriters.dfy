/**
  The writers of the RCU-protected list, over whole runs: the lock excludes, each operation changes the list
  in one step although it takes several stores, and what a deleted node is left with.
  */
module RcuWriters {
  import opened Basics
  import opened RcuProtocol
  import opened RcuSafety

  // ---------------------------------------------------------------- the lock

  /** A step that writer w takes inside its critical section, the unlock included. */
  predicate Locked(l: Label, w: Writer) {
    match l
    case Release(v) => v == w
    case PrepareAdd(v, _) => v == w
    case PublishAdd(v) => v == w
    case PrepareReplace(v, _, _) => v == w
    case PublishReplace(v) => v == w
    case Delete(v, _) => v == w
    case _ => false
  }

  lemma LockStep(d: Discipline, s: State, l: Label)
    requires Enabled(d, s, l)
    ensures !l.Acquire? && !l.Release? ==> Step(d, s, l).lock == s.lock
    ensures l.Acquire? ==> s.lock == None && Step(d, s, l).lock == Some(l.w)
    ensures l.Release? ==> s.lock == Some(l.w) && Step(d, s, l).lock == None
    ensures forall w: Writer :: Locked(l, w) ==> s.lock == Some(w)
  {
  }

  /** As long as v has not released the lock it took, it has it. */
  lemma {:induction false} HoldsOn(d: Discipline, t: Trace, i: nat, j: nat, v: Writer)
    requires RcuRun(d, t) && i < j <= |t.steps| && t.steps[i] == Acquire(v)
    requires forall k :: i < k < j ==> t.steps[k] != Release(v)
    ensures t.states[j].lock == Some(v)
  {
    if i + 1 < j {
      HoldsOn(d, t, i, j - 1, v);
    }
    OneStep(d, t, j - 1);
    LockStep(d, t.states[j - 1], t.steps[j - 1]);
  }

  /** Mutual exclusion: between two spin_lock calls that return, the first caller has called spin_unlock. */
  lemma LockExcludes(d: Discipline, t: Trace, i: nat, j: nat, v: Writer)
    requires RcuRun(d, t) && i < j < |t.steps| && t.steps[i] == Acquire(v) && t.steps[j].Acquire?
    ensures exists k :: i < k < j && t.steps[k] == Release(v)
  {
    if forall k :: i < k < j ==> t.steps[k] != Release(v) {
      HoldsOn(d, t, i, j, v);
      OneStep(d, t, j);
      LockStep(d, t.states[j], t.steps[j]);
      assert false;
    }
  }

  /** From step i to step j the lock belongs to w: it took it at i, and since then nobody took or released it. */
  ghost predicate InSection(t: Trace, i: nat, j: nat, w: Writer) {
    && i < j <= |t.steps| && t.steps[i] == Acquire(w)
    && forall k :: i < k < j ==> !t.steps[k].Acquire? && !t.steps[k].Release?
  }

  lemma {:induction false} HeldSince(d: Discipline, t: Trace, j: nat, w: Writer) returns (i: nat)
    requires RcuRun(d, t) && j <= |t.steps| && t.states[j].lock == Some(w)
    ensures InSection(t, i, j, w)
  {
    assert j > 0;
    OneStep(d, t, j - 1);
    LockStep(d, t.states[j - 1], t.steps[j - 1]);
    if t.steps[j - 1].Acquire? {
      i := j - 1;
    } else {
      i := HeldSince(d, t, j - 1, w);
    }
  }

  /** Every store to the list, and every unlock, is made by the writer that took the lock last and still has it. */
  lemma StoresAreLocked(d: Discipline, t: Trace, j: nat, w: Writer)
    requires RcuRun(d, t) && j < |t.steps| && Locked(t.steps[j], w)
    ensures exists i :: 0 <= i && InSection(t, i, j, w)
  {
    OneStep(d, t, j);
    LockStep(d, t.states[j], t.steps[j]);
    var i := HeldSince(d, t, j, w);
  }

  // ---------------------------------------------------------------- each operation is one change of the list

  /** Following next from HEAD meets exactly the nodes of q, in this order, and comes back to HEAD. */
  ghost predicate Spells(s: State, q: seq<Node>) {
    && Distinct(q) && HEAD !in q
    && forall k :: 0 <= k < |q| + 2 ==> Follow(s.next, HEAD, k) == Ring(HEAD, q)[k]
  }

  lemma RingAt(q: seq<Node>, k: nat)
    requires k < |q| + 2
    ensures Ring(HEAD, q)[k] == if k == 0 || k == |q| + 1 then HEAD else q[k - 1]
  {
  }

  lemma SpelledNotLonger(s: State, p: seq<Node>, q: seq<Node>)
    requires Spells(s, p) && Spells(s, q)
    ensures |p| >= |q|
  {
    assert |p| < |q| ==> q[|p|] in q;
    RingAt(p, |p| + 1);
    if |p| < |q| {
      RingAt(q, |p| + 1);
    }
  }

  /** The pointers spell one list only. */
  lemma SpelledOnce(s: State, p: seq<Node>, q: seq<Node>)
    requires Spells(s, p) && Spells(s, q)
    ensures p == q
  {
    SpelledNotLonger(s, p, q);
    SpelledNotLonger(s, q, p);
    forall i | 0 <= i < |p| ensures p[i] == q[i] {
      RingAt(p, i + 1);
      RingAt(q, i + 1);
    }
  }

  lemma HistoryIsSpelled(d: Discipline, t: Trace, k: nat, q: seq<Node>)
    requires RcuRun(d, t) && k < |t.states| && Spells(t.states[k], q)
    ensures q == HistAt(t, k).list
  {
    PointersSpellTheList(d, t, k);
    SpelledOnce(t.states[k], q, HistAt(t, k).list);
  }

  /** Step i fills in the links of a new node, and no publishing store has followed before step k. */
  ghost predicate Pending(t: Trace, i: nat, k: nat) {
    && i < k <= |t.steps| && (t.steps[i].PrepareAdd? || t.steps[i].PrepareReplace?)
    && forall j :: i < j < k ==> !t.steps[j].PublishAdd? && !t.steps[j].PublishReplace?
  }

  function OpOf(l: Label): Op {
    match l
    case PrepareAdd(_, n) => Adding(n)
    case PrepareReplace(_, was, n) => Replacing(was, n)
    case _ => NoOp
  }

  predicate Prepares(l: Label) {
    l.PrepareAdd? || l.PrepareReplace?
  }

  lemma OpStep(d: Discipline, s: State, l: Label)
    requires Enabled(d, s, l)
    ensures Prepares(l) ==> s.op == NoOp && Step(d, s, l).op == OpOf(l) && Step(d, s, l).lock == Some(l.w)
    ensures l.PublishAdd? ==> s.op.Adding? && s.lock == Some(l.w) && Step(d, s, l).op == NoOp
    ensures l.PublishReplace? ==> s.op.Replacing? && s.lock == Some(l.w) && Step(d, s, l).op == NoOp
    ensures !Prepares(l) && !l.PublishAdd? && !l.PublishReplace? ==> Step(d, s, l).op == s.op
    ensures s.op != NoOp && s.lock != None ==> !Prepares(l) && !l.Delete? && Step(d, s, l).lock == s.lock
  {
  }

  /** Nothing gets between the two stores of an operation: the new node and its place stay what they were. */
  lemma {:induction false} OpStays(d: Discipline, t: Trace, i: nat, k: nat)
    requires RcuRun(d, t) && Pending(t, i, k)
    ensures t.states[k].op == OpOf(t.steps[i]) && t.states[k].lock == Some(t.steps[i].w)
  {
    if i + 1 < k {
      OpStays(d, t, i, k - 1);
    }
    OneStep(d, t, k - 1);
    OpStep(d, t.states[k - 1], t.steps[k - 1]);
  }

  lemma {:induction false} OpFrom(d: Discipline, t: Trace, k: nat) returns (i: nat)
    requires RcuRun(d, t) && k <= |t.steps| && t.states[k].op != NoOp
    ensures Pending(t, i, k) && t.states[k].op == OpOf(t.steps[i])
  {
    assert k > 0;
    OneStep(d, t, k - 1);
    OpStep(d, t.states[k - 1], t.steps[k - 1]);
    if Prepares(t.steps[k - 1]) {
      i := k - 1;
    } else {
      i := OpFrom(d, t, k - 1);
    }
  }

  /** Every publishing store completes an operation that the same writer began, with nothing published in between. */
  lemma PublishCompletes(d: Discipline, t: Trace, k: nat) returns (i: nat)
    requires RcuRun(d, t) && k < |t.steps| && (t.steps[k].PublishAdd? || t.steps[k].PublishReplace?)
    ensures Pending(t, i, k) && t.steps[i].w == t.steps[k].w
    ensures t.steps[i].PrepareAdd? <==> t.steps[k].PublishAdd?
  {
    OneStep(d, t, k);
    OpStep(d, t.states[k], t.steps[k]);
    i := OpFrom(d, t, k);
    OpStays(d, t, i, k);
  }

  lemma StepRecord(d: Discipline, t: Trace, k: nat, q: seq<Node>, q': seq<Node>)
    requires RcuRun(d, t) && k < |t.steps| && Spells(t.states[k], q) && Spells(t.states[k + 1], q')
    ensures q == HistAt(t, k).list && q' == Record(t.states[k], HistAt(t, k), t.steps[k]).list
    ensures forall x :: x in q <==> Is(t.states[k], x, Linked)
  {
    HistoryIsSpelled(d, t, k, q);
    HistoryIsSpelled(d, t, k + 1, q');
    PointersSpellTheList(d, t, k);
  }

  /** list_add_rcu puts the node in front, at its publishing store. */
  lemma AddTakesEffect(d: Discipline, t: Trace, i: nat, k: nat, q: seq<Node>, q': seq<Node>)
    requires RcuRun(d, t) && k < |t.steps| && Pending(t, i, k) && t.steps[k].PublishAdd?
    requires Spells(t.states[k], q) && Spells(t.states[k + 1], q')
    ensures t.steps[i].PrepareAdd? && q' == [t.steps[i].n] + q
  {
    OpStays(d, t, i, k);
    OneStep(d, t, k);
    StepRecord(d, t, k, q, q');
  }

  /** list_replace_rcu puts the new node in the place of the old one, at its publishing store. */
  lemma ReplaceTakesEffect(d: Discipline, t: Trace, i: nat, k: nat, q: seq<Node>, q': seq<Node>)
    requires RcuRun(d, t) && k < |t.steps| && Pending(t, i, k) && t.steps[k].PublishReplace?
    requires Spells(t.states[k], q) && Spells(t.states[k + 1], q')
    ensures t.steps[i].PrepareReplace? && t.steps[i].was in q && q' == q[Index(q, t.steps[i].was) := t.steps[i].n]
  {
    OpStays(d, t, i, k);
    OneStep(d, t, k);
    StepRecord(d, t, k, q, q');
    assert Is(t.states[k], t.steps[i].was, Linked) by { RunInv(d, t, k); }
  }

  /** list_del_rcu takes out its node, and no other step changes the list. */
  lemma DeleteTakesEffect(d: Discipline, t: Trace, k: nat, q: seq<Node>, q': seq<Node>)
    requires RcuRun(d, t) && k < |t.steps| && !t.steps[k].PublishAdd? && !t.steps[k].PublishReplace?
    requires Spells(t.states[k], q) && Spells(t.states[k + 1], q')
    ensures t.steps[k].Delete? ==> t.steps[k].x in q && q' == Drop(q, Index(q, t.steps[k].x))
    ensures !t.steps[k].Delete? ==> q' == q
  {
    OneStep(d, t, k);
    StepRecord(d, t, k, q, q');
  }

  // ---------------------------------------------------------------- what a node off the list is left with

  /** HEAD, a node on the list, or a node about to be published. */
  predicate MayHavePrev(s: State, q: seq<Node>, x: Node) {
    x == HEAD || x in q || (s.op != NoOp && x == s.op.n)
  }

  ghost predicate PrevsOf(s: State, h: History) {
    forall x :: x in s.prev ==> MayHavePrev(s, h.list, x)
  }

  /** The prev pointer that a publishing store writes belongs to a neighbour that stays on the list. */
  lemma PrevWritten(d: Discipline, s: State, h: History, l: Label)
    requires RingInv(s, h) && OpInv(s) && Enabled(d, s, l) && Publishes(l)
    ensures var y := Get(s.next, if l.Delete? then l.x else s.op.n); y == HEAD || y in Record(s, h, l).list
  {
    if l.PublishAdd? {
      FirstLink(s, h);
      RingMember(HEAD, h.list, 1);
    } else {
      OffPointsIn(d, s, h, l);
      if l.PublishReplace? {
        Neighbours(s, h, Index(h.list, s.op.was));
      }
    }
  }

  lemma PrevsKept(d: Discipline, s: State, h: History, l: Label)
    requires RingInv(s, h) && OpInv(s) && PrevsOf(s, h) && Enabled(d, s, l)
    ensures PrevsOf(Step(d, s, l), Record(s, h, l))
  {
    if Publishes(l) {
      PrevWritten(d, s, h, l);
      if l.Delete? {
        DistinctDrop(h.list, Index(h.list, l.x));
      } else if l.PublishReplace? {
        DistinctUpdate(h.list, Index(h.list, s.op.was), s.op.n);
      }
    }
  }

  lemma {:induction false} PrevsAlong(d: Discipline, t: Trace, k: nat)
    requires RcuRun(d, t) && k < |t.states|
    ensures PrevsOf(t.states[k], HistAt(t, k))
  {
    if k > 0 {
      PrevsAlong(d, t, k - 1);
      RunInv(d, t, k - 1);
      OneStep(d, t, k - 1);
      PrevsKept(d, t.states[k - 1], HistAt(t, k - 1), t.steps[k - 1]);
    }
  }

  lemma OffList(s: State, h: History, x: Node)
    requires RingInv(s, h) && RankInv(s, h) && OpInv(s) && PrevsOf(s, h) && Removed(s, x)
    ensures x !in s.prev && x in s.next
  {
    assert Up(s.next, h.list, h.rank, x);
    assert !Is(s, x, Linked) && !Is(s, x, Fresh);
  }

  /** In every run a node off the list has its next pointer, for the readers on it, and no prev pointer. */
  lemma OffListPoisoned(d: Discipline, t: Trace, k: nat, x: Node)
    requires RcuRun(d, t) && k < |t.states| && Removed(t.states[k], x)
    ensures x !in t.states[k].prev && x in t.states[k].next
  {
    PrevsAlong(d, t, k);
    RunInv(d, t, k);
    OffList(t.states[k], HistAt(t, k), x);
  }
}
