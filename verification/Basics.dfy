/** Sequences, and runs of step systems, as all the models use them. */
module Basics {

  datatype Option<T> = None | Some(value: T)

  /** The first position of x in q. */
  function Index<T(==)>(q: seq<T>, x: T): (i: nat)
    requires x in q
    ensures i < |q| && q[i] == x
    ensures x !in q[..i]
  {
    if q[0] == x then 0 else 1 + Index(q[1..], x)
  }

  /** q with the element at position i left out. */
  function Drop<T>(q: seq<T>, i: nat): seq<T>
    requires i < |q|
  {
    q[..i] + q[i + 1..]
  }

  lemma TakeOneMore<T>(q: seq<T>, i: nat)
    requires i < |q|
    ensures q[..i + 1] == q[..i] + [q[i]]
  {
  }

  // ---------------------------------------------------------------- sequences without repetition

  ghost predicate Differ<T>(q: seq<T>, i: int, j: int) {
    0 <= i < |q| && 0 <= j < |q| && i != j ==> q[i] != q[j]
  }

  ghost predicate Distinct<T>(q: seq<T>) {
    forall i, j :: Differ(q, i, j)
  }

  lemma DistinctCons<T>(n: T, q: seq<T>)
    requires Distinct(q) && n !in q
    ensures Distinct([n] + q)
  {
    var p := [n] + q;
    forall i, j ensures Differ(p, i, j) {
      assert Differ(q, i - 1, j - 1);
    }
  }

  lemma DistinctSnoc<T>(q: seq<T>, n: T)
    requires Distinct(q) && n !in q
    ensures Distinct(q + [n])
  {
    var p := q + [n];
    forall i, j ensures Differ(p, i, j) {
      assert Differ(q, i, j);
    }
  }

  lemma DistinctDrop<T>(q: seq<T>, k: nat)
    requires Distinct(q) && k < |q|
    ensures Distinct(Drop(q, k))
    ensures forall x :: x in Drop(q, k) <==> x in q && x != q[k]
  {
    var p := Drop(q, k);
    forall i, j ensures Differ(p, i, j) {
      assert Differ(q, if i < k then i else i + 1, if j < k then j else j + 1);
    }
    forall i | 0 <= i < |p| ensures p[i] in q && p[i] != q[k] {
      assert Differ(q, if i < k then i else i + 1, k);
    }
    forall x | x in q && x != q[k] ensures x in p {
      var i: nat :| i < |q| && q[i] == x;
      assert p[if i < k then i else i - 1] == x;
    }
  }

  lemma DistinctUpdate<T>(q: seq<T>, k: nat, n: T)
    requires Distinct(q) && n !in q && k < |q|
    ensures Distinct(q[k := n])
    ensures forall x :: x in q[k := n] <==> x == n || (x in q && x != q[k])
  {
    var p := q[k := n];
    forall i, j ensures Differ(p, i, j) {
      assert Differ(q, i, j);
    }
    forall i | 0 <= i < |p| ensures p[i] == n || (p[i] in q && p[i] != q[k]) {
      assert Differ(q, i, k);
    }
    assert p[k] == n;
    forall x | x in q && x != q[k] ensures x in p {
      var i: nat :| i < |q| && q[i] == x;
      assert p[i] == x;
    }
  }

  lemma DistinctBefore<T>(q: seq<T>, k: nat)
    requires Distinct(q) && k < |q|
    ensures q[k] !in q[..k]
  {
    forall i | 0 <= i < k ensures q[i] != q[k] {
      assert Differ(q, i, k);
    }
  }

  lemma IndexIs<T>(q: seq<T>, k: nat)
    requires Distinct(q) && k < |q|
    ensures Index(q, q[k]) == k
  {
    assert Differ(q, Index(q, q[k]), k);
  }

  ghost predicate Before<T>(q: seq<T>, p: seq<T>, i: int, j: int) {
    0 <= i < j < |p| && p[i] in q && p[j] in q ==> Index(q, p[i]) < Index(q, p[j])
  }

  /** The elements of p are elements of q, none twice, in the order they have in q. */
  ghost predicate InOrderOf<T>(p: seq<T>, q: seq<T>) {
    (forall x :: x in p ==> x in q) && forall i, j :: Before(q, p, i, j)
  }

  lemma InOrderSnoc<T>(p: seq<T>, q: seq<T>, k: nat)
    requires Distinct(q) && k < |q| && InOrderOf(p, q) && forall x :: x in p ==> x in q[..k]
    ensures InOrderOf(p + [q[k]], q)
  {
    IndexIs(q, k);
    forall i, j ensures Before(q, p + [q[k]], i, j) {
      assert Before(q, p, i, j);
      if 0 <= i < j == |p| {
        assert p[i] in p;
        IndexIs(q, Index(q[..k], p[i]));
      }
    }
  }

  // ---------------------------------------------------------------- one turn of a circular list

  /** The nodes met on one turn of the ring, with the sentinel at both ends. */
  ghost function Ring<T>(head: T, q: seq<T>): seq<T> {
    [head] + q + [head]
  }

  /** Two places of the ring, the closing sentinel aside, hold different nodes. */
  lemma Apart<T>(head: T, q: seq<T>)
    requires Distinct(q) && head !in q
    ensures forall i, j :: 0 <= i < j <= |q| ==> Ring(head, q)[i] != Ring(head, q)[j]
  {
    forall i, j | 0 <= i < j <= |q| ensures Ring(head, q)[i] != Ring(head, q)[j] {
      assert Differ(q, i - 1, j - 1);
    }
  }

  /** Every place of the ring holds the sentinel or an element. */
  lemma RingMember<T>(head: T, q: seq<T>, i: nat)
    requires i < |q| + 2
    ensures Ring(head, q)[i] == head || Ring(head, q)[i] in q
    ensures 0 < i <= |q| ==> Ring(head, q)[i] == q[i - 1]
  {
  }

  // ---------------------------------------------------------------- reversed and descending sequences

  function Reverse<T>(q: seq<T>): seq<T> {
    if q == [] then [] else Reverse(q[1..]) + [q[0]]
  }

  lemma {:induction false} ReverseAt<T>(q: seq<T>)
    ensures |Reverse(q)| == |q|
    ensures forall i :: 0 <= i < |q| ==> Reverse(q)[i] == q[|q| - 1 - i]
    ensures forall x :: x in Reverse(q) <==> x in q
  {
    if q != [] {
      ReverseAt(q[1..]);
    }
  }

  lemma ReverseSnoc<T>(q: seq<T>, x: T)
    ensures Reverse(q + [x]) == [x] + Reverse(q)
  {
    ReverseAt(q);
    ReverseAt(q + [x]);
  }

  /** step * (n - 1), ..., step, 0 */
  function Down(n: nat, step: int): seq<int> {
    seq(n, i => step * (n - 1 - i))
  }

  // ---------------------------------------------------------------- runs

  /** The states a run goes through and the steps between them. */
  datatype Run<S, L> = Run(states: seq<S>, steps: seq<L>) {

    /** The state at the end. */
    function Last(): S
      requires states != []
    {
      states[|states| - 1]
    }

    function Extend(l: L, s: S): Run<S, L> {
      Run(states + [s], steps + [l])
    }

    /** This run is the beginning of u. */
    ghost predicate Begins(u: Run<S, L>) {
      states <= u.states && steps <= u.steps
    }
  }

  ghost predicate StepAt<S(!new), L(!new)>(next: (S, L, S) -> bool, r: Run<S, L>, i: int) {
    0 <= i < |r.steps| < |r.states| ==> next(r.states[i], r.steps[i], r.states[i + 1])
  }

  /** A finite run of the step system that starts in init and moves by next. */
  ghost predicate IsRun<S(!new), L(!new)>(init: S, next: (S, L, S) -> bool, r: Run<S, L>) {
    && |r.states| == |r.steps| + 1 && r.states[0] == init
    && forall i :: 0 <= i < |r.steps| ==> StepAt(next, r, i)
  }

  lemma ExtendIsRun<S(!new), L(!new)>(init: S, next: (S, L, S) -> bool, r: Run<S, L>, l: L, s: S)
    requires IsRun(init, next, r) && next(r.Last(), l, s)
    ensures IsRun(init, next, r.Extend(l, s)) && r.Extend(l, s).Last() == s && r.Begins(r.Extend(l, s))
  {
    var u := r.Extend(l, s);
    forall i | 0 <= i < |u.steps| ensures StepAt(next, u, i) {
      assert StepAt(next, r, i);
    }
  }

  /** How many of the first k steps are l. */
  function Times<L(==)>(steps: seq<L>, l: L, k: nat): nat
    requires k <= |steps|
  {
    if k == 0 then 0 else Times(steps, l, k - 1) + if steps[k - 1] == l then 1 else 0
  }
}
