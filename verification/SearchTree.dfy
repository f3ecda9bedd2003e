/**
  The search tree of red_black_tree/code.c as a value.  Rebalancing is switched off in the source, so this is
  a plain binary search tree; `item` is the node that carries the key.
  */
module SearchTree {
  import opened Basics

  datatype Tree<T> = Leaf | Branch(left: Tree<T>, key: int, item: T, right: Tree<T>)

  function Insert<T>(t: Tree<T>, k: int, x: T): Tree<T> {
    match t
    case Leaf => Branch(Leaf, k, x, Leaf)
    case Branch(l, key, y, r) =>
      if key > k then Branch(Insert(l, k, x), key, y, r)
      else if key < k then Branch(l, key, y, Insert(r, k, x))
      else t
  }

  function Lookup<T>(t: Tree<T>, k: int): Option<T> {
    match t
    case Leaf => None
    case Branch(l, key, y, r) => if key > k then Lookup(l, k) else if key < k then Lookup(r, k) else Some(y)
  }

  function Keys<T>(t: Tree<T>): set<int> {
    match t
    case Leaf => {}
    case Branch(l, key, _, r) => Keys(l) + {key} + Keys(r)
  }

  ghost predicate Ordered<T>(t: Tree<T>) {
    t.Branch? ==>
      && Ordered(t.left) && Ordered(t.right)
      && (forall k :: k in Keys(t.left) ==> k < t.key)
      && (forall k :: k in Keys(t.right) ==> t.key < k)
  }

  /** The keys from left to right, as print is meant to show them. */
  function Inorder<T>(t: Tree<T>): seq<int> {
    match t
    case Leaf => []
    case Branch(l, key, _, r) => Inorder(l) + [key] + Inorder(r)
  }

  function Size<T>(t: Tree<T>): nat {
    match t
    case Leaf => 0
    case Branch(l, _, _, r) => Size(l) + 1 + Size(r)
  }

  function Height<T>(t: Tree<T>): nat {
    match t
    case Leaf => 0
    case Branch(l, _, _, r) => 1 + if Height(l) > Height(r) then Height(l) else Height(r)
  }

  /** How often the loop of search goes round for k. */
  function Steps<T>(t: Tree<T>, k: int): nat {
    match t
    case Leaf => 0
    case Branch(l, key, _, r) => 1 + if key > k then Steps(l, k) else if key < k then Steps(r, k) else 0
  }

  // ---------------------------------------------------------------- one insertion

  lemma {:induction false} InsertKeeps<T>(t: Tree<T>, k: int, x: T)
    requires Ordered(t)
    ensures Ordered(Insert(t, k, x)) && Keys(Insert(t, k, x)) == Keys(t) + {k}
    ensures k in Keys(t) ==> Insert(t, k, x) == t
    ensures Size(Insert(t, k, x)) == Size(t) + if k in Keys(t) then 0 else 1
  {
    match t
    case Leaf =>
    case Branch(l, key, y, r) =>
      if key > k {
        InsertKeeps(l, k, x);
      } else if key < k {
        InsertKeeps(r, k, x);
      }
  }

  /** Looking up after inserting: the new node answers only if the key was absent. */
  lemma {:induction false} LookupAfterInsert<T>(t: Tree<T>, k: int, x: T, j: int)
    ensures Lookup(Insert(t, k, x), j) == if j == k && Lookup(t, k) == None then Some(x) else Lookup(t, j)
  {
    match t
    case Leaf =>
    case Branch(l, key, _, r) =>
      LookupAfterInsert(l, k, x, j);
      LookupAfterInsert(r, k, x, j);
  }

  lemma {:induction false} LookupFinds<T>(t: Tree<T>, k: int)
    requires Ordered(t)
    ensures Lookup(t, k).Some? <==> k in Keys(t)
  {
    match t
    case Leaf =>
    case Branch(l, _, _, r) =>
      LookupFinds(l, k);
      LookupFinds(r, k);
  }

  lemma {:induction false} StepsBounded<T>(t: Tree<T>, k: int)
    ensures Steps(t, k) <= Height(t) <= Size(t)
  {
    match t
    case Leaf =>
    case Branch(l, _, _, r) =>
      StepsBounded(l, k);
      StepsBounded(r, k);
  }

  /** The height is the cost of the dearest key. */
  lemma {:induction false} HeightAttained<T>(t: Tree<T>) returns (k: int)
    requires Ordered(t) && t != Leaf
    ensures k in Keys(t) && Steps(t, k) == Height(t)
  {
    k := t.key;
    if Height(t.left) > Height(t.right) {
      k := HeightAttained(t.left);
    } else if t.right != Leaf {
      k := HeightAttained(t.right);
    }
  }

  /** Nothing is rebalanced: a new key goes one below the place where the search for it ended, and no other moves. */
  lemma {:induction false} InsertMovesNothing<T>(t: Tree<T>, k: int, x: T, j: int)
    requires k !in Keys(t) && Ordered(t)
    ensures j in Keys(t) ==> Steps(Insert(t, k, x), j) == Steps(t, j)
    ensures Steps(Insert(t, k, x), k) == Steps(t, k) + 1
  {
    match t
    case Leaf =>
    case Branch(l, _, _, r) =>
      InsertMovesNothing(l, k, x, j);
      InsertMovesNothing(r, k, x, j);
  }

  // ---------------------------------------------------------------- runs of insertions

  /** The tree after inserting the entries of a history, from the empty root. */
  function Grow<T>(h: seq<(int, T)>): Tree<T> {
    if h == [] then Leaf else Insert(Grow(h[..|h| - 1]), h[|h| - 1].0, h[|h| - 1].1)
  }

  /** The first entry of the history with key k. */
  function FirstWith<T>(h: seq<(int, T)>, k: int): Option<T> {
    if h == [] then None else if h[0].0 == k then Some(h[0].1) else FirstWith(h[1..], k)
  }

  lemma {:induction false} FirstWithAt<T>(h: seq<(int, T)>, k: int) returns (at: nat)
    ensures FirstWith(h, k) == None <==> forall i :: 0 <= i < |h| ==> h[i].0 != k
    ensures FirstWith(h, k).Some? ==> at < |h| && h[at] == (k, FirstWith(h, k).value)
    ensures FirstWith(h, k).Some? ==> forall i :: 0 <= i < at ==> h[i].0 != k
  {
    at := 0;
    if h != [] && h[0].0 != k {
      at := FirstWithAt(h[1..], k);
      at := at + 1;
      assert forall i :: 0 < i < |h| ==> h[i] == h[1..][i - 1];
    }
  }

  lemma {:induction false} FirstWithSnoc<T>(h: seq<(int, T)>, e: (int, T), k: int)
    ensures FirstWith(h + [e], k) == if FirstWith(h, k) == None && e.0 == k then Some(e.1) else FirstWith(h, k)
  {
    if h != [] {
      assert (h + [e])[1..] == h[1..] + [e];
      FirstWithSnoc(h[1..], e, k);
    }
  }

  /** After any history of insertions, search answers with the first node inserted with that key. */
  lemma {:induction false} FirstWins<T>(h: seq<(int, T)>, k: int)
    ensures Lookup(Grow(h), k) == FirstWith(h, k)
  {
    if h != [] {
      var n := |h| - 1;
      FirstWins(h[..n], k);
      FirstWins(h[..n], h[n].0);
      LookupAfterInsert(Grow(h[..n]), h[n].0, h[n].1, k);
      FirstWithSnoc(h[..n], h[n], k);
      assert h == h[..n] + [h[n]];
    }
  }

  function KeysOf<T>(h: seq<(int, T)>): set<int> {
    set i | 0 <= i < |h| :: h[i].0
  }

  lemma {:induction false} GrowFacts<T>(h: seq<(int, T)>)
    ensures Ordered(Grow(h)) && Keys(Grow(h)) == KeysOf(h)
  {
    if h != [] {
      var n := |h| - 1;
      GrowFacts(h[..n]);
      InsertKeeps(Grow(h[..n]), h[n].0, h[n].1);
      assert KeysOf(h) == KeysOf(h[..n]) + {h[n].0} by {
        forall k | k in KeysOf(h) ensures k in KeysOf(h[..n]) + {h[n].0} {
          var i :| 0 <= i < |h| && h[i].0 == k;
          assert i < n ==> h[..n][i].0 == k;
        }
        forall k | k in KeysOf(h[..n]) ensures k in KeysOf(h) {
          var i :| 0 <= i < n && h[..n][i].0 == k;
          assert h[i].0 == k;
        }
      }
    }
  }

  // ---------------------------------------------------------------- the in-order sequence

  ghost predicate Increasing(s: seq<int>) {
    forall i, j :: 0 <= i < j < |s| ==> s[i] < s[j]
  }

  lemma IncreasingJoin(a: seq<int>, k: int, b: seq<int>)
    requires Increasing(a) && Increasing(b) && (forall x :: x in a ==> x < k) && (forall x :: x in b ==> k < x)
    ensures Increasing(a + [k] + b)
  {
    assert forall i :: 0 <= i < |a| ==> a[i] in a;
    assert forall i :: 0 <= i < |b| ==> b[i] in b;
  }

  lemma {:induction false} InorderFacts<T>(t: Tree<T>)
    requires Ordered(t)
    ensures Increasing(Inorder(t)) && (forall k :: k in Inorder(t) <==> k in Keys(t))
    ensures |Inorder(t)| == Size(t)
  {
    match t
    case Leaf =>
    case Branch(l, key, _, r) =>
      InorderFacts(l);
      InorderFacts(r);
      IncreasingJoin(Inorder(l), key, Inorder(r));
  }

  lemma HasHead(s: seq<int>)
    ensures s != [] ==> s[0] in s
  {
  }

  /** There is only one way to put a set of keys in increasing order. */
  lemma {:induction false} IncreasingUnique(s: seq<int>, t: seq<int>)
    requires Increasing(s) && Increasing(t) && forall k :: k in s <==> k in t
    ensures s == t
  {
    HasHead(s);
    HasHead(t);
    if s != [] {
      assert s[0] in t;
      assert t[0] in s;
      assert s[0] == t[0];
      forall k ensures k in s[1..] <==> k in t[1..] {
        assert k in s <==> k == s[0] || k in s[1..];
        assert k in t <==> k == t[0] || k in t[1..];
      }
      IncreasingUnique(s[1..], t[1..]);
    }
  }

  /**
    The in-order sequence after a history is its distinct keys in increasing order; so two histories give the
    same sequence exactly when they have the same keys, whatever the order and the repetitions.
    */
  lemma InorderIsCanonical<T>(g: seq<(int, T)>, h: seq<(int, T)>)
    ensures Lists(Inorder(Grow(h)), KeysOf(h))
    ensures Inorder(Grow(g)) == Inorder(Grow(h)) <==> KeysOf(g) == KeysOf(h)
  {
    InorderLists(g);
    InorderLists(h);
    ListsUnique(Inorder(Grow(g)), KeysOf(g), Inorder(Grow(h)), KeysOf(h));
  }

  /** s lists the elements of p, each once, in increasing order. */
  ghost predicate Lists(s: seq<int>, p: set<int>) {
    Increasing(s) && forall k :: k in s <==> k in p
  }

  lemma InorderLists<T>(h: seq<(int, T)>)
    ensures Lists(Inorder(Grow(h)), KeysOf(h))
  {
    GrowFacts(h);
    InorderFacts(Grow(h));
  }

  lemma ListsUnique(s: seq<int>, p: set<int>, t: seq<int>, q: set<int>)
    requires Lists(s, p) && Lists(t, q)
    ensures s == t <==> p == q
  {
    if p == q {
      IncreasingUnique(s, t);
    }
    if s == t {
      forall k ensures k in p <==> k in q {
        assert k in s <==> k in p;
        assert k in t <==> k in q;
      }
    }
  }

  /** The same keys in another order do give another tree. */
  lemma OrderShapesTheTree<T>(a: int, b: int, x: T, y: T)
    requires a < b
    ensures Grow([(a, x), (b, y)]) != Grow([(b, y), (a, x)])
  {
    AscendingIsSpine([(a, x), (b, y)]);
    assert [(b, y), (a, x)][..1] == [(b, y)];
    assert Grow([(b, y)]) == Branch(Leaf, b, y, Leaf);
  }

  // ---------------------------------------------------------------- ascending insertion

  predicate Ascending<T>(h: seq<(int, T)>) {
    forall i, j :: 0 <= i < j < |h| ==> h[i].0 < h[j].0
  }

  /** A tree without left children that lists the entries from the root down. */
  function Spine<T>(h: seq<(int, T)>): Tree<T> {
    if h == [] then Leaf else Branch(Leaf, h[0].0, h[0].1, Spine(h[1..]))
  }

  lemma {:induction false} SpineGrows<T>(h: seq<(int, T)>, e: (int, T))
    requires forall i :: 0 <= i < |h| ==> h[i].0 < e.0
    ensures Insert(Spine(h), e.0, e.1) == Spine(h + [e])
  {
    if h != [] {
      assert (h + [e])[1..] == h[1..] + [e];
      SpineGrows(h[1..], e);
    } else {
      assert [e][1..] == [];
    }
  }

  /** Inserting ascending keys, as start does, gives a pure right spine. */
  lemma {:induction false} AscendingIsSpine<T>(h: seq<(int, T)>)
    requires Ascending(h)
    ensures Grow(h) == Spine(h)
  {
    if h != [] {
      var n := |h| - 1;
      AscendingIsSpine(h[..n]);
      SpineGrows(h[..n], h[n]);
      assert h == h[..n] + [h[n]];
    }
  }

  /** On a spine the i-th key, counted from 0, costs i + 1 rounds. */
  lemma {:induction false} SpineCost<T>(h: seq<(int, T)>, i: nat)
    requires Ascending(h) && i < |h|
    ensures Steps(Spine(h), h[i].0) == i + 1 && Lookup(Spine(h), h[i].0) == Some(h[i].1)
  {
    if |h| > 1 {
      SpineCost(h[1..], if i > 0 then i - 1 else 0);
    } else {
      assert h[1..] == [];
    }
  }

  lemma {:induction false} SpineFacts<T>(h: seq<(int, T)>)
    ensures Height(Spine(h)) == |h| && |Inorder(Spine(h))| == |h|
    ensures forall i :: 0 <= i < |h| ==> Inorder(Spine(h))[i] == h[i].0
  {
    if h != [] {
      SpineFacts(h[1..]);
    }
  }

  /** Ascending insertion costs the most: the height is the number of keys, and so are the rounds for the last. */
  lemma AscendingCost<T>(h: seq<(int, T)>, i: nat)
    requires Ascending(h) && i < |h|
    ensures Height(Grow(h)) == |h| && Steps(Grow(h), h[i].0) == i + 1
  {
    AscendingIsSpine(h);
    SpineFacts(h);
    SpineCost(h, i);
  }
}
