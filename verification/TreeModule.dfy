/** red_black_tree/code.c: insert and search over mutable left/right pointers. */
module TreeModule {
  import opened Basics
  import opened SearchTree

  class TreeNode {
    var data: int
    var left: TreeNode?
    var right: TreeNode?

    constructor (d: int)
      ensures data == d && left == null && right == null
    {
      data, left, right := d, null, null;
    }
  }

  ghost function Nodes(t: Tree<TreeNode>): set<TreeNode> {
    match t
    case Leaf => {}
    case Branch(l, _, n, r) => Nodes(l) + {n} + Nodes(r)
  }

  /** The pointers below p spell out t. */
  ghost predicate Rep(p: TreeNode?, t: Tree<TreeNode>)
    reads Nodes(t)
  {
    match t
    case Leaf => p == null
    case Branch(l, k, n, r) => p == n && n.data == k && Rep(n.left, l) && Rep(n.right, r)
  }

  /** No node occurs twice: subtrees are disjoint and there are no cycles. */
  ghost predicate NoSharing(t: Tree<TreeNode>) {
    match t
    case Leaf => true
    case Branch(l, _, n, r) =>
      NoSharing(l) && NoSharing(r) && n !in Nodes(l) && n !in Nodes(r) && Nodes(l) !! Nodes(r)
  }

  // ---------------------------------------------------------------- a tree with a hole

  /** The way from the root to a hole: at each node the key, the node and the subtree on the other side. */
  datatype Path =
    | Top
    | LeftOf(up: Path, key: int, item: TreeNode, right: Tree<TreeNode>)
    | RightOf(up: Path, left: Tree<TreeNode>, key: int, item: TreeNode)

  function Plug(p: Path, t: Tree<TreeNode>): Tree<TreeNode> {
    match p
    case Top => t
    case LeftOf(up, k, n, r) => Plug(up, Branch(t, k, n, r))
    case RightOf(up, l, k, n) => Plug(up, Branch(l, k, n, t))
  }

  ghost function PathNodes(p: Path): set<TreeNode> {
    match p
    case Top => {}
    case LeftOf(up, _, n, r) => PathNodes(up) + {n} + Nodes(r)
    case RightOf(up, l, _, n) => PathNodes(up) + {n} + Nodes(l)
  }

  /** The pointers from root follow the path, and the pointer at the hole is q. */
  ghost predicate RepPath(root: TreeNode?, p: Path, q: TreeNode?)
    reads PathNodes(p)
  {
    match p
    case Top => root == q
    case LeftOf(up, k, n, r) => n.data == k && n.left == q && Rep(n.right, r) && RepPath(root, up, n)
    case RightOf(up, l, k, n) => n.data == k && n.right == q && Rep(n.left, l) && RepPath(root, up, n)
  }

  /** The last node of the path is found nowhere else on it. */
  ghost predicate LastApart(p: Path) {
    match p
    case Top => true
    case LeftOf(up, _, n, r) => n !in PathNodes(up) && n !in Nodes(r)
    case RightOf(up, l, _, n) => n !in PathNodes(up) && n !in Nodes(l)
  }

  lemma {:induction false} Plugged(root: TreeNode?, p: Path, q: TreeNode?, t: Tree<TreeNode>)
    requires RepPath(root, p, q) && Rep(q, t)
    ensures Rep(root, Plug(p, t))
    decreases p
  {
    match p
    case Top =>
    case LeftOf(up, k, n, r) => Plugged(root, up, n, Branch(t, k, n, r));
    case RightOf(up, l, k, n) => Plugged(root, up, n, Branch(l, k, n, t));
  }

  lemma {:induction false} InsertNodes(t: Tree<TreeNode>, k: int, x: TreeNode)
    requires NoSharing(t) && x !in Nodes(t)
    ensures NoSharing(Insert(t, k, x)) && Nodes(Insert(t, k, x)) <= Nodes(t) + {x}
  {
    match t
    case Leaf =>
    case Branch(l, key, _, r) =>
      InsertNodes(l, k, x);
      InsertNodes(r, k, x);
  }

  lemma {:induction false} NodeHasKey(p: TreeNode?, t: Tree<TreeNode>, x: TreeNode)
    requires Rep(p, t) && x in Nodes(t)
    ensures x.data in Keys(t)
  {
    match t
    case Leaf =>
    case Branch(l, _, n, r) =>
      if x in Nodes(l) {
        NodeHasKey(n.left, l, x);
      } else if x in Nodes(r) {
        NodeHasKey(n.right, r, x);
      }
  }

  lemma WhichSide(t: Tree<TreeNode>, k: int)
    requires Ordered(t) && t.Branch?
    ensures t.key > k ==> (k in Keys(t) <==> k in Keys(t.left))
    ensures t.key < k ==> (k in Keys(t) <==> k in Keys(t.right))
  {
  }

  class Root {
    var node: TreeNode?
    ghost var shape: Tree<TreeNode>

    ghost predicate Valid()
      reads this, Nodes(shape)
    {
      Rep(node, shape) && NoSharing(shape) && Ordered(shape)
    }

    /** RB_ROOT */
    constructor ()
      ensures Valid() && shape == Leaf
    {
      node, shape := null, Leaf;
    }

    /** search: the node with that key or null, and the number of rounds of the loop */
    method Search(value: int) returns (found: TreeNode?, ghost rounds: nat)
      requires Valid()
      ensures match Lookup(shape, value) { case None => found == null case Some(x) => found == x && x.data == value }
      ensures rounds == Steps(shape, value) && Valid()
    {
      var n := node;
      ghost var t := shape;
      rounds := 0;
      while n != null
        invariant Rep(n, t)
        invariant Lookup(shape, value) == Lookup(t, value)
        invariant Steps(shape, value) == rounds + Steps(t, value)
        decreases t
      {
        rounds := rounds + 1;
        if n.data > value {
          n, t := n.left, t.left;
        } else if n.data < value {
          n, t := n.right, t.right;
        } else {
          return n, rounds;
        }
      }
      return null, rounds;
    }

    /** The pointers and the tree at a place tmp on the way down for key k; parent is the node above. */
    ghost predicate OnTheWay(t: TreeNode, tmp: TreeNode?, path: Path, sub: Tree<TreeNode>)
      reads this, t, Nodes(shape), Nodes(sub), PathNodes(path)
    {
      && Rep(tmp, sub) && RepPath(node, path, tmp) && Plug(path, sub) == shape
      && NoSharing(sub) && Nodes(sub) !! PathNodes(path) && LastApart(path)
      && Nodes(sub) <= Nodes(shape) && PathNodes(path) <= Nodes(shape)
      && Plug(path, SearchTree.Insert(sub, t.data, t)) == SearchTree.Insert(shape, t.data, t)
      && (t.data in Keys(shape) <==> t.data in Keys(sub)) && Ordered(sub)
    }

    /** The descent loop of insert: down to the node that has the key, or to the place where it is missing. */
    method Descend(t: TreeNode) returns (tmp: TreeNode?, parent: TreeNode, ghost path: Path, ghost sub: Tree<TreeNode>)
      requires Valid() && node != null
      ensures Valid() && OnTheWay(t, tmp, path, sub)
      ensures tmp != null <==> t.data in Keys(shape)
      ensures tmp == null ==> path != Top && parent == path.item && (path.LeftOf? <==> parent.data > t.data)
    {
      tmp, parent, path, sub := node, node, Top, shape;
      while tmp != null
        invariant Valid() && OnTheWay(t, tmp, path, sub)
        invariant tmp == null ==> path != Top && parent == path.item && (path.LeftOf? <==> parent.data > t.data)
        decreases sub
      {
        parent := tmp;
        WhichSide(sub, t.data);
        if tmp.data > t.data {
          path, sub := LeftOf(path, sub.key, sub.item, sub.right), sub.left;
          tmp := parent.left;
        } else if tmp.data < t.data {
          path, sub := RightOf(path, sub.left, sub.key, sub.item), sub.right;
          tmp := parent.right;
        } else {
          break;
        }
      }
    }

    /**
      insert: 0 and the key is added with this node, or 1 and no pointer changes.
      A node that is not in the tree comes with null children.
      */
    method Insert(t: TreeNode) returns (rc: int)
      requires Valid() && (t !in Nodes(shape) ==> t.left == null && t.right == null)
      modifies this, Nodes(shape)`left, Nodes(shape)`right
      ensures Valid() && shape == SearchTree.Insert(old(shape), t.data, t)
      ensures rc == if t.data in Keys(old(shape)) then 1 else 0
      ensures rc == 1 ==> node == old(node) && shape == old(shape)
      ensures rc == 1 ==> forall x: TreeNode ::
                old(allocated(x)) && x in Nodes(shape) ==> x.left == old(x.left) && x.right == old(x.right)
    {
      InsertKeeps(shape, t.data, t);
      if t in Nodes(shape) {
        NodeHasKey(node, shape, t);
      } else {
        InsertNodes(shape, t.data, t);
      }
      if node == null {
        node := t;
        shape := SearchTree.Insert(shape, t.data, t);
        return 0;
      }
      var tmp, parent;
      ghost var path, sub;
      tmp, parent, path, sub := Descend(t);
      if tmp != null {
        return 1;
      }
      if parent.data > t.data {
        parent.left := t;
      } else {
        parent.right := t;
      }
      Plugged(node, path, t, Branch(Leaf, t.data, t, Leaf));
      shape := SearchTree.Insert(shape, t.data, t);
      return 0;
    }
  }

  /** Inserting nodes one after the other gives the tree grown from their entries. */
  method InsertAll(root: Root, f: seq<TreeNode>, ghost h: seq<(int, TreeNode)>)
    requires root.Valid() && root.shape == Leaf && |h| == |f|
    requires forall i :: 0 <= i < |f| ==> h[i] == (f[i].data, f[i]) && f[i].left == null && f[i].right == null
    requires forall i, j :: 0 <= i < j < |f| ==> f[i] != f[j]
    modifies root, f
    ensures root.Valid() && root.shape == Grow(h)
    ensures forall i :: 0 <= i < |f| ==> f[i].data == h[i].0
  {
    assert h[..0] == [];
    for i := 0 to |f|
      invariant root.Valid() && root.shape == Grow(h[..i])
      invariant forall j :: 0 <= j < |f| ==> h[j] == (f[j].data, f[j])
      invariant forall j :: i <= j < |f| ==> f[j].left == null && f[j].right == null
    {
      GrownFrom(h, f, i);
      assert f[i] !in f[..i];
      assert h[..i + 1][..i] == h[..i];
      var rc := root.Insert(f[i]);
    }
    assert h[..|f|] == h && f[..|f|] == f;
  }

  /** The first node inserted with the searched value is the one that is found, and null means there is none. */
  method SearchAfterInserts(root: Root, f: seq<TreeNode>, ghost h: seq<(int, TreeNode)>, value: int)
    returns (found: TreeNode?, ghost at: nat)
    requires root.Valid() && root.shape == Leaf && |h| == |f|
    requires forall i :: 0 <= i < |f| ==> h[i] == (f[i].data, f[i]) && f[i].left == null && f[i].right == null
    requires forall i, j :: 0 <= i < j < |f| ==> f[i] != f[j]
    modifies root, f
    ensures root.Valid() && forall i :: 0 <= i < |f| ==> f[i].data == h[i].0
    ensures found == null ==> forall i :: 0 <= i < |f| ==> f[i].data != value
    ensures found != null ==> at < |f| && found == f[at] && found.data == value
    ensures found != null ==> forall i :: 0 <= i < at ==> f[i].data != value
  {
    InsertAll(root, f, h);
    ghost var rounds;
    found, rounds := root.Search(value);
    FirstWins(h, value);
    at := FirstWithAt(h, value);
  }

  /** The tree grown from the first i entries is made of the first i nodes. */
  lemma {:induction false} GrownFrom(h: seq<(int, TreeNode)>, f: seq<TreeNode>, i: nat)
    requires i <= |h| == |f| && forall j :: 0 <= j < |f| ==> h[j].1 == f[j]
    ensures forall x :: x in Nodes(Grow(h[..i])) ==> x in f[..i]
  {
    if i > 0 {
      GrownFrom(h, f, i - 1);
      assert h[..i][..i - 1] == h[..i - 1];
      InsertedNodes(Grow(h[..i - 1]), h[i - 1].0, f[i - 1]);
      TakeOneMore(f, i - 1);
    }
  }

  lemma {:induction false} InsertedNodes(t: Tree<TreeNode>, k: int, x: TreeNode)
    ensures Nodes(Insert(t, k, x)) <= Nodes(t) + {x}
  {
    match t
    case Leaf =>
    case Branch(l, _, _, r) =>
      InsertedNodes(l, k, x);
      InsertedNodes(r, k, x);
  }

  /** The module's start, for any number n of nodes holding 0, 100, ..., 100 * (n - 1). */
  method Start(n: nat) returns (root: Root, found: TreeNode?, ghost rounds: nat)
    ensures root.Valid() && Height(root.shape) == n
    ensures |Inorder(root.shape)| == n && forall i :: 0 <= i < n ==> Inorder(root.shape)[i] == 100 * i
    ensures found != null <==> n > 2
    ensures found != null ==> found.data == 200 && rounds == 3
  {
    root := new Root();
    var tree: seq<TreeNode> := [];
    while |tree| < n
      invariant |tree| <= n && fresh(set x | x in tree) && root.Valid() && root.shape == Leaf
      invariant forall i :: 0 <= i < |tree| ==> tree[i].data == 100 * i && tree[i].left == null && tree[i].right == null
      invariant forall i, j :: 0 <= i < j < |tree| ==> tree[i] != tree[j]
    {
      var t := new TreeNode(100 * |tree|);
      tree := tree + [t];
    }
    ghost var h := seq(n, i requires 0 <= i < n => (100 * i, tree[i]));
    InsertAll(root, tree, h);
    AscendingIsSpine(h);
    SpineFacts(h);
    found, rounds := root.Search(200);
    if n > 2 {
      SpineCost(h, 2);
    } else {
      GrowFacts(h);
      LookupFinds(root.shape, 200);
    }
  }
}
