/** The value model of `NodeAVL<int>` and the recursive specifications the
    tree operations and the traversal cursor are proved against.

    A null `NodeAVL*` is `Nil`; a node keeps its cached `height` field exactly
    as the source stores it, so an ill-formed tree (a stale height) is
    representable and the invariants below are real obligations. */
module TreeSpec {

  datatype Tree = Nil | Node(left: Tree, data: int, right: Tree, height: int)

  function Max(a: int, b: int): int {
    if a < b then b else a
  }

  /** The cached height as the source reads it: an empty child counts as -1. */
  function H(t: Tree): int {
    if t.Nil? then -1 else t.height
  }

  /** The height recomputed from the shape, ignoring every cached field. */
  function TrueHeight(t: Tree): (h: int)
    ensures h >= -1
    ensures t.Node? ==> h >= 0
  {
    match t
    case Nil => -1
    case Node(l, _, r, _) => 1 + Max(TrueHeight(l), TrueHeight(r))
  }

  function Contents(t: Tree): set<int> {
    match t
    case Nil => {}
    case Node(l, d, r, _) => Contents(l) + {d} + Contents(r)
  }

  /** Every node of the tree, each as the subtree rooted at it. */
  function Subtrees(t: Tree): set<Tree> {
    match t
    case Nil => {}
    case Node(l, _, r, _) => {t} + Subtrees(l) + Subtrees(r)
  }

  function Inorder(t: Tree): seq<int> {
    match t
    case Nil => []
    case Node(l, d, r, _) => Inorder(l) + [d] + Inorder(r)
  }

  function Preorder(t: Tree): seq<int> {
    match t
    case Nil => []
    case Node(l, d, r, _) => [d] + Preorder(l) + Preorder(r)
  }

  function Postorder(t: Tree): seq<int> {
    match t
    case Nil => []
    case Node(l, d, r, _) => Postorder(l) + Postorder(r) + [d]
  }

  /** The number of nodes of a forest. */
  function ForestSize(q: seq<Tree>): nat {
    if |q| == 0 then 0 else |Inorder(q[0])| + ForestSize(q[1..])
  }

  /** The values at the roots of a forest, left to right; empty trees have none. */
  function Roots(q: seq<Tree>): seq<int> {
    if |q| == 0 then [] else (if q[0].Node? then [q[0].data] else []) + Roots(q[1..])
  }

  /** A one-tree forest, or none for an empty tree. */
  function NonEmpty(t: Tree): seq<Tree> {
    if t.Node? then [t] else []
  }

  /** The non-empty children of a node, left before right. */
  function NonEmptyChildren(t: Tree): seq<Tree> {
    if t.Nil? then [] else NonEmpty(t.left) + NonEmpty(t.right)
  }

  /** The forest one level down. */
  function Children(q: seq<Tree>): seq<Tree> {
    if |q| == 0 then [] else NonEmptyChildren(q[0]) + Children(q[1..])
  }

  /** Breadth-first order of a forest: its roots, then the next level down. */
  function ForestLevelOrder(q: seq<Tree>): seq<int>
    decreases ForestSize(q)
  {
    if ForestSize(q) == 0 then []
    else
      ChildrenSize(q);
      Roots(q) + ForestLevelOrder(Children(q))
  }

  function LevelOrder(t: Tree): seq<int> {
    ForestLevelOrder([t])
  }

  /** Strict binary-search-tree order: no duplicates. */
  predicate Bst(t: Tree) {
    match t
    case Nil => true
    case Node(l, d, r, _) =>
      && Bst(l)
      && Bst(r)
      && (forall x :: x in Contents(l) ==> x < d)
      && (forall x :: x in Contents(r) ==> d < x)
  }

  /** Every cached height equals 1 + the larger cached height of its children. */
  predicate HeightsOk(t: Tree)
    ensures HeightsOk(t) ==> H(t) >= -1 && (t.Node? ==> H(t) >= 0)
  {
    match t
    case Nil => true
    case Node(l, _, r, h) => HeightsOk(l) && HeightsOk(r) && h == 1 + Max(H(l), H(r))
  }

  /** The AVL condition read off the cached heights, stated node by node. */
  ghost predicate Balanced(t: Tree) {
    forall s :: s in Subtrees(t) && s.Node? ==> -1 <= H(s.left) - H(s.right) <= 1
  }

  predicate Increasing(s: seq<int>) {
    forall i, j :: 0 <= i < j < |s| ==> s[i] < s[j]
  }

  /** Where the cached heights are consistent they are the true heights. */
  lemma {:induction false} HeightsOkIsTrueHeight(t: Tree)
    ensures HeightsOk(t) ==> H(t) == TrueHeight(t)
  {
    match t
    case Nil =>
    case Node(l, _, r, _) =>
      HeightsOkIsTrueHeight(l);
      HeightsOkIsTrueHeight(r);
  }

  lemma {:induction false} InorderHasContents(t: Tree)
    ensures forall x :: x in Contents(t) <==> x in Inorder(t)
  {
    match t
    case Nil =>
    case Node(l, d, r, _) =>
      InorderHasContents(l);
      InorderHasContents(r);
  }

  /** Splitting an increasing sequence around one element. */
  lemma IncreasingSplits(a: seq<int>, d: int, b: seq<int>)
    requires Increasing(a + [d] + b)
    ensures Increasing(a) && Increasing(b)
    ensures forall x :: x in a ==> x < d
    ensures forall y :: y in b ==> d < y
  {
    var s := a + [d] + b;
    assert forall i :: 0 <= i < |a| ==> s[i] == a[i];
    assert s[|a|] == d;
    assert forall j :: 0 <= j < |b| ==> s[|a| + 1 + j] == b[j];
    forall i, j | 0 <= i < j < |b| ensures b[i] < b[j] {
      assert s[|a| + 1 + i] < s[|a| + 1 + j];
    }
    forall x | x in a ensures x < d {
      var i :| 0 <= i < |a| && a[i] == x;
      assert s[i] < s[|a|];
    }
    forall y | y in b ensures d < y {
      var j :| 0 <= j < |b| && b[j] == y;
      assert s[|a|] < s[|a| + 1 + j];
    }
  }

  /** Joining two increasing sequences around a separating element. */
  lemma IncreasingJoins(a: seq<int>, d: int, b: seq<int>)
    requires Increasing(a) && Increasing(b)
    requires forall x :: x in a ==> x < d
    requires forall y :: y in b ==> d < y
    ensures Increasing(a + [d] + b)
  {
    var s := a + [d] + b;
    forall i, j | 0 <= i < j < |s| ensures s[i] < s[j] {
      if j < |a| {
        assert s[i] == a[i] && s[j] == a[j];
      } else if i < |a| {
        assert s[i] == a[i] && a[i] in a;
        if j > |a| {
          assert s[j] == b[j - |a| - 1] && b[j - |a| - 1] in b;
        }
      } else if i == |a| {
        assert s[j] == b[j - |a| - 1] && b[j - |a| - 1] in b;
      } else {
        assert s[i] == b[i - |a| - 1] && s[j] == b[j - |a| - 1];
      }
    }
  }

  lemma IncreasingAround(a: seq<int>, d: int, b: seq<int>)
    ensures Increasing(a + [d] + b) <==>
      && Increasing(a)
      && Increasing(b)
      && (forall x :: x in a ==> x < d)
      && (forall y :: y in b ==> d < y)
  {
    if Increasing(a + [d] + b) {
      IncreasingSplits(a, d, b);
    }
    if && Increasing(a) && Increasing(b)
       && (forall x :: x in a ==> x < d) && (forall y :: y in b ==> d < y)
    {
      IncreasingJoins(a, d, b);
    }
  }

  /** The recursive BST order is exactly "the in-order sequence is strictly increasing". */
  lemma {:induction false} BstIffIncreasing(t: Tree)
    ensures Bst(t) <==> Increasing(Inorder(t))
  {
    match t
    case Nil =>
    case Node(l, d, r, _) =>
      BstIffIncreasing(l);
      BstIffIncreasing(r);
      InorderHasContents(l);
      InorderHasContents(r);
      IncreasingAround(Inorder(l), d, Inorder(r));
  }

  lemma DisjointUnionSize(a: set<int>, b: set<int>)
    requires forall x :: x in a ==> x !in b
    ensures |a + b| == |a| + |b|
  {
    var common := a * b;
    assert forall x :: x !in common;
    assert common == {};
  }

  /** In a BST the stored values are distinct, so there are as many as nodes. */
  lemma {:induction false} BstCardinality(t: Tree)
    ensures Bst(t) ==> |Contents(t)| == |Inorder(t)|
  {
    match t
    case Nil =>
    case Node(l, d, r, _) =>
      if !Bst(t) { return; }
      BstCardinality(l);
      BstCardinality(r);
      assert d !in Contents(l);
      assert |Contents(l) + {d}| == |Contents(l)| + 1;
      assert forall x :: x in Contents(l) ==> x < d;
      assert forall x :: x in Contents(r) ==> d < x;
      assert forall x :: x in Contents(l) + {d} ==> x !in Contents(r);
      DisjointUnionSize(Contents(l) + {d}, Contents(r));
  }

  lemma {:induction false} SubtreesAreNodes(t: Tree)
    ensures forall s :: s in Subtrees(t) ==> s.Node?
  {
    match t
    case Nil =>
    case Node(l, _, r, _) =>
      SubtreesAreNodes(l);
      SubtreesAreNodes(r);
  }

  lemma {:induction false} ForestSizeAppend(a: seq<Tree>, b: seq<Tree>)
    ensures ForestSize(a + b) == ForestSize(a) + ForestSize(b)
    decreases |a|
  {
    if |a| == 0 {
      assert a + b == b;
    } else {
      assert (a + b)[0] == a[0] && (a + b)[1..] == a[1..] + b;
      ForestSizeAppend(a[1..], b);
    }
  }

  lemma {:induction false} RootsAppend(a: seq<Tree>, b: seq<Tree>)
    ensures Roots(a + b) == Roots(a) + Roots(b)
    decreases |a|
  {
    if |a| == 0 {
      assert a + b == b;
    } else {
      assert (a + b)[0] == a[0] && (a + b)[1..] == a[1..] + b;
      RootsAppend(a[1..], b);
    }
  }

  lemma {:induction false} ChildrenAppend(a: seq<Tree>, b: seq<Tree>)
    ensures Children(a + b) == Children(a) + Children(b)
    decreases |a|
  {
    if |a| == 0 {
      assert a + b == b;
    } else {
      assert (a + b)[0] == a[0] && (a + b)[1..] == a[1..] + b;
      ChildrenAppend(a[1..], b);
    }
  }

  lemma {:induction false} NonEmptySize(t: Tree)
    ensures ForestSize(NonEmpty(t)) == |Inorder(t)|
  {
    if t.Node? {
      assert [t][1..] == [];
    }
  }

  /** Going one level down removes exactly the roots; a forest with a node has a root. */
  lemma {:induction false} ChildrenSize(q: seq<Tree>)
    ensures ForestSize(Children(q)) + |Roots(q)| == ForestSize(q)
    ensures ForestSize(q) > 0 ==> |Roots(q)| > 0
    decreases |q|
  {
    if |q| > 0 {
      var t := q[0];
      ChildrenSize(q[1..]);
      ForestSizeAppend(NonEmptyChildren(t), Children(q[1..]));
      if t.Node? {
        ForestSizeAppend(NonEmpty(t.left), NonEmpty(t.right));
        NonEmptySize(t.left);
        NonEmptySize(t.right);
        assert |Inorder(t)| == |Inorder(t.left)| + 1 + |Inorder(t.right)|;
      }
    }
  }

  /** The level order of a forest is always its roots followed by the level
      order one level down, including for a forest with no nodes. */
  lemma LevelOrderUnfold(q: seq<Tree>)
    ensures ForestLevelOrder(q) == Roots(q) + ForestLevelOrder(Children(q))
  {
    ChildrenSize(q);
  }

  /** The step behind breadth-first search with a queue: taking the roots of
      the front part `a` first and putting their children behind `b` yields
      the level order of the whole forest `a + b`. */
  lemma {:induction false} LevelOrderSplit(a: seq<Tree>, b: seq<Tree>)
    ensures ForestLevelOrder(a + b) == Roots(a) + ForestLevelOrder(b + Children(a))
    decreases ForestSize(a + b)
  {
    var ka, kb := Children(a), Children(b);
    LevelOrderUnfold(a + b);
    LevelOrderUnfold(b + ka);
    RootsAppend(a, b);
    RootsAppend(b, ka);
    ChildrenAppend(a, b);
    ChildrenAppend(b, ka);
    ChildrenSize(a + b);
    if ForestSize(a + b) > 0 {
      LevelOrderSplit(ka, kb);
      assert ForestLevelOrder(ka + kb) == Roots(ka) + ForestLevelOrder(kb + Children(ka));
      SplitRegroup(Roots(a), Roots(b), Roots(ka), ForestLevelOrder(kb + Children(ka)));
    } else {
      ForestSizeAppend(a, b);
      ForestSizeAppend(b, ka);
      ChildrenSize(a);
      ChildrenSize(b);
      ChildrenSize(ka);
      LevelOrderUnfold(ka + kb);
      assert ForestLevelOrder(ka + kb) == [];
      assert ForestLevelOrder(b + ka) == [];
    }
  }

  lemma SplitRegroup(ra: seq<int>, rb: seq<int>, rk: seq<int>, rest: seq<int>)
    ensures (ra + rb) + (rk + rest) == ra + ((rb + rk) + rest)
  {
  }
}
