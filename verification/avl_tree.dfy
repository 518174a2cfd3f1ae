/** `AVLTree<int>`: the tree is its root, an immutable `Tree` value, and every
    mutating member of the class becomes a function from the old root to the
    new one. The private recursive `insert`/`remove` take the subtree they
    rewrite through a `NodeAVL*&`, which here is simply their result. */
module AvlTree {
  import opened TreeSpec
  import opened Outcomes
  import opened AvlNode

  /** The `runtime_error`s the queries throw. */
  datatype TreeError = EmptyTree | NoSuccessor | NoPredecessor

  /** The invariant every public mutation keeps: strict BST order, consistent
      cached heights, and |balance factor| <= 1 at every node. */
  predicate Avl(t: Tree) {
    Bst(t) && HeightsOk(t) && IsBalanced(t)
  }

  // ---------------------------------------------------------------------------
  // Height bookkeeping

  /** `height()`: the root's cached height, -1 for an empty tree. */
  function Height(t: Tree): (h: int)
    ensures HeightsOk(t) ==> h == TrueHeight(t)
    ensures t.Nil? ==> h == -1
  {
    HeightsOkIsTrueHeight(t);
    if t.Nil? then -1 else t.height
  }

  /** `balancingFactor`: left minus right cached height, empty child as -1. */
  function BalancingFactor(t: Tree): (bf: int)
    requires t.Node?
    ensures HeightsOk(t) ==> bf == TrueHeight(t.left) - TrueHeight(t.right)
  {
    HeightsOkIsTrueHeight(t.left);
    HeightsOkIsTrueHeight(t.right);
    H(t.left) - H(t.right)
  }

  /** `updateHeight`: refreshes the node's own cached height from its children. */
  function UpdateHeight(t: Tree): (r: Tree)
    requires t.Node?
    ensures r.Node? && r.left == t.left && r.data == t.data && r.right == t.right
    ensures HeightsOk(t.left) && HeightsOk(t.right) ==> HeightsOk(r) && H(r) == TrueHeight(r)
    ensures HeightsOk(t) ==> r == t
  {
    HeightsOkIsTrueHeight(t.left);
    HeightsOkIsTrueHeight(t.right);
    t.(height := 1 + Max(H(t.left), H(t.right)))
  }

  /** `isBalanced`: |balancingFactor| <= 1 at every node, read from the cached
      heights (the source does not recompute them). */
  predicate IsBalanced(t: Tree) {
    match t
    case Nil => true
    case Node(l, _, r, _) =>
      var bf := BalancingFactor(t);
      -1 <= bf <= 1 && IsBalanced(l) && IsBalanced(r)
  }

  /** The recursive check visits every node: it holds exactly when every
      subtree satisfies the balance condition. */
  lemma {:induction false} IsBalancedAtEveryNode(t: Tree)
    ensures IsBalanced(t) == Balanced(t)
  {
    match t
    case Nil =>
    case Node(l, _, r, _) =>
      IsBalancedAtEveryNode(l);
      IsBalancedAtEveryNode(r);
      assert Subtrees(t) == {t} + Subtrees(l) + Subtrees(r);
  }

  /** With consistent cached heights, `isBalanced` agrees with the AVL
      condition computed from recomputed heights. */
  lemma {:induction false} IsBalancedIsTrueBalance(t: Tree)
    requires HeightsOk(t)
    ensures IsBalanced(t) <==>
      forall s :: s in Subtrees(t) && s.Node? ==> -1 <= TrueHeight(s.left) - TrueHeight(s.right) <= 1
  {
    match t
    case Nil =>
    case Node(l, _, r, _) =>
      IsBalancedIsTrueBalance(l);
      IsBalancedIsTrueBalance(r);
      HeightsOkIsTrueHeight(l);
      HeightsOkIsTrueHeight(r);
  }

  /** `size`: the number of nodes. */
  function Size(t: Tree): (n: nat)
    ensures n == |Inorder(t)|
    ensures Bst(t) ==> n == |Contents(t)|
  {
    BstCardinality(t);
    match t
    case Nil => 0
    case Node(l, _, r, _) => 1 + Size(l) + Size(r)
  }

  // ---------------------------------------------------------------------------
  // Rotations and rebalancing

  /** `left_rota`: the right child rises, the node becomes its left child. */
  function RotateLeft(x: Tree): (r: Tree)
    requires x.Node? && x.right.Node?
    ensures r.Node? && r.left.Node?
    ensures r.data == x.right.data && r.left.data == x.data
    ensures Inorder(r) == Inorder(x)
    ensures Contents(r) == Contents(x)
    ensures HeightsOk(x.left) && HeightsOk(x.right) ==> HeightsOk(r)
  {
    var y := x.right;
    var x' := UpdateHeight(Node(x.left, x.data, y.left, x.height));
    UpdateHeight(Node(x', y.data, y.right, y.height))
  }

  /** `right_rota`: the left child rises, the node becomes its right child. */
  function RotateRight(y: Tree): (r: Tree)
    requires y.Node? && y.left.Node?
    ensures r.Node? && r.right.Node?
    ensures r.data == y.left.data && r.right.data == y.data
    ensures Inorder(r) == Inorder(y)
    ensures Contents(r) == Contents(y)
    ensures HeightsOk(y.left) && HeightsOk(y.right) ==> HeightsOk(r)
  {
    var x := y.left;
    var y' := UpdateHeight(Node(x.right, y.data, y.right, y.height));
    UpdateHeight(Node(x.left, x.data, y', x.height))
  }

  /** What `balance` dereferences: a heavy side has a child, and when that child
      leans the other way its inner grandchild exists too. */
  predicate Rotatable(t: Tree) {
    && t.Node?
    && (BalancingFactor(t) > 1 ==>
          t.left.Node? && (BalancingFactor(t.left) < 0 ==> t.left.right.Node?))
    && (BalancingFactor(t) < -1 ==>
          t.right.Node? && (BalancingFactor(t.right) > 0 ==> t.right.left.Node?))
  }

  /** `balance`: a single rotation towards the light side, preceded by a
      rotation of the heavy child when that child leans the other way. */
  function Balance(t: Tree): (r: Tree)
    requires Rotatable(t)
    ensures r.Node?
    ensures Inorder(r) == Inorder(t)
    ensures Contents(r) == Contents(t)
    ensures HeightsOk(t) ==> HeightsOk(r)
    ensures -1 <= BalancingFactor(t) <= 1 ==> r == t
  {
    var bf := BalancingFactor(t);
    if bf > 1 then
      if BalancingFactor(t.left) < 0 then
        assert HeightsOk(t) ==> HeightsOk(t.left);
        assert HeightsOk(t.left) ==> HeightsOk(t.left.left) && HeightsOk(t.left.right);
        RotateRight(t.(left := RotateLeft(t.left)))
      else
        RotateRight(t)
    else if bf < -1 then
      if BalancingFactor(t.right) > 0 then
        assert HeightsOk(t) ==> HeightsOk(t.right);
        assert HeightsOk(t.right) ==> HeightsOk(t.right.left) && HeightsOk(t.right.right);
        RotateLeft(t.(right := RotateRight(t.right)))
      else
        RotateLeft(t)
    else
      t
  }

  /** The `updateHeight(node); balance(node);` pair that closes every step of
      the recursive insert and remove. */
  function Rebalance(t: Tree): (r: Tree)
    requires t.Node? && HeightsOk(t.left) && HeightsOk(t.right)
    ensures r.Node? && HeightsOk(r)
    ensures Inorder(r) == Inorder(t)
    ensures Contents(r) == Contents(t)
  {
    Balance(UpdateHeight(t))
  }

  /** A node stays a BST when a child is replaced by a BST holding a subset of
      the old child's values, widened by one value on the correct side. */
  lemma BstWithLeft(t: Tree, l': Tree, v: int)
    requires t.Node? && Bst(t) && Bst(l')
    requires Contents(l') <= Contents(t.left) + {v} && v < t.data
    ensures Bst(t.(left := l'))
  {}

  lemma BstWithRight(t: Tree, r': Tree, v: int)
    requires t.Node? && Bst(t) && Bst(r')
    requires Contents(r') <= Contents(t.right) + {v} && t.data < v
    ensures Bst(t.(right := r'))
  {}

  /** Rotations keep the in-order sequence, hence the BST order. */
  lemma BalanceKeepsBst(t: Tree)
    requires Rotatable(t) && Bst(t)
    ensures Bst(Balance(t))
  {
    BstIffIncreasing(t);
    BstIffIncreasing(Balance(t));
  }

  /** Left-left case: one right rotation rebalances a node two levels
      heavier on the left whose left child does not lean right. */
  lemma RotateRightRebalances(t: Tree)
    requires t.Node? && t.left.Node?
    requires HeightsOk(t.left) && HeightsOk(t.right) && IsBalanced(t.left) && IsBalanced(t.right)
    requires H(t.left) == H(t.right) + 2 && BalancingFactor(t.left) >= 0
    ensures IsBalanced(RotateRight(t))
    ensures H(t.left) <= H(RotateRight(t)) <= H(t.left) + 1
  {
    var l := t.left;
    var y' := UpdateHeight(Node(l.right, t.data, t.right, t.height));
    assert RotateRight(t) == UpdateHeight(Node(l.left, l.data, y', l.height));
    assert IsBalanced(y');
  }

  /** Left-right case: rotating the left child left and then the node right
      rebalances a node two levels heavier on the left whose left child leans right. */
  lemma DoubleRightRebalances(t: Tree)
    requires t.Node? && t.left.Node? && t.left.right.Node?
    requires HeightsOk(t.left) && HeightsOk(t.right) && IsBalanced(t.left) && IsBalanced(t.right)
    requires H(t.left) == H(t.right) + 2 && BalancingFactor(t.left) < 0
    ensures IsBalanced(RotateRight(t.(left := RotateLeft(t.left))))
    ensures H(RotateRight(t.(left := RotateLeft(t.left)))) == H(t.left)
  {
    var l := t.left;
    var a, b := l.left, l.right;
    var inner := UpdateHeight(Node(a, l.data, b.left, l.height));
    var l' := UpdateHeight(Node(inner, b.data, b.right, b.height));
    assert RotateLeft(l) == l';
    var outer := UpdateHeight(Node(b.right, t.data, t.right, t.height));
    var res := UpdateHeight(Node(inner, b.data, outer, l'.height));
    assert RotateRight(t.(left := l')) == res;
    assert H(inner) == H(l) - 1;
    assert H(outer) == H(l) - 1;
    assert IsBalanced(inner) && IsBalanced(outer);
  }

  /** Right-right case, the mirror of `RotateRightRebalances`. */
  lemma RotateLeftRebalances(t: Tree)
    requires t.Node? && t.right.Node?
    requires HeightsOk(t.left) && HeightsOk(t.right) && IsBalanced(t.left) && IsBalanced(t.right)
    requires H(t.right) == H(t.left) + 2 && BalancingFactor(t.right) <= 0
    ensures IsBalanced(RotateLeft(t))
    ensures H(t.right) <= H(RotateLeft(t)) <= H(t.right) + 1
  {
    var r := t.right;
    var x' := UpdateHeight(Node(t.left, t.data, r.left, t.height));
    assert RotateLeft(t) == UpdateHeight(Node(x', r.data, r.right, r.height));
    assert IsBalanced(x');
  }

  /** Right-left case, the mirror of `DoubleRightRebalances`. */
  lemma DoubleLeftRebalances(t: Tree)
    requires t.Node? && t.right.Node? && t.right.left.Node?
    requires HeightsOk(t.left) && HeightsOk(t.right) && IsBalanced(t.left) && IsBalanced(t.right)
    requires H(t.right) == H(t.left) + 2 && BalancingFactor(t.right) > 0
    ensures IsBalanced(RotateLeft(t.(right := RotateRight(t.right))))
    ensures H(RotateLeft(t.(right := RotateRight(t.right)))) == H(t.right)
  {
    var r := t.right;
    var a, b := r.left, r.right;
    var inner := UpdateHeight(Node(a.right, r.data, b, r.height));
    var r' := UpdateHeight(Node(a.left, a.data, inner, a.height));
    assert RotateRight(r) == r';
    var outer := UpdateHeight(Node(t.left, t.data, a.left, t.height));
    var res := UpdateHeight(Node(outer, a.data, inner, r'.height));
    assert RotateLeft(t.(right := r')) == res;
    assert H(inner) == H(r) - 1;
    assert H(outer) == H(r) - 1;
    assert IsBalanced(inner) && IsBalanced(outer);
  }

  /** `balance` applied to a node whose children are AVL trees and whose balance
      factor is at most 2 in size yields an AVL tree whose height is that of the
      taller child or one more. */
  lemma BalanceRestoresAvl(t: Tree)
    requires t.Node? && Bst(t) && HeightsOk(t)
    requires Avl(t.left) && Avl(t.right)
    requires -2 <= BalancingFactor(t) <= 2
    ensures Avl(Balance(t))
    ensures Max(H(t.left), H(t.right)) <= H(Balance(t)) <= 1 + Max(H(t.left), H(t.right))
  {
    BalanceKeepsBst(t);
    var bf := BalancingFactor(t);
    if bf > 1 {
      if BalancingFactor(t.left) < 0 {
        DoubleRightRebalances(t);
      } else {
        RotateRightRebalances(t);
      }
    } else if bf < -1 {
      if BalancingFactor(t.right) > 0 {
        DoubleLeftRebalances(t);
      } else {
        RotateLeftRebalances(t);
      }
    }
  }

  /** The step that closes each level of insert and remove: a node whose
      children are AVL trees differing in height by at most 2 becomes an AVL
      tree of height between the taller child's and one more. */
  lemma RebalanceRestoresAvl(n: Tree)
    requires n.Node? && Bst(n) && Avl(n.left) && Avl(n.right)
    requires -2 <= H(n.left) - H(n.right) <= 2
    ensures Avl(Rebalance(n))
    ensures Max(H(n.left), H(n.right)) <= H(Rebalance(n)) <= 1 + Max(H(n.left), H(n.right))
    ensures -1 <= H(n.left) - H(n.right) <= 1 ==> H(Rebalance(n)) == 1 + Max(H(n.left), H(n.right))
  {
    BalanceRestoresAvl(UpdateHeight(n));
  }

  /** Replacing the left child of an AVL node by an AVL tree at most one level
      taller or shorter, then rebalancing, gives an AVL tree whose height moved
      in the same direction by at most one. */
  lemma RebalanceNewLeft(t: Tree, l': Tree)
    requires t.Node? && HeightsOk(t) && IsBalanced(t) && Avl(l') && Bst(t.(left := l'))
    requires H(t.left) - 1 <= H(l') <= H(t.left) + 1
    ensures Avl(Rebalance(t.(left := l')))
    ensures H(l') >= H(t.left) ==> H(t) <= H(Rebalance(t.(left := l'))) <= H(t) + 1
    ensures H(l') <= H(t.left) ==> H(t) - 1 <= H(Rebalance(t.(left := l'))) <= H(t)
  {
    RebalanceRestoresAvl(t.(left := l'));
  }

  lemma RebalanceNewRight(t: Tree, r': Tree)
    requires t.Node? && HeightsOk(t) && IsBalanced(t) && Avl(r') && Bst(t.(right := r'))
    requires H(t.right) - 1 <= H(r') <= H(t.right) + 1
    ensures Avl(Rebalance(t.(right := r')))
    ensures H(r') >= H(t.right) ==> H(t) <= H(Rebalance(t.(right := r'))) <= H(t) + 1
    ensures H(r') <= H(t.right) ==> H(t) - 1 <= H(Rebalance(t.(right := r'))) <= H(t)
  {
    RebalanceRestoresAvl(t.(right := r'));
  }

  // ---------------------------------------------------------------------------
  // Insertion and removal

  /** `insert`: descends by comparison, adds a leaf where the search falls off,
      and rebalances every node on the way back up; an equal value stops the
      descent and nothing is rewritten below that point. */
  function Insert(t: Tree, v: int): (r: Tree)
    requires HeightsOk(t)
    ensures r.Node? && HeightsOk(r)
    ensures Contents(r) == Contents(t) + {v}
  {
    match t
    case Nil => Rebalance(NewNode(v))
    case Node(l, d, rt, h) =>
      if v < d then Rebalance(Node(Insert(l, v), d, rt, h))
      else if v > d then Rebalance(Node(l, d, Insert(rt, v), h))
      else t
  }

  /** Insertion keeps the AVL invariant and grows the height by at most one. */
  lemma {:induction false} InsertKeepsAvl(t: Tree, v: int)
    requires Avl(t)
    ensures Avl(Insert(t, v))
    ensures H(t) <= H(Insert(t, v)) <= H(t) + 1
  {
    match t
    case Nil =>
    case Node(l, d, rt, h) =>
      if v < d {
        InsertKeepsAvl(l, v);
        BstWithLeft(t, Insert(l, v), v);
        RebalanceNewLeft(t, Insert(l, v));
      } else if v > d {
        InsertKeepsAvl(rt, v);
        BstWithRight(t, Insert(rt, v), v);
        RebalanceNewRight(t, Insert(rt, v));
      }
  }

  /** Inserting a value the tree already holds changes nothing. */
  lemma {:induction false} InsertPresentIsIdentity(t: Tree, v: int)
    requires Avl(t) && v in Contents(t)
    ensures Insert(t, v) == t
  {
    match t
    case Node(l, d, rt, h) =>
      if v < d {
        InsertPresentIsIdentity(l, v);
      } else if v > d {
        InsertPresentIsIdentity(rt, v);
      }
  }

  /** `remove`: descends by comparison; a node with at most one child is
      replaced by that child, a node with two children takes its in-order
      predecessor's value and that value is removed from the left subtree;
      every surviving node on the way back up is rebalanced. */
  function Remove(t: Tree, v: int): (r: Tree)
    requires HeightsOk(t)
    ensures HeightsOk(r)
    ensures Contents(r) <= Contents(t)
  {
    match t
    case Nil => Nil
    case Node(l, d, rt, h) =>
      if v < d then Rebalance(Node(Remove(l, v), d, rt, h))
      else if v > d then Rebalance(Node(l, d, Remove(rt, v), h))
      else if l.Nil? || rt.Nil? then
        var child := if l.Node? then l else rt;
        if child.Node? then Rebalance(child) else Nil
      else
        var p := MaxLeft(t).value.data;
        Rebalance(Node(Remove(l, p), p, rt, h))
  }

  /** Removal keeps the AVL invariant, removes exactly `v`, and lowers the
      height by at most one. */
  lemma {:induction false} RemoveKeepsAvl(t: Tree, v: int)
    requires Avl(t)
    ensures Avl(Remove(t, v))
    ensures Contents(Remove(t, v)) == Contents(t) - {v}
    ensures H(t) - 1 <= H(Remove(t, v)) <= H(t)
    decreases t, 1
  {
    match t
    case Nil =>
    case Node(l, d, rt, h) =>
      if v < d {
        RemoveLeft(t, v);
      } else if v > d {
        RemoveRight(t, v);
      } else if l.Nil? || rt.Nil? {
        RemoveSplicesNode(t);
      } else {
        RemoveTwoChildren(t);
      }
  }

  /** Removing from the left subtree: induction on the child, then one rebalance. */
  lemma {:induction false} RemoveLeft(t: Tree, v: int)
    requires Avl(t) && t.Node? && v < t.data
    ensures Avl(Remove(t, v))
    ensures Contents(Remove(t, v)) == Contents(t) - {v}
    ensures H(t) - 1 <= H(Remove(t, v)) <= H(t)
    decreases t, 0
  {
    RemoveKeepsAvl(t.left, v);
    BstWithLeft(t, Remove(t.left, v), v);
    RebalanceNewLeft(t, Remove(t.left, v));
  }

  /** Removing from the right subtree, the mirror case. */
  lemma {:induction false} RemoveRight(t: Tree, v: int)
    requires Avl(t) && t.Node? && v > t.data
    ensures Avl(Remove(t, v))
    ensures Contents(Remove(t, v)) == Contents(t) - {v}
    ensures H(t) - 1 <= H(Remove(t, v)) <= H(t)
    decreases t, 0
  {
    RemoveKeepsAvl(t.right, v);
    BstWithRight(t, Remove(t.right, v), v);
    RebalanceNewRight(t, Remove(t.right, v));
  }

  /** A node with at most one child is replaced by that child. */
  lemma RemoveSplicesNode(t: Tree)
    requires Avl(t) && t.Node? && (t.left.Nil? || t.right.Nil?)
    ensures Remove(t, t.data) == (if t.left.Node? then t.left else t.right)
    ensures Contents(Remove(t, t.data)) == Contents(t) - {t.data}
    ensures H(Remove(t, t.data)) == H(t) - 1
  {
    var child := if t.left.Node? then t.left else t.right;
    if child.Node? {
      assert UpdateHeight(child) == child;
    }
  }

  /** A node with two children takes its in-order predecessor's value, and that
      value is removed from the left subtree. */
  lemma {:induction false} RemoveTwoChildren(t: Tree)
    requires Avl(t) && t.Node? && t.left.Node? && t.right.Node?
    ensures Avl(Remove(t, t.data))
    ensures Contents(Remove(t, t.data)) == Contents(t) - {t.data}
    ensures H(t) - 1 <= H(Remove(t, t.data)) <= H(t)
    ensures MaxLeft(t).Some?
    ensures var p := MaxLeft(t).value.data;
      && p in Contents(t.left) && p < t.data
      && (forall x :: x in Contents(t) && x < t.data ==> x <= p)
      && Contents(Remove(t.left, p)) == Contents(t.left) - {p}
      && Inorder(Remove(t, t.data)) == Inorder(Remove(t.left, p)) + [p] + Inorder(t.right)
    decreases t, 0
  {
    var l, d, rt, h := t.left, t.data, t.right, t.height;
    var p := MaxLeft(t).value.data;
    RemoveKeepsAvl(l, p);
    var l' := Remove(l, p);
    var n := Node(l', p, rt, h);
    assert Remove(t, d) == Rebalance(n);
    PredecessorJoin(l, l', p, d, rt, h);
    RebalanceNewLeft(t.(data := p), l');
    assert Contents(l') + {p} == Contents(l);
    assert d !in Contents(l) && d !in Contents(rt);
  }

  /** Moving the left subtree's maximum `p` up into the node, after removing it
      from that subtree, keeps the BST order. */
  lemma PredecessorJoin(l: Tree, l': Tree, p: int, d: int, rt: Tree, h: int)
    requires Bst(l') && Bst(rt)
    requires Contents(l') == Contents(l) - {p}
    requires forall x :: x in Contents(l) ==> x <= p
    requires p < d
    requires forall x :: x in Contents(rt) ==> d < x
    ensures Bst(Node(l', p, rt, h))
  {}

  /** Removing a value the tree does not hold changes nothing. */
  lemma {:induction false} RemoveAbsentIsIdentity(t: Tree, v: int)
    requires Avl(t) && v !in Contents(t)
    ensures Remove(t, v) == t
  {
    match t
    case Nil =>
    case Node(l, d, rt, h) =>
      if v < d {
        RemoveAbsentIsIdentity(l, v);
      } else if v > d {
        RemoveAbsentIsIdentity(rt, v);
      }
  }

  // ---------------------------------------------------------------------------
  // Queries

  /** `find`: the iterative descent. */
  method Find(t: Tree, v: int) returns (found: bool)
    ensures found ==> v in Contents(t)
    ensures Bst(t) ==> (found <==> v in Contents(t))
  {
    var node := t;
    while node.Node?
      invariant Contents(node) <= Contents(t)
      invariant Bst(t) ==> Bst(node) && (v in Contents(t) ==> v in Contents(node))
      decreases node
    {
      if v == node.data {
        return true;
      }
      node := if v < node.data then node.left else node.right;
    }
    return false;
  }

  /** `minValue`: the left-most value; throws on an empty tree. */
  function MinValue(t: Tree): (r: Result<int, TreeError>)
    ensures r.Failure? <==> t.Nil?
    ensures r.Failure? ==> r.error == EmptyTree
    ensures r.Ok? ==> r.value in Contents(t)
    ensures r.Ok? && Bst(t) ==> forall x :: x in Contents(t) ==> r.value <= x
  {
    if t.Nil? then Failure(EmptyTree) else Ok(Leftmost(t).data)
  }

  /** `maxValue`: the right-most value; throws on an empty tree. */
  function MaxValue(t: Tree): (r: Result<int, TreeError>)
    ensures r.Failure? <==> t.Nil?
    ensures r.Failure? ==> r.error == EmptyTree
    ensures r.Ok? ==> r.value in Contents(t)
    ensures r.Ok? && Bst(t) ==> forall x :: x in Contents(t) ==> x <= r.value
  {
    if t.Nil? then Failure(EmptyTree) else Ok(Rightmost(t).data)
  }

  /** `successor`: the least stored value strictly greater than `v`, whether or
      not `v` itself is stored, found by remembering the last node where the
      descent turned left. */
  method Successor(t: Tree, v: int) returns (r: Result<int, TreeError>)
    ensures r.Failure? ==> r.error == NoSuccessor
    ensures r.Ok? ==> r.value in Contents(t) && v < r.value
    ensures Bst(t) ==> (r.Ok? <==> exists x :: x in Contents(t) && v < x)
    ensures Bst(t) && r.Ok? ==> forall x :: x in Contents(t) && v < x ==> r.value <= x
  {
    var curr := t;
    var succ: Option<int> := None;
    while curr.Node?
      invariant Contents(curr) <= Contents(t)
      invariant succ.Some? ==> succ.value in Contents(t) && v < succ.value
      invariant Bst(t) ==> Bst(curr)
      invariant Bst(t) && succ.Some? ==> forall x :: x in Contents(curr) ==> x < succ.value
      invariant Bst(t) ==> forall x :: x in Contents(t) && v < x ==>
        x in Contents(curr) || (succ.Some? && succ.value <= x)
      decreases curr
    {
      if v < curr.data {
        succ := Some(curr.data);
        curr := curr.left;
      } else {
        curr := curr.right;
      }
    }
    if succ.None? {
      return Failure(NoSuccessor);
    }
    return Ok(succ.value);
  }

  /** `predecessor`: the greatest stored value strictly less than `v`, the
      mirror image of `successor`. */
  method Predecessor(t: Tree, v: int) returns (r: Result<int, TreeError>)
    ensures r.Failure? ==> r.error == NoPredecessor
    ensures r.Ok? ==> r.value in Contents(t) && r.value < v
    ensures Bst(t) ==> (r.Ok? <==> exists x :: x in Contents(t) && x < v)
    ensures Bst(t) && r.Ok? ==> forall x :: x in Contents(t) && x < v ==> x <= r.value
  {
    var curr := t;
    var pred: Option<int> := None;
    while curr.Node?
      invariant Contents(curr) <= Contents(t)
      invariant pred.Some? ==> pred.value in Contents(t) && pred.value < v
      invariant Bst(t) ==> Bst(curr)
      invariant Bst(t) && pred.Some? ==> forall x :: x in Contents(curr) ==> pred.value < x
      invariant Bst(t) ==> forall x :: x in Contents(t) && x < v ==>
        x in Contents(curr) || (pred.Some? && x <= pred.value)
      decreases curr
    {
      if v > curr.data {
        pred := Some(curr.data);
        curr := curr.right;
      } else {
        curr := curr.left;
      }
    }
    if pred.None? {
      return Failure(NoPredecessor);
    }
    return Ok(pred.value);
  }
}
