/** `AVLIterator`: the four traversal modes as explicit stack and queue state
    machines, proved to yield exactly the recursive traversals of the tree.

    The three containers of the source are kept as separate fields: the two
    `std::stack`s as a `Stack` list, the `std::queue` as a sequence whose front
    is index 0. Only non-null nodes are ever stored, which `Inv` records. */
module AvlIterator {
  import opened TreeSpec

  datatype Mode = PreOrder | InOrder | PostOrder | Bfs

  datatype Stack = Bottom | Push(below: Stack, top: Tree)

  datatype Cursor = Cursor(
    mode: Mode,
    current: Tree,
    stk: Stack,         // InOrder and PreOrder
    postAux: Stack,     // PostOrder, filled once at construction
    queue: seq<Tree>)   // Bfs

  /** The sequence each mode promises, defined by recursion on the tree. */
  function Traversal(mode: Mode, t: Tree): seq<int> {
    match mode
    case PreOrder => Preorder(t)
    case InOrder => Inorder(t)
    case PostOrder => Postorder(t)
    case Bfs => LevelOrder(t)
  }

  /** The value a node contributes when visited; a null pointer contributes nothing. */
  function Root(t: Tree): seq<int> {
    if t.Node? then [t.data] else []
  }

  predicate StackNodes(s: Stack) {
    match s
    case Bottom => true
    case Push(b, t) => t.Node? && StackNodes(b)
  }

  predicate QueueNodes(q: seq<Tree>) {
    forall i :: 0 <= i < |q| ==> q[i].Node?
  }

  /** `if (t) s.push(t);`: a null child adds nothing still to come, a real one
      adds its whole subtree, on top of what was already stacked. */
  function PushIfNode(s: Stack, t: Tree): (r: Stack)
    ensures StackNodes(s) ==> StackNodes(r)
    ensures PrePending(r) == Preorder(t) + PrePending(s)
    ensures PostForest(r) == PostForest(s) + Postorder(t)
    ensures StackSize(r) == StackSize(s) + |Inorder(t)|
  {
    if t.Node? then Push(s, t) else s
  }

  /** `if (t) q.push(t);`: a subtree joins the back of the queue exactly when it
      is non-empty, as the breadth-first specification's forest takes it. */
  function Enqueue(q: seq<Tree>, t: Tree): (r: seq<Tree>)
    ensures QueueNodes(q) ==> QueueNodes(r)
    ensures r == q + NonEmpty(t)
  {
    if t.Node? then q + [t] else q
  }

  // ---------------------------------------------------------------------------
  // What is still to come from each container

  /** In-order: popping a node yields it, then the in-order of its right subtree
      (whose left spine is pushed at that moment), then whatever lies below. */
  function InPending(s: Stack): seq<int> {
    match s
    case Bottom => []
    case Push(b, t) => (if t.Node? then [t.data] + Inorder(t.right) else []) + InPending(b)
  }

  /** Pre-order: every stacked subtree is visited whole, top first. */
  function PrePending(s: Stack): seq<int> {
    match s
    case Bottom => []
    case Push(b, t) => Preorder(t) + PrePending(b)
  }

  /** Post-order replay: the nodes of `post_aux`, top first. */
  function PostPending(s: Stack): seq<int> {
    match s
    case Bottom => []
    case Push(b, t) => Root(t) + PostPending(b)
  }

  /** The post-order of every subtree on a stack, bottom first. */
  function PostForest(s: Stack): seq<int> {
    match s
    case Bottom => []
    case Push(b, t) => PostForest(b) + Postorder(t)
  }

  /** The number of nodes reachable from a stack. */
  function StackSize(s: Stack): nat {
    match s
    case Bottom => 0
    case Push(b, t) => StackSize(b) + |Inorder(t)|
  }

  /** Breadth-first from a queue of subtrees: the level order of that forest. */
  function BfsPending(q: seq<Tree>): seq<int> {
    ForestLevelOrder(q)
  }

  function Pending(it: Cursor): seq<int> {
    match it.mode
    case InOrder => InPending(it.stk)
    case PreOrder => PrePending(it.stk)
    case PostOrder => PostPending(it.postAux)
    case Bfs => BfsPending(it.queue)
  }

  /** The values `*it` will produce from now on, the current one first. */
  function Remaining(it: Cursor): seq<int> {
    Root(it.current) + Pending(it)
  }

  /** Only non-null nodes are stored, and a cursor at the end has nothing stored
      for its mode. */
  predicate Inv(it: Cursor) {
    && StackNodes(it.stk)
    && StackNodes(it.postAux)
    && QueueNodes(it.queue)
    && (it.current.Nil? ==>
          match it.mode
          case InOrder => it.stk == Bottom
          case PreOrder => it.stk == Bottom
          case PostOrder => it.postAux == Bottom
          case Bfs => it.queue == [])
  }

  // ---------------------------------------------------------------------------
  // Regrouping concatenations, kept apart from the recursive definitions

  lemma Assoc(a: seq<int>, b: seq<int>, c: seq<int>)
    ensures a + (b + c) == (a + b) + c
  {
  }

  lemma Regroup(a: seq<int>, b: seq<int>, c: seq<int>, x: seq<int>, p: seq<int>)
    ensures (a + b + c) + (x + p) == (a + (b + c + x)) + p
  {
  }

  // ---------------------------------------------------------------------------
  // Stepping

  /** `while (t) { stk.push(t); t = t->left; }` */
  function PushLeftSpine(s: Stack, t: Tree): (r: Stack)
    ensures StackNodes(s) ==> StackNodes(r)
    ensures InPending(r) == Inorder(t) + InPending(s)
    ensures t.Nil? <==> r == s
    decreases t
  {
    if t.Nil? then s
    else
      Assoc(Inorder(t.left), [t.data] + Inorder(t.right), InPending(s));
      PushLeftSpine(Push(s, t), t.left)
  }

  /** `advanceInOrder`. */
  function AdvanceInOrder(it: Cursor): (r: Cursor)
    requires StackNodes(it.stk)
    ensures StackNodes(r.stk)
    ensures Root(r.current) + InPending(r.stk) == InPending(it.stk)
    ensures r.current.Nil? <==> it.stk == Bottom
    ensures r.current.Nil? ==> r.stk == Bottom
    ensures r.mode == it.mode && r.postAux == it.postAux && r.queue == it.queue
  {
    match it.stk
    case Bottom => it.(current := Nil)
    case Push(below, top) => it.(current := top, stk := PushLeftSpine(below, top.right))
  }

  /** `advancePreOrder`: the right child is pushed first, so the left is popped first. */
  function AdvancePreOrder(it: Cursor): (r: Cursor)
    requires StackNodes(it.stk)
    ensures StackNodes(r.stk)
    ensures Root(r.current) + PrePending(r.stk) == PrePending(it.stk)
    ensures r.current.Nil? <==> it.stk == Bottom
    ensures r.current.Nil? ==> r.stk == Bottom
    ensures r.mode == it.mode && r.postAux == it.postAux && r.queue == it.queue
  {
    match it.stk
    case Bottom => it.(current := Nil)
    case Push(below, top) =>
      PreOrderStep(below, top);
      it.(current := top, stk := PushIfNode(PushIfNode(below, top.right), top.left))
  }

  lemma {:induction false} PreOrderStep(below: Stack, top: Tree)
    requires top.Node?
    ensures [top.data] + PrePending(PushIfNode(PushIfNode(below, top.right), top.left))
         == PrePending(Push(below, top))
  {
    var a, b, c, rest := [top.data], Preorder(top.left), Preorder(top.right), PrePending(below);
    assert PrePending(PushIfNode(PushIfNode(below, top.right), top.left)) == b + (c + rest);
    assert PrePending(Push(below, top)) == (a + b + c) + rest;
    Assoc(b, c, rest);
    Assoc(a, b + c, rest);
    Assoc(a, b, c);
  }

  /** `advancePostOrder`: pop the precomputed sequence. */
  function AdvancePostOrder(it: Cursor): (r: Cursor)
    requires StackNodes(it.postAux)
    ensures StackNodes(r.postAux)
    ensures Root(r.current) + PostPending(r.postAux) == PostPending(it.postAux)
    ensures r.current.Nil? <==> it.postAux == Bottom
    ensures r.current.Nil? ==> r.postAux == Bottom
    ensures r.mode == it.mode && r.stk == it.stk && r.queue == it.queue
  {
    match it.postAux
    case Bottom => it.(current := Nil)
    case Push(below, top) => it.(current := top, postAux := below)
  }

  /** The queue after dequeuing `t`: its children go to the back, left first. */
  function EnqueueChildren(rest: seq<Tree>, t: Tree): (r: seq<Tree>)
    requires t.Node?
    ensures QueueNodes(rest) ==> QueueNodes(r)
    ensures r == rest + NonEmptyChildren(t)
  {
    var r := Enqueue(Enqueue(rest, t.left), t.right);
    assert r == rest + (NonEmpty(t.left) + NonEmpty(t.right));
    r
  }

  /** One step of breadth-first search from a queue whose front is `t`: the
      level order of the forest `[t] + rest` is `t` followed by the level
      order of `rest` with `t`'s children enqueued behind it. */
  lemma {:induction false} BfsStep(t: Tree, rest: seq<Tree>)
    requires t.Node?
    ensures [t.data] + BfsPending(EnqueueChildren(rest, t)) == BfsPending([t] + rest)
  {
    LevelOrderSplit([t], rest);
    assert [t][1..] == [];
    assert Roots([t]) == [t.data] + [] == [t.data];
    assert Children([t]) == NonEmptyChildren(t) + [] == NonEmptyChildren(t);
  }

  /** `advanceBFS`: dequeue, then enqueue the left child before the right. */
  function AdvanceBfs(it: Cursor): (r: Cursor)
    requires QueueNodes(it.queue)
    ensures QueueNodes(r.queue)
    ensures Root(r.current) + BfsPending(r.queue) == BfsPending(it.queue)
    ensures r.current.Nil? <==> it.queue == []
    ensures r.current.Nil? ==> r.queue == []
    ensures r.mode == it.mode && r.stk == it.stk && r.postAux == it.postAux
  {
    if |it.queue| == 0 then it.(current := Nil)
    else
      var front, rest := it.queue[0], it.queue[1..];
      assert it.queue == [front] + rest;
      BfsStep(front, rest);
      it.(current := front, queue := EnqueueChildren(rest, front))
  }

  /** `operator++`: dispatch on the mode. Past the end it stays at the end. */
  function Advance(it: Cursor): (r: Cursor)
    requires Inv(it)
    ensures Inv(r) && r.mode == it.mode
    ensures it.current.Node? ==> Remaining(it) == [it.current.data] + Remaining(r)
    ensures it.current.Nil? ==> r.current.Nil? && Remaining(r) == []
  {
    match it.mode
    case InOrder => AdvanceInOrder(it)
    case PreOrder => AdvancePreOrder(it)
    case PostOrder => AdvancePostOrder(it)
    case Bfs => AdvanceBfs(it)
  }

  // ---------------------------------------------------------------------------
  // Construction

  /** The eager loop of `initPostOrder`: pop a node into `post_aux`, push its
      left then its right child. */
  function FillPostAux(temp: Stack, aux: Stack): (r: Stack)
    requires StackNodes(temp) && StackNodes(aux)
    ensures StackNodes(r)
    ensures PostPending(r) == PostForest(temp) + PostPending(aux)
    decreases StackSize(temp)
  {
    match temp
    case Bottom => aux
    case Push(below, n) =>
      var next := PushIfNode(PushIfNode(below, n.left), n.right);
      assert StackSize(next) == StackSize(below) + |Inorder(n.left)| + |Inorder(n.right)|;
      FillStep(below, n, aux);
      FillPostAux(next, Push(aux, n))
  }

  /** Moving one node from `temp` to `post_aux` keeps the post-order still to come. */
  lemma {:induction false} FillStep(below: Stack, n: Tree, aux: Stack)
    requires n.Node?
    ensures PostForest(PushIfNode(PushIfNode(below, n.left), n.right)) + PostPending(Push(aux, n))
         == PostForest(Push(below, n)) + PostPending(aux)
  {
    var a, b, c, x, p := PostForest(below), Postorder(n.left), Postorder(n.right), [n.data], PostPending(aux);
    assert PostForest(PushIfNode(PushIfNode(below, n.left), n.right)) == a + b + c;
    assert PostPending(Push(aux, n)) == x + p;
    assert PostForest(Push(below, n)) == a + (b + c + x);
    Regroup(a, b, c, x, p);
  }

  /** `AVLIterator(root, type)`: the four `init*` functions. Each leaves the
      cursor on the first value of its traversal, or at the end for a null root. */
  function Begin(root: Tree, mode: Mode): (it: Cursor)
    ensures Inv(it) && it.mode == mode
    ensures Remaining(it) == Traversal(mode, root)
    ensures root.Nil? ==> it.current.Nil?
  {
    var empty := Cursor(mode, Nil, Bottom, Bottom, []);
    match mode
    case InOrder =>
      AdvanceInOrder(empty.(stk := PushLeftSpine(Bottom, root)))
    case PreOrder =>
      assert PrePending(PushIfNode(Bottom, root)) == Preorder(root) + [] == Preorder(root);
      AdvancePreOrder(empty.(stk := PushIfNode(Bottom, root)))
    case PostOrder =>
      if root.Nil? then empty
      else
        var aux := FillPostAux(Push(Bottom, root), Bottom);
        assert PostForest(Push(Bottom, root)) == [] + Postorder(root) == Postorder(root);
        assert PostPending(aux) == Postorder(root) + [] == Postorder(root);
        AdvancePostOrder(empty.(postAux := aux))
    case Bfs =>
      assert root.Nil? ==> ForestSize([root]) == 0;
      AdvanceBfs(empty.(queue := Enqueue([], root)))
  }

  /** `AVLTree::end()`, which is `AVLIterator(nullptr)`: an in-order cursor at the end. */
  function End(): (it: Cursor)
    ensures Inv(it) && it.current.Nil? && Remaining(it) == []
  {
    Begin(Nil, InOrder)
  }

  /** `operator!=`: cursors are compared by their current node only, so
      against any cursor without one, `end()` included, the loop guard
      `it != tree.end()` holds exactly while values remain. */
  function NotEqual(a: Cursor, b: Cursor): (r: bool)
    ensures Inv(a) && b.current.Nil? ==> (r <==> Remaining(a) != [])
  {
    a.current != b.current
  }

  /** `operator*`: only defined while there is a current node. */
  function Deref(it: Cursor): (v: int)
    requires it.current.Node?
    ensures |Remaining(it)| > 0 && v == Remaining(it)[0]
  {
    it.current.data
  }

  // ---------------------------------------------------------------------------
  // Every mode visits every node exactly once

  function ForestMultiset(q: seq<Tree>): multiset<int> {
    if |q| == 0 then multiset{} else multiset(Inorder(q[0])) + ForestMultiset(q[1..])
  }

  lemma {:induction false} ForestMultisetAppend(a: seq<Tree>, b: seq<Tree>)
    ensures ForestMultiset(a + b) == ForestMultiset(a) + ForestMultiset(b)
    decreases |a|
  {
    if |a| == 0 {
      assert a + b == b;
    } else {
      assert (a + b)[0] == a[0] && (a + b)[1..] == a[1..] + b;
      ForestMultisetAppend(a[1..], b);
    }
  }

  lemma {:induction false} NonEmptyMultiset(t: Tree)
    ensures ForestMultiset(NonEmpty(t)) == multiset(Inorder(t))
  {
    if t.Node? {
      assert [t][1..] == [];
    }
  }

  /** Enqueueing a child adds exactly that subtree's values to what the queue holds. */
  lemma {:induction false} EnqueueKeepsValues(q: seq<Tree>, t: Tree)
    ensures ForestMultiset(Enqueue(q, t)) == ForestMultiset(q) + multiset(Inorder(t))
  {
    ForestMultisetAppend(q, NonEmpty(t));
    NonEmptyMultiset(t);
  }

  /** The values of a tree are its root's and its children's. */
  lemma {:induction false} NodeMultiset(t: Tree)
    ensures multiset(Inorder(t)) == multiset(Root(t)) + ForestMultiset(NonEmptyChildren(t))
  {
    if t.Node? {
      var l, r := t.left, t.right;
      ForestMultisetAppend(NonEmpty(l), NonEmpty(r));
      NonEmptyMultiset(l);
      NonEmptyMultiset(r);
      var ml, mr := multiset(Inorder(l)), multiset(Inorder(r));
      assert ForestMultiset(NonEmptyChildren(t)) == ml + mr;
      assert multiset(Inorder(t)) == ml + multiset{t.data} + mr;
    }
  }

  /** The values of a forest are its roots' and those one level down. */
  lemma {:induction false} ForestMultisetLevels(q: seq<Tree>)
    ensures ForestMultiset(q) == multiset(Roots(q)) + ForestMultiset(Children(q))
    decreases |q|
  {
    if |q| > 0 {
      ForestMultisetLevels(q[1..]);
      NodeMultiset(q[0]);
      ForestMultisetAppend(NonEmptyChildren(q[0]), Children(q[1..]));
      assert Roots(q) == Root(q[0]) + Roots(q[1..]);
    }
  }

  /** Breadth-first order yields each value of a forest once. */
  lemma {:induction false} LevelOrderPermutes(q: seq<Tree>)
    ensures multiset(ForestLevelOrder(q)) == ForestMultiset(q)
    decreases ForestSize(q)
  {
    LevelOrderUnfold(q);
    ForestMultisetLevels(q);
    ChildrenSize(q);
    if ForestSize(q) > 0 {
      LevelOrderPermutes(Children(q));
    } else {
      ZeroSizeForest(q);
    }
  }

  lemma {:induction false} ZeroSizeForest(q: seq<Tree>)
    requires ForestSize(q) == 0
    ensures ForestMultiset(q) == multiset{}
    decreases |q|
  {
    if |q| > 0 {
      ZeroSizeForest(q[1..]);
    }
  }

  lemma {:induction false} PreorderPermutes(t: Tree)
    ensures multiset(Preorder(t)) == multiset(Inorder(t))
  {
    match t
    case Nil =>
    case Node(l, _, r, _) =>
      PreorderPermutes(l);
      PreorderPermutes(r);
  }

  lemma {:induction false} PostorderPermutes(t: Tree)
    ensures multiset(Postorder(t)) == multiset(Inorder(t))
  {
    match t
    case Nil =>
    case Node(l, _, r, _) =>
      PostorderPermutes(l);
      PostorderPermutes(r);
  }

  /** Every traversal is a rearrangement of the in-order sequence: each node
      is yielded exactly once, whatever the mode. */
  lemma {:induction false} TraversalPermutes(mode: Mode, t: Tree)
    ensures multiset(Traversal(mode, t)) == multiset(Inorder(t))
    ensures |Traversal(mode, t)| == |Inorder(t)|
  {
    match mode {
      case InOrder =>
      case PreOrder => PreorderPermutes(t);
      case PostOrder => PostorderPermutes(t);
      case Bfs =>
        LevelOrderPermutes([t]);
        assert [t][1..] == [];
    }
    assert |multiset(Traversal(mode, t))| == |multiset(Inorder(t))|;
  }

  /** The client loop `for (it = tree.begin(mode); it != tree.end(); ++it) out.push(*it);`.
      It collects exactly the mode's traversal and stops after one step per node. */
  method Traverse(root: Tree, mode: Mode) returns (out: seq<int>, steps: nat)
    ensures out == Traversal(mode, root)
    ensures steps == |Inorder(root)|
  {
    var it := Begin(root, mode);
    out, steps := [], 0;
    while NotEqual(it, End())
      invariant Inv(it) && it.mode == mode
      invariant out + Remaining(it) == Traversal(mode, root)
      invariant steps == |out|
      decreases |Remaining(it)|
    {
      CollectStep(out, it, Traversal(mode, root));
      var v := Deref(it);
      var next := Advance(it);
      out, steps := out + [v], steps + 1;
      it := next;
    }
    assert Remaining(it) == [];
    TraversalPermutes(mode, root);
  }

  /** One turn of the client loop: the value read is the next one owed. */
  lemma CollectStep(out: seq<int>, it: Cursor, all: seq<int>)
    requires Inv(it) && it.current.Node? && out + Remaining(it) == all
    ensures (out + [Deref(it)]) + Remaining(Advance(it)) == all
    ensures |Remaining(Advance(it))| < |Remaining(it)|
  {
    Assoc(out, [Deref(it)], Remaining(Advance(it)));
  }
}
