/** `NodeAVL`: node construction and the two read-only walks `maxLeft` and
    `minRight`. Parent back-pointers are not modelled; the walks are pure
    functions, so they cannot modify any node. */
module AvlNode {
  import opened TreeSpec
  import opened Outcomes

  /** `NodeAVL(value)`: a fresh leaf, no children, height 0. */
  function NewNode(v: int): (n: Tree)
    ensures n.Node? && n.data == v && n.left.Nil? && n.right.Nil?
    ensures H(n) == 0
    ensures Bst(n) && HeightsOk(n) && Balanced(n)
    ensures Contents(n) == {v} && Inorder(n) == [v]
  {
    var n := Node(Nil, v, Nil, 0);
    assert Subtrees(n) == {n};
    n
  }

  /** `NodeAVL()`: a leaf holding the value-initialised element, 0 for `int`. */
  function DefaultNode(): (n: Tree)
    ensures n.Node? && n.left.Nil? && n.right.Nil? && H(n) == 0
    ensures Contents(n) == {0}
  {
    NewNode(0)
  }

  /** The walk `while (curr->left) curr = curr->left;` from a non-null node. */
  function Leftmost(t: Tree): (m: Tree)
    requires t.Node?
    ensures m in Subtrees(t) && m.Node? && m.left.Nil?
    ensures m.data in Contents(t)
    ensures Bst(t) ==> forall x :: x in Contents(t) ==> m.data <= x
  {
    if t.left.Nil? then t else Leftmost(t.left)
  }

  /** The walk `while (curr->right) curr = curr->right;` from a non-null node. */
  function Rightmost(t: Tree): (m: Tree)
    requires t.Node?
    ensures m in Subtrees(t) && m.Node? && m.right.Nil?
    ensures m.data in Contents(t)
    ensures Bst(t) ==> forall x :: x in Contents(t) ==> x <= m.data
  {
    if t.right.Nil? then t else Rightmost(t.right)
  }

  /** `maxLeft`: null when there is no left child, otherwise the right-most node
      of the left subtree, which on a BST holds the in-order predecessor. */
  function MaxLeft(n: Tree): (r: Option<Tree>)
    requires n.Node?
    ensures r.None? <==> n.left.Nil?
    ensures r.Some? ==> r.value in Subtrees(n.left) && r.value.Node? && r.value.right.Nil?
    ensures r.Some? ==> r.value.data in Contents(n.left)
    ensures r.Some? && Bst(n) ==> forall x :: x in Contents(n.left) ==> x <= r.value.data
    ensures r.Some? && Bst(n) ==>
      && r.value.data < n.data
      && (forall x :: x in Contents(n) && x < n.data ==> x <= r.value.data)
  {
    if n.left.Nil? then None else Some(Rightmost(n.left))
  }

  /** `minRight`: null when there is no right child, otherwise the left-most node
      of the right subtree, which on a BST holds the in-order successor. */
  function MinRight(n: Tree): (r: Option<Tree>)
    requires n.Node?
    ensures r.None? <==> n.right.Nil?
    ensures r.Some? ==> r.value in Subtrees(n.right) && r.value.Node? && r.value.left.Nil?
    ensures r.Some? ==> r.value.data in Contents(n.right)
    ensures r.Some? && Bst(n) ==> forall x :: x in Contents(n.right) ==> r.value.data <= x
    ensures r.Some? && Bst(n) ==>
      && n.data < r.value.data
      && (forall x :: x in Contents(n) && n.data < x ==> r.value.data <= x)
  {
    if n.right.Nil? then None else Some(Leftmost(n.right))
  }
}
