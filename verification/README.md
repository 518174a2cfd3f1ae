# AVL tree, tree iterator and chained hash table — a Dafny model

This project models two in-memory containers of a small C++ header library and
proves their contracts in Dafny 4.11:

- `AVLTree<int>` (`AVL.h`, with the node type of `AVL_Node.h`). The tree is an
  immutable `Tree` value, `Nil | Node(left, data, right, height)`, and it keeps
  the cached `height` field exactly as the source stores it. `insert` and
  `remove` are functions from the old root to the new one. Three invariants are
  proved preserved by both:
  - strict BST order;
  - cached heights equal to `1 + max` of the children's, with an empty child
    counted as -1;
  - `|balancingFactor| <= 1` at every node.

  Rotations and `balance` are proved to keep the in-order sequence. `find`,
  `successor` and `predecessor` are methods with loops; `successor` and
  `predecessor` handle values absent from the tree.
- `AVLIterator` (`AVL_Iterator.h`), a state machine with four parts:
  - the current node;
  - a stack datatype for `stk`;
  - a second stack for `post_aux`;
  - a queue `seq<Tree>` for BFS.

  Every `advance*` step is proved to emit exactly the first element of what is
  still pending. Every `init*` is proved to leave pending exactly the recursive
  in-, pre-, post- or level-order sequence. The client loop
  `for (it = begin(mode); it != end(); ++it)` is proved to produce that sequence
  in exactly `size` steps. Each sequence is also proved to be a permutation of
  the in-order sequence.
- `HashTable<K, V>` (`HashTable.h`), a record with these fields:
  - an injected hash function `hash: K -> nat`, standing in for `std::hash<TK>`;
  - the capacity;
  - the buckets, `seq<seq<(K, V)>>`, each front first;
  - the insertion order, `seq<(K, V)>`;
  - the element count.

  The representation invariant `Valid` says that keys are distinct, every
  bucket entry sits in bucket `hash(k) % capacity`, the buckets and the order
  hold the same entries, and the count equals the length of the order. The
  model covers insertion with growth before insert, rehashing, `at`,
  `operator[]`, `find`, `remove`, the getters and the index-based
  `HashIterator`. Each is proved to keep `Valid` and to behave as a finite map
  whose enumeration order is insertion order.

Modules: `Outcomes` holds `Option` and `Result`. `TreeSpec` holds the tree value
and the recursive traversal specifications. `AvlNode` models `AVL_Node.h`,
`AvlTree` models `AVL.h`, `AvlIterator` models `AVL_Iterator.h`, and `HashTable`
models `HashTable.h`.

Two behaviours of the code are easy to misread; the model follows the code:

- `isBalanced` reads the cached heights; it does not recompute them.
  `IsBalancedIsTrueBalance` shows that the two agree whenever the cached heights
  are consistent.
- The growth test `float(size) / capacity >= 0.7` is false at exactly 7/10. The
  single-precision quotient of 7 by 10 rounds below the double constant 0.7. So
  the test is the integer predicate `10 * size > 7 * capacity`, which matches the
  float test for every capacity below 2^21. Consequently eight inserts into a
  table of capacity 10 do not grow it; the ninth does
  (`InsertAllWithinThreshold`). One might expect the eighth insert to grow the
  table; it does not.

## Model

| member | source | states |
|---|---|---|
| `AvlNode.NewNode` | AVL_Node.h:12 | a fresh node is a leaf of height 0 holding the value, and is a one-element AVL tree |
| `AvlNode.DefaultNode` | AVL_Node.h:11 | the default node is a leaf of height 0 holding the value-initialised element |
| `AvlNode.MaxLeft` | AVL_Node.h:27-32 | null exactly when there is no left child; otherwise a node of the left subtree with no right child, holding that subtree's maximum, which on a BST is the greatest value below the node's |
| `AvlNode.MinRight` | AVL_Node.h:34-39 | null exactly when there is no right child; otherwise a node of the right subtree with no left child, holding its minimum, which on a BST is the least value above the node's |
| `AvlNode.Leftmost` | AVL_Node.h:37 | the walk down left children ends at a node of the tree without a left child, holding the tree's minimum on a BST |
| `AvlNode.Rightmost` | AVL_Node.h:30 | the walk down right children ends at a node without a right child, holding the tree's maximum on a BST |
| `AvlTree.Height` | AVL.h:55-57 | -1 on an empty tree; with consistent cached heights, the height recomputed from the shape |
| `AvlTree.BalancingFactor` | AVL.h:222-226 | with consistent cached heights, the difference of the true heights of the two children |
| `AvlTree.UpdateHeight` | AVL.h:228-232 | keeps the children and value; makes the node's height consistent when its children's are; a node already consistent is unchanged |
| `AvlTree.IsBalanced` | AVL.h:160-164 | no contract of its own: `IsBalancedAtEveryNode` and `IsBalancedIsTrueBalance` state what the check means |
| `AvlTree.IsBalancedAtEveryNode` | AVL.h:160-164 | the recursive check holds exactly when every node's cached balance factor is within 1 |
| `AvlTree.IsBalancedIsTrueBalance` | AVL.h:160-164 | with consistent cached heights, the check agrees with the balance condition on recomputed heights |
| `AvlTree.Size` | AVL.h:155-158 | the number of nodes, which is the length of the in-order sequence and, on a BST, the number of distinct values |
| `AvlTree.RotateLeft` | AVL.h:247-257 | the right child becomes the root and the old root its left child; the in-order sequence and contents are unchanged; when the three subtrees' cached heights are consistent, so are the result's |
| `AvlTree.RotateRight` | AVL.h:259-269 | the mirror of the left rotation, with the same guarantees |
| `AvlTree.Balance` | AVL.h:234-245 | the in-order sequence and contents are unchanged; consistent heights stay consistent; a node already within balance is returned unchanged |
| `AvlTree.BalanceKeepsBst` | AVL.h:234-245 | rebalancing keeps the BST order |
| `AvlTree.RotateRightRebalances` | AVL.h:236-239 | left-left case: one right rotation of a node two levels left-heavy yields a balanced tree, no taller than the heavy child plus one |
| `AvlTree.DoubleRightRebalances` | AVL.h:236-239 | left-right case: when the heavy child leans right, the double rotation yields a balanced tree of the heavy child's height |
| `AvlTree.RotateLeftRebalances` | AVL.h:240-243 | right-right case, the mirror |
| `AvlTree.DoubleLeftRebalances` | AVL.h:240-243 | right-left case, the mirror |
| `AvlTree.BalanceRestoresAvl` | AVL.h:234-245 | on a BST node with consistent heights, AVL children and balance factor within 2, the result is an AVL tree whose height is within one of the taller child's plus one |
| `AvlTree.Rebalance` | AVL.h:143-144 | the `updateHeight; balance` pair keeps the in-order sequence and contents and yields consistent heights |
| `AvlTree.RebalanceRestoresAvl` | AVL.h:143-144 | a BST node with AVL children whose heights differ by at most 2 becomes an AVL tree of the expected height |
| `AvlTree.RebalanceNewLeft` | AVL.h:136-144 | replacing the left child of an AVL node by an AVL tree one level taller or shorter and rebalancing gives an AVL tree whose height changes by at most one, in the same direction |
| `AvlTree.RebalanceNewRight` | AVL.h:138-144 | the mirror for the right child |
| `AvlTree.BstWithLeft` | AVL.h:136-137 | a left child replaced by a BST of smaller values keeps the node a BST |
| `AvlTree.BstWithRight` | AVL.h:138-139 | a right child replaced by a BST of larger values keeps the node a BST |
| `AvlTree.Insert` | AVL.h:132-145 | the result is a non-empty tree with consistent heights whose contents are the old contents plus the value |
| `AvlTree.InsertKeepsAvl` | AVL.h:132-145 | insertion keeps BST order, consistent heights and balance, and grows the height by at most one |
| `AvlTree.InsertPresentIsIdentity` | AVL.h:140-141 | inserting a value already present returns the tree unchanged |
| `AvlTree.Remove` | AVL.h:166-188 | the result has consistent heights and no value the tree did not hold |
| `AvlTree.RemoveKeepsAvl` | AVL.h:166-188 | removal keeps all three invariants, the contents become the old contents minus the value, and the height drops by at most one |
| `AvlTree.RemoveLeft` | AVL.h:168-169 | removal from the left subtree keeps the tree AVL, removes exactly the value, and lowers the height by at most one |
| `AvlTree.RemoveRight` | AVL.h:170-171 | the mirror for the right subtree |
| `AvlTree.RemoveSplicesNode` | AVL.h:173-177 | a node with at most one child is replaced by that child, losing exactly its value and one level |
| `AvlTree.RemoveTwoChildren` | AVL.h:178-182 | for a node with two children, the left subtree's maximum `p` is the greatest value below the node's; `p` is removed from the left subtree alone, which loses exactly `p`; the result's in-order sequence is that shrunken left subtree's, then `p`, then the right subtree's; the result is AVL, has lost exactly the node's value, and is at most one level shorter |
| `AvlTree.PredecessorJoin` | AVL.h:179-181 | putting the left subtree's maximum into the node, above the left subtree with that maximum removed, keeps the BST order |
| `AvlTree.RemoveAbsentIsIdentity` | AVL.h:167 | removing a value the tree does not hold returns the tree unchanged |
| `AvlTree.Find` | AVL.h:147-153 | a true answer means the value is present; on a BST the answer is true exactly when the value is present |
| `AvlTree.MinValue` | AVL.h:59-64 | fails with the empty-tree error exactly on an empty tree; otherwise a stored value that is the minimum on a BST |
| `AvlTree.MaxValue` | AVL.h:66-71 | fails with the empty-tree error exactly on an empty tree; otherwise a stored value that is the maximum on a BST |
| `AvlTree.Successor` | AVL.h:85-98 | on a BST, succeeds exactly when some stored value exceeds the argument, and then returns the least such value, whether the argument is stored or not; otherwise fails with the no-successor error |
| `AvlTree.Predecessor` | AVL.h:100-113 | on a BST, succeeds exactly when some stored value is below the argument, and then returns the greatest such value; otherwise fails with the no-predecessor error |
| `TreeSpec.HeightsOkIsTrueHeight` | AVL.h:228-232 | when every cached height was set by `updateHeight`, each cached height is the recomputed height |
| `TreeSpec.InorderHasContents` | AVL.h:190-195 | the in-order sequence holds exactly the tree's values |
| `TreeSpec.BstIffIncreasing` | AVL_Iterator.h:54-65 | a tree is a strict BST exactly when its in-order sequence is strictly increasing |
| `TreeSpec.BstCardinality` | AVL.h:155-158 | on a BST the node count equals the number of distinct values |
| `TreeSpec.ChildrenSize` | AVL_Iterator.h:90-92 | replacing each tree of a forest by its non-empty children removes exactly one node per non-empty tree |
| `TreeSpec.LevelOrderSplit` | AVL_Iterator.h:85-93 | the level order of a queue `a + b` is the roots of `a` followed by the level order of `b` with `a`'s children enqueued behind it |
| `AvlIterator.PushLeftSpine` | AVL_Iterator.h:24-27 | pushing the left spine of a subtree puts its in-order sequence in front of what the stack already owed |
| `AvlIterator.AdvanceInOrder` | AVL_Iterator.h:54-65 | the popped node followed by what the new stack owes is what the old stack owed; it reaches the end exactly when the stack was empty |
| `AvlIterator.PreOrderStep` | AVL_Iterator.h:72-74 | pushing the right child and then the left makes the stack owe the node's pre-order minus the node |
| `AvlIterator.AdvancePreOrder` | AVL_Iterator.h:67-75 | the popped node followed by what the stack now owes is the old pre-order debt; it ends exactly on an empty stack |
| `AvlIterator.AdvancePostOrder` | AVL_Iterator.h:77-83 | pops the next value of the precomputed post-order sequence; it ends exactly when that sequence is exhausted |
| `AvlIterator.PushIfNode` | AVL_Iterator.h:73-74 | a null child is not pushed; a real one makes the stack owe its whole pre-order (and its post-order, for `post_aux`) on top of the old debt, and adds its node count |
| `AvlIterator.Enqueue` | AVL_Iterator.h:91-92 | a subtree joins the back of the queue exactly when it is non-empty, the form in which the level-order specification takes a forest's children |
| `AvlIterator.EnqueueKeepsValues` | AVL_Iterator.h:91-92 | enqueueing a child adds exactly that subtree's values, as a multiset, to those the queue holds |
| `AvlIterator.EnqueueChildren` | AVL_Iterator.h:91-92 | the left child is enqueued before the right, and empty children are skipped |
| `AvlIterator.BfsStep` | AVL_Iterator.h:90-92 | dequeuing a node and enqueuing its children continues the level order of the queue |
| `AvlIterator.AdvanceBfs` | AVL_Iterator.h:85-93 | the dequeued node followed by the level order of the new queue is the level order of the old queue; it ends exactly on an empty queue |
| `AvlIterator.Advance` | AVL_Iterator.h:121-129 | `operator++` keeps the cursor invariant and the mode; from a node it drops exactly the current value from what remains; at the end it stays at the end |
| `AvlIterator.FillStep` | AVL_Iterator.h:41-44 | moving one node from `temp` to `post_aux` and pushing its children keeps the owed post-order sequence |
| `AvlIterator.FillPostAux` | AVL_Iterator.h:38-45 | draining `temp` into `post_aux` leaves `post_aux` holding the post-order of every tree on `temp` in front of its old contents |
| `AvlIterator.Begin` | AVL_Iterator.h:98-105 | a fresh cursor yields exactly the recursive in-, pre-, post- or level-order sequence of the root; a null root starts at the end |
| `AvlIterator.End` | AVL.h:20-22 | `end()` is a cursor with no current node and nothing remaining |
| `AvlIterator.Deref` | AVL_Iterator.h:131-133 | `*it` is the first value still to be produced |
| `AvlIterator.NotEqual` | AVL_Iterator.h:117-119 | against any cursor with no current node, `end()` included, comparing current nodes says "not equal" exactly while values remain |
| `AvlIterator.LevelOrderPermutes` | AVL_Iterator.h:85-93 | the level order of a forest holds each of its values once, as a multiset |
| `AvlIterator.PreorderPermutes` | AVL_Iterator.h:67-75 | the pre-order sequence is a permutation of the in-order sequence |
| `AvlIterator.PostorderPermutes` | AVL_Iterator.h:36-47 | the post-order sequence is a permutation of the in-order sequence |
| `AvlIterator.TraversalPermutes` | AVL_Iterator.h:98-105 | in every mode the traversal visits each node exactly once: a permutation of the in-order sequence, of the same length |
| `AvlIterator.Traverse` | AVL_Iterator.h:117-133 | the loop from `begin(mode)` until `end()` produces exactly the mode's recursive sequence, in exactly as many steps as the tree has nodes |
| `HashTable.Slot` | HashTable.h:56-58 | the bucket index lies in `[0, capacity)` |
| `HashTable.Empty` | HashTable.h:90-92 | a new table has the given capacity, no entries, and satisfies the invariant |
| `HashTable.Lookup` | HashTable.h:102-106 | the value of the first entry with the key, absent exactly when no entry has it; with distinct keys it is the value of every entry with that key |
| `HashTable.BucketFind` | HashTable.h:121-124 | the scan of a bucket returns the position of the first entry with the key, or nothing exactly when no entry has it |
| `HashTable.FoundIffPresent` | HashTable.h:101-107 | on a valid table the scan of the key's bucket succeeds exactly when the key is live, and sees its live value |
| `HashTable.UpdateKeepsValid` | HashTable.h:102-106 | overwriting a found entry's value in place keeps the invariant |
| `HashTable.AddKeepsValid` | HashTable.h:109-112 | prepending a new entry to its bucket, appending it to the order and counting it keeps the invariant |
| `HashTable.Place` | HashTable.h:101-112 | the insert step after the growth test never resizes; afterwards the key's bucket holds the new pair and every other bucket is unchanged |
| `HashTable.PlaceKeepsValid` | HashTable.h:101-112 | on a valid table the insert step keeps the invariant; a present key keeps its position and count with the new value, and a new key is appended and counted |
| `HashTable.PlaceAll` | HashTable.h:79-82 | re-inserting into the new array never resizes it; a duplicate-free batch of keys the table does not bind keeps the invariant and is appended to the order |
| `HashTable.Rehash` | HashTable.h:69-85 | growth exactly doubles the capacity with the same hash; on a valid table it keeps the invariant, the exact order of entries and the count |
| `HashTable.Insert` | HashTable.h:98-113 | the capacity doubles exactly when the growth test holds before the insert, and is kept otherwise; the key's bucket then holds the new pair; on a valid table the invariant is kept, a present key's value is replaced in place with the count unchanged, and a new key is appended with the count increased by one |
| `HashTable.InsertAll` | HashTable.h:79-82 | the loop calling the full `insert`, growth included, appends a duplicate-free batch of fresh keys to the order in call order and keeps the invariant |
| `HashTable.InsertLookup` | HashTable.h:98-113 | after `insert(k, v)`, `k` is bound to `v` and every other key keeps its binding |
| `HashTable.InsertKeyOrder` | HashTable.h:98-113 | after `insert`, `getAllKeys` is unchanged for a present key, or has the new key at the end |
| `HashTable.InsertNewPrepends` | HashTable.h:109-112 | without growth, a new entry goes to the front of its own bucket and every other bucket is unchanged |
| `HashTable.InsertKeepsLoad` | HashTable.h:99 | a table reached by inserts stays within one entry of the growth threshold |
| `HashTable.RehashRelievesLoad` | HashTable.h:99 | after one doubling the growth test is false again |
| `HashTable.InsertAllIsPlaceAll` | HashTable.h:79-82 | a batch of fresh keys that fits under the threshold never triggers growth |
| `HashTable.InsertLoopIsRehash` | HashTable.h:69-85 | growth never re-enters during a rehash: the loop calling the full `insert` equals re-insertion without the growth test |
| `HashTable.InsertAllAppends` | HashTable.h:98-113 | after inserting distinct fresh keys one after another, with any rehashes in between, `getAllKeys` lists them after the old keys in first-insertion order |
| `HashTable.InsertAllWithinThreshold` | HashTable.h:99 | no growth while each insert starts at or below 7/10 load; the insert after reaching it grows the table |
| `HashTable.At` | HashTable.h:119-126 | on a valid table, the live value of the key, or the key-not-found error exactly when the key is absent |
| `HashTable.Find` | HashTable.h:138-145 | on a valid table, true exactly when the key is live |
| `HashTable.IndexAccess` | HashTable.h:128-136 | a present key changes nothing and yields its value; an absent key is inserted with the default value, which is returned; either way the result is what the table now binds the key to |
| `HashTable.InsertThenAt` | HashTable.h:134-135 | `at` right after `insert` finds the inserted value |
| `HashTable.Remove` | HashTable.h:147-170 | on a valid table, the result is true exactly when the key was present |
| `HashTable.RemovedKeepsValid` | HashTable.h:152-166 | unlinking a found entry from its bucket and the order keeps the invariant and erases exactly that key from the order |
| `HashTable.RemoveFirstIsWithout` | HashTable.h:157-162 | with distinct keys, erasing the first match from the order erases every entry with that key, keeping the others in order |
| `HashTable.RemoveKeepsValid` | HashTable.h:147-170 | `remove` keeps the invariant; the order loses exactly the key's entry, with the other keys in their relative order; the count drops by one exactly when the key was present |
| `HashTable.RemoveLookup` | HashTable.h:147-170 | after `remove(k)`, `k` is unbound and every other key keeps its binding |
| `HashTable.RemoveClearsBuckets` | HashTable.h:152-155 | after `remove(k)` no bucket holds an entry with key `k` |
| `HashTable.RemoveKeepsLoad` | HashTable.h:164 | removal never raises the load |
| `HashTable.AtAfterInsert` | HashTable.h:119-126 | `at` after `insert(k, v)` yields `v` for `k` and the old answer for every other key |
| `HashTable.AtAfterRemove` | HashTable.h:119-126 | `at` after `remove(k)` fails for `k` and gives the old answer for every other key |
| `HashTable.GetSize` | HashTable.h:172-174 | on a valid table, the count equals the number of live entries and the number of keys `getAllKeys` returns |
| `HashTable.GetAllKeys` | HashTable.h:176-181 | one key per entry of the insertion order, each of them bound |
| `HashTable.GetAllElements` | HashTable.h:183-188 | on a valid table, every returned pair is a live binding |
| `HashTable.Begin` | HashTable.h:190-192 | `begin()` dereferences to the first inserted entry, and equals `end()` exactly on an empty table |
| `HashTable.CursorLoop` | HashTable.h:23-35 | from any position between `begin()` and `end()`, `!=` against `end()` holds exactly while an entry remains; then `*` yields the next element of `getAllElements` and `++` stays in range; on a valid table `end()` lies `getSize()` steps after `begin()` |
| `HashTable.Deref` | HashTable.h:32-35 | `*it` is the element at that position of `getAllElements`, a live binding on a valid table |
| `HashTable.Enumerate` | HashTable.h:190-196 | iterating from `begin()` to `end()` yields exactly `getAllElements`: every live entry once, in insertion order |
| `HashTable.BucketsHoldOrder` | HashTable.h:50-54 | on a valid table the buckets, taken together, equal the insertion order as a multiset |
| `HashTable.LookupUpdate` | HashTable.h:104 | overwriting a key's value changes that key's binding only |
| `HashTable.LookupAppend` | HashTable.h:111 | appending a fresh key's entry adds exactly that binding |
| `HashTable.LookupWithout` | HashTable.h:159 | erasing a key's entries unbinds it and keeps every other binding |

## Left out

- String and console output are not modelled: `getInOrder`, `getPreOrder`, `getPostOrder` and `displayPretty`. The traversal value sequences they print are modelled as `Inorder`, `Preorder` and `Postorder`.
- Memory release is not modelled: `killSelf`, `clear`, the destructors, `clearBuckets`, and the `delete` calls in `rehashing` and `remove`. A value model has no memory to release.
- Parent back-pointers are not modelled. They are written by `insert`, `remove` and the rotations but never read by the modelled code.
- Pointer identity is not modelled. `AvlIterator.NotEqual` compares the current subtree by value, and in a tree with distinct values that picks out the same node. Cursor copying (`operator=`) is a plain value copy. The default constructor builds the same cursor as `End()`: no current node, in-order mode, and empty stacks and queue.
- `HashTable.NeedsGrowth` is the integer form of `float(size) / capacity >= 0.7`. It agrees with the float test for capacities below 2^21, and not beyond.
- `std::hash<TK>` is replaced by the table's `hash` field, an arbitrary function to `nat`. Because `size_t` is unsigned, `hash(key) % capacity` is never negative.
- `remove` reads `(*i)->k` in its order scan after `delete *cur` has freed that very entry, which is a use after free. The model gives `remove` its evident effect: the entry leaves both the bucket and the order.
- `HashTable.Remove`: the decrement is clamped at 0 because the count is a `nat`. This only matters on tables outside the invariant, where the source would go negative.
- The integer width of `capacity` and `size` is not modelled. Doubling `capacity` past `INT_MAX` overflows in the source, but the model's integers are unbounded.
- A table constructed with a capacity of 0 or less is not modelled. `Empty` requires a positive capacity, because such a table cannot compute an index.
- The unused constant `maxColision` and the `insert(pair)` overload are not modelled; the overload only forwards to `insert(key, value)`.
- Writes through the references that `at` and `operator[]` return are not modelled. The model returns the value; a write through the reference would be an in-place value update, which `insert` on a present key already models.
- Iterator validity under mutation, and concurrency, are out of scope. Iterators read a fixed tree or table value.
- `AvlIterator.Traverse` counts steps with an unbounded integer; the source has no counter.
