# AVL tree of unique integer keys

This project models an AVL tree that stores unique `int` keys. A `Node` record holds a key (`data`), a cached subtree height and two optional children. The wrapper class `AVL` owns the root slot. Its `add`, `remove` and `clear` operations run a recursive binary-search insert or delete. On the way back up they recompute heights and apply one of four rotation cases.

Layout, one module per file:

- `node.dfy` (`Nodes`): the node record as the datatype `Tree`. `Empty` is the null pointer. The module also has the read-only accessors, the `Node(int)` constructor, the cached-height helper `HeightOrZero`, the key set `Keys`, the in-order sequence `InOrder` and the true height `TrueHeight`. `TrueHeight` is the number of nodes on the longest downward path, as Node.h:31-39 defines height. `HeightsOk` says that every cached height equals the true height.
- `invariants.dfy` (`Invariants`): `getBalance`, plus the search-tree order `Ordered` and the balance property `Balanced`. `IsAvl` is order, correct heights and balance together.
- `rotations.dfy` (`Rotations`): `rightRotate`, `leftRotate` and the four-case rebalancing tail. `insertNode` and `deleteNode` share this tail.
- `insertion.dfy` (`Insertion`): `insertNode`.
- `deletion.dfy` (`Deletion`): `deleteNode`. `Delete` is the specification function. `DeleteNode` is the method as the source runs it, including the `while` loop that walks to the in-order predecessor.
- `avl.dfy` (`AvlTree`): the class `AVL` with its mutable `root` field.

The C++ passes a `Node*&` slot and rewrites it in place. Here each operation instead takes the subtree in the slot and returns the subtree the slot holds afterwards. `insertNode` and `deleteNode` return an `Update(tree, success)`. The class methods store the returned tree back into `root`.

A rotation must only be applied when the child it promotes is present. Cached heights are `nat` (the source only ever stores 1 or 1 + a maximum), so a balance above 1 forces the left child to exist, and a left child whose own balance is negative has a right child. The mirror facts hold for the right side. These are exactly the preconditions of `RotateRight` and `RotateLeft`, and `Rebalance` discharges them at each call site.

Some behaviour of the code deserves a note:

- `Node` offers no setter for `data`, but in the two-children delete case `AVL` overwrites it with the predecessor's key (AVL.cpp:231). `Delete` builds the node with the new key.
- In the one-child case the code replaces the slot with the child. The child is not null, so the code then recomputes the child's height and runs the balance check on it (AVL.cpp:217-222, 238-307). `Delete` applies `Rebalance` to the spliced child. `RebalanceValidIsIdentity` shows that on a valid tree this changes nothing.
- In the two-children case the code ignores the result of the inner `deleteNode` call (AVL.cpp:233). `Delete` ignores it too.

## Model

| member | source | states |
|---|---|---|
| Nodes.NewNode | Node.cpp:3 | A new node holds its argument as `data`, has no children and has height 1 (the defaults of Node.h:44-47). It is a correct one-key subtree whose in-order sequence is `[x]`. |
| Nodes.GetData | Node.cpp:7 | The returned key is stored in the subtree and sits between the in-order sequences of the two children. |
| Nodes.GetLeftChild | Node.cpp:9 | Returns the `left` field itself, which is `Empty` exactly when there is no left child. Its keys are a subset of the node's keys, it is the part of the in-order sequence before the node's key, and it is strictly lower. |
| Nodes.GetRightChild | Node.cpp:11 | Returns the `right` field itself. It is the mirror of `GetLeftChild`: the part of the in-order sequence after the node's key. |
| Nodes.GetHeight | Node.cpp:13 | Returns the cached `height` field itself, not a recomputed value. When cached heights are correct, it equals the number of nodes on the longest path down from the node (Node.h:31-41). |
| Nodes.HeightOrZero | AVL.cpp:317-319 | `nodeHeightOrZero` gives 0 for an absent node and the node's cached `height` otherwise, without recomputing it. Under correct cached heights it is the slot's true height. |
| Nodes.HeightsOkIsRecomputed | AVL.cpp:122-123 | Cached heights are correct exactly when every node's height is 1 + the larger cached child height, which is the value the source recomputes. Both directions are proved. |
| Invariants.GetBalance | AVL.cpp:182-190 | `getBalance` gives 0 for an absent node, and otherwise the left child's cached height minus the right child's, an absent child counting 0. When both children have correct heights, it is the true height of the left subtree minus that of the right subtree. |
| Invariants.OrderedIffIncreasing | AVL.cpp:102-111 | The order that insertion and deletion navigate by (left keys < key < right keys at every node) holds exactly when the in-order traversal is strictly increasing. Both directions are proved. |
| Rotations.RotateRight | AVL.cpp:11-72 | The left child C becomes the root, the old root E becomes C's right child, and C's old right subtree becomes E's left subtree. The in-order sequence and the key set are unchanged, order is kept, and both moved nodes get correct heights when the three moved subtrees have them. |
| Rotations.RotateLeft | AVL.cpp:74-93 | The exact mirror of `RotateRight`, with the same in-order, order and height guarantees. |
| Rotations.Rebalance | AVL.cpp:122-176 | Recomputes the height, then picks a case: right rotation, left rotation at the left child followed by a right rotation, or the two mirror cases, with tie-breaks `>= 0` and `<= 0`. The in-order sequence, key set and order are unchanged, and heights are correct when the children's heights are. |
| Rotations.RebalanceRestoresBalance | AVL.cpp:125-176 | Take children that are balanced with correct heights, whose heights differ by at most 2. The result is balanced with correct heights, and its height is the larger child height or one more. With no imbalance, the height is exactly one more. |
| Rotations.LeftLeftBalances | AVL.cpp:132-139 | Left-left case: the tail makes a single right rotation, which restores balance and height correctness. The result is as high as the left child or one higher. |
| Rotations.LeftRightBalances | AVL.cpp:141-153 | Left-right case: the double rotation restores balance, and the height equals the old left child's height. |
| Rotations.RightRightBalances | AVL.cpp:157-164 | Right-right case: the single left rotation restores balance and height correctness. |
| Rotations.RightLeftBalances | AVL.cpp:166-175 | Right-left case: the mirror of the left-right case. |
| Rotations.RebalanceValidIsIdentity | AVL.cpp:253-307 | On a node that is already balanced with correct heights, the recompute-and-rebalance tail changes nothing. |
| Insertion.Insert | AVL.cpp:95-178 | On failure the key is present and the result is the original tree, with no node, key or height altered. On success the key set grows by exactly `x`. Correct heights are kept. On a search tree, order is kept and success holds exactly when `x` was absent. |
| Insertion.InsertKeepsBalance | AVL.cpp:113-177 | Inserting into a balanced tree with correct heights keeps it so, and the height grows by 0 or 1. |
| Insertion.InsertKeepsAvl | AVL.cpp:95-178 | Insertion keeps order, correct heights and balance together. |
| Insertion.InsertTwice | AVL.cpp:108-111 | On a search tree, inserting the same key a second time fails and leaves the tree unchanged. |
| Deletion.Rightmost | AVL.cpp:225-229 | The rightmost key of a non-empty subtree is one of its keys. In a search tree it is the largest key, which is the in-order predecessor that is copied up. |
| Deletion.RightmostKey | AVL.cpp:225-229 | The `while` loop that follows right children stops at the rightmost node and returns its key. |
| Deletion.Delete | AVL.cpp:192-309 | On failure the tree is returned unchanged. Success implies `x` was present. No key is added, and correct heights are kept. |
| Deletion.DeleteNode | AVL.cpp:192-309 | The recursive method, with the predecessor walk as a loop, yields exactly what `Delete` specifies. |
| Deletion.DeleteKeepsOrder | AVL.cpp:216-241 | On a search tree, deletion succeeds exactly when `x` is present, removes exactly `x` from the key set and keeps the order. |
| Deletion.PredecessorCopyKeepsOrder | AVL.cpp:223-233 | With two children, copying the left subtree's maximum into the node and deleting it from the left subtree keeps the order. It leaves every key but the deleted one. |
| Deletion.DeleteKeepsBalance | AVL.cpp:244-307 | Deleting from a balanced tree with correct heights keeps it so, and the height shrinks by 0 or 1. |
| Deletion.DeleteHereKeepsBalance | AVL.cpp:216-241 | When the node holds the key, the leaf, splice and predecessor-copy cases each keep balance and correct heights, and lower the height by at most one. |
| Deletion.ShrunkLeftRebalances | AVL.cpp:253-307 | Suppose a left subtree lost at most one level. Put back under a valid node and rebalanced, it gives a valid subtree that is at most one level lower. |
| Deletion.ShrunkRightRebalances | AVL.cpp:253-307 | The mirror of `ShrunkLeftRebalances` for the right subtree. |
| Deletion.DeleteKeepsAvl | AVL.cpp:192-309 | Deletion keeps order, correct heights and balance together. |
| AvlTree.AVL.constructor | AVL.cpp:6 | A fresh tree has an empty root slot (AVL.h:48) and satisfies the AVL invariants. |
| AvlTree.AVL.GetRootNode | AVL.cpp:180 | Returns the current root slot. As a function it cannot change the tree. It is `Empty` exactly when the tree holds no key. |
| AvlTree.AVL.Add | AVL.cpp:9 | Returns true iff `x` was not in the tree, and the key set becomes the old one plus `x`. On false the tree is unchanged. The AVL invariants hold afterwards (AVL.h:18-25). |
| AvlTree.AVL.Remove | AVL.cpp:321 | Returns true iff `x` was in the tree, and the key set becomes the old one minus `x`. On false the tree is unchanged. The AVL invariants hold afterwards (AVL.h:27-34). |
| AvlTree.AVL.Clear | AVL.cpp:311-315 | Repeatedly deletes the root's own key until the root is empty. Each round removes a present key, so the loop terminates by key count, and the tree ends empty and valid (AVL.h:36-39). |

## Left out

- Manual memory management is not modelled: `new`, `delete` and the destructors of `AVL` (which calls `clear`) and `Node`. A removed node simply leaves the tree value.
- In-place mutation through `Node*&` slots is not modelled, nor pointer aliasing. Each operation returns the new subtree, and the caller stores it into the slot. The nodes themselves are immutable values.
- Field privacy and the `friend class AVL` declaration have nothing to model: the datatype's fields can only change by building a new node, which only the rotations, insertion and deletion do.
- `NodeInterface.h` and `AVLInterface.h` are not part of this model. They are abstract base classes.
- C++ `int` overflow is not modelled. Keys are only compared, and heights are unbounded `nat`.
- The running time of the operations, the O(n log n) cost of `clear` and any logarithmic bound on the height are not modelled.
- The fixed insertion sequences that exercise the left-left and left-right cases on concrete keys are not stated as lemmas. The tie-break rules they exercise are the branches of `Rebalance`, whose properties are proved for all inputs.
- AvlTree.AVL.Add, AvlTree.AVL.Remove, AvlTree.AVL.Clear: these require the object invariant `Valid()` (order, correct heights, balance). The source has no precondition, but every tree built through the public operations satisfies the invariant, and the constructor establishes it.
