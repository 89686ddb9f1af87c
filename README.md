# AVL tree insertion

A model of `AVLTree`, a generic AVL tree (a self-balancing binary search
tree) whose only operation is insertion. The tree owns a root reference.
Each `AVLNode` holds a value, two child references and a cached height:
-1 for an absent subtree and 0 for a leaf. Insertion descends
recursively. Strictly smaller values go left. All others go right,
including values equal to the node's. On the way back up, every node on
the path is rebalanced by one of the four AVL rotation cases, and its
cached height is recomputed.

The project has three modules:

- `AvlSpec` (`avl_spec.dfy`) states the algorithm on values. `Tree` is an
  immutable tree that keeps each node's cached height. Each function
  follows one method of the source step by step, including the order in
  which heights are recomputed. Reference definitions sit beside the
  functions: the in-order sequence, the multiset of stored values, the
  true height, cached-height correctness, AVL balance and BST order.
- `AvlProperties` (`avl_properties.dfy`) proves what insertion guarantees,
  as lemmas about those functions.
- `AvlTree` (`avl_tree.dfy`) is the heap implementation. `AVLNode` and
  `AVLTree` are classes with the source's fields, and the methods relink
  and update the nodes as the source does. A ghost `Shape` value records
  which nodes make up a subtree. Every method's contract says that the
  new subtree models the `AvlSpec` function of the old one. So the lemmas
  of `AvlProperties` apply to the heap tree.

## Model

| member | source | states |
|---|---|---|
| AvlTree.AVLNode.constructor | AVL/src/AVLTree.java:145-148 | a new node holds the given value, has no children and has height 0 |
| AvlSpec.Leaf | AVL/src/AVLTree.java:145-148 | the node a value creates is an ordered AVL tree whose in-order sequence is just that value and whose true height is 0 |
| AvlTree.AVLTree.constructor | AVL/src/AVLTree.java:17-19 | a new tree is valid and empty |
| AvlTree.AVLTree.Insert | AVL/src/AVLTree.java:26-28 | the root is replaced by the recursive insertion's result; the tree stays an ordered AVL tree with correct cached heights, owns only its old and fresh nodes, and models `AvlSpec.Insert` of the old tree |
| AvlTree.AVLTree.InsertAt | AVL/src/AVLTree.java:37-49 | a null subtree becomes a fresh node; otherwise the node descends by comparison, then is rebalanced and its height updated; the result models `AvlSpec.Insert` of the old subtree and only fresh nodes are added |
| AvlTree.AVLTree.InsertLeft | AVL/src/AVLTree.java:41-42 | after the left descent, the node's left child models the insertion into the old left subtree; the value, right subtree and cached height are unchanged |
| AvlTree.AVLTree.InsertRight | AVL/src/AVLTree.java:43-44 | the mirror of the left descent, taken for values that are not smaller (equal ones included) |
| AvlTree.AVLTree.Restore | AVL/src/AVLTree.java:46-48 | the node returned models `AvlSpec.Rebalance` of the subtree followed by the height update, over the same set of nodes |
| AvlTree.AVLTree.Rebalance | AVL/src/AVLTree.java:57-77 | null stays null; otherwise the result models `AvlSpec.Rebalance` of the old subtree, over the same nodes |
| AvlTree.AVLTree.RotateLeftChild | AVL/src/AVLTree.java:65 | in the left-right case, the left child is replaced by its left rotation, and the rest of the node is unchanged |
| AvlTree.AVLTree.RotateRightChild | AVL/src/AVLTree.java:72 | in the right-left case, the right child is replaced by its right rotation, and the rest of the node is unchanged |
| AvlTree.AVLTree.RotateRight | AVL/src/AVLTree.java:85-92 | the left child becomes the root with the old root as its right child; the same nodes are kept; the result models `AvlSpec.RotateRight` |
| AvlTree.AVLTree.RotateLeft | AVL/src/AVLTree.java:100-107 | the mirror: the right child becomes the root; the result models `AvlSpec.RotateLeft` |
| AvlTree.AVLTree.UpdateHeight | AVL/src/AVLTree.java:114-116 | only the node's height changes, to one more than the larger of its children's heights |
| AvlProperties.LeftHeavyCase | AVL/src/AVLTree.java:61-67 | when the left side is higher by more than one, a left child exists; `>=` on the grandchildren's heights picks the single right rotation, and otherwise the left child has a right child and the double rotation applies |
| AvlProperties.RightHeavyCase | AVL/src/AVLTree.java:68-74 | the mirror for the right-heavy case, checked only when the node is not left-heavy |
| AvlSpec.Height | AVL/src/AVLTree.java:125-127 | an absent subtree has height -1; for a node the cached value is returned, which `AvlSpec.CachedHeight` ties to the true height |
| AvlTree.AVLTree.Height | AVL/src/AVLTree.java:125-127 | -1 for a null reference, the node's cached `height` field otherwise |
| AvlSpec.RealHeight | AVL/src/AVLTree.java:125-127 | the true height is -1 exactly for an absent subtree and at least 0 for a node |
| AvlSpec.CachedHeight | AVL/src/AVLTree.java:125-127 | with correct caches, the height read from a node equals its true height |
| AvlSpec.UpdateHeight | AVL/src/AVLTree.java:114-116 | recomputing a node's height from correctly cached children makes the whole node's caches correct |
| AvlSpec.RotateRight | AVL/src/AVLTree.java:85-92 | a right rotation over correctly cached subtrees leaves every cache correct |
| AvlSpec.RotateLeft | AVL/src/AVLTree.java:100-107 | a left rotation over correctly cached subtrees leaves every cache correct |
| AvlSpec.Rebalance | AVL/src/AVLTree.java:57-77 | the result is absent exactly when the input is, and its subtrees have correct caches |
| AvlSpec.Insert | AVL/src/AVLTree.java:37-49 | insertion always returns a node, with every cached height correct |
| AvlSpec.InsertAll | AVL/src/AVLTree.java:26-28 | successive public insertions keep every cached height correct |
| AvlProperties.AvlChildren | AVL/src/AVLTree.java:114-116 | the children of an AVL node are AVL trees whose heights differ by at most one, and the node caches one more than the larger |
| AvlProperties.AvlJoin | AVL/src/AVLTree.java:114-116 | two AVL trees whose heights differ by at most one, joined under a node that caches the right height, form an AVL tree |
| AvlProperties.UpdateHeightIdempotent | AVL/src/AVLTree.java:114-116 | updating the height of a correctly cached node changes nothing |
| AvlProperties.HeightFormula | AVL/src/AVLTree.java:125-127 | the cached height of a correctly cached node equals its true height, one more than its taller child's |
| AvlProperties.RotateRightInOrder | AVL/src/AVLTree.java:85-92 | a right rotation keeps the in-order sequence |
| AvlProperties.RotateLeftInOrder | AVL/src/AVLTree.java:100-107 | a left rotation keeps the in-order sequence |
| AvlProperties.RebalanceInOrder | AVL/src/AVLTree.java:57-77 | every rebalancing case keeps the in-order sequence, and so keeps BST order and the stored values |
| AvlProperties.RestoreElements | AVL/src/AVLTree.java:46-47 | rebalancing and updating the height keep the node's value and its subtrees' values, multiplicities included |
| AvlProperties.InsertElements | AVL/src/AVLTree.java:37-49 | insertion adds exactly one occurrence of the value and loses nothing (multiset preservation) |
| AvlProperties.RebalanceNoOp | AVL/src/AVLTree.java:57-60 | with a balance factor within one, or with no node, rebalancing returns its input unchanged |
| AvlProperties.RebalanceAvlNoOp | AVL/src/AVLTree.java:57-77 | an AVL tree is left unchanged by rebalancing and by the height update that follows it |
| AvlProperties.RebalanceLeftHeavy | AVL/src/AVLTree.java:61-67 | the exact shape the left-left case (single right rotation) and the left-right case (double rotation) produce |
| AvlProperties.RebalanceRightHeavy | AVL/src/AVLTree.java:68-74 | the exact shape the right-right case and the right-left case produce |
| AvlProperties.RestoreLeftLeft | AVL/src/AVLTree.java:62-63 | left-left case: with AVL children, a single right rotation and the height update give an AVL tree, one higher than the left child exactly when its two subtrees are equally high |
| AvlProperties.RestoreLeftRight | AVL/src/AVLTree.java:64-66 | left-right case: the double rotation and the height update give an AVL tree exactly as high as the left child |
| AvlProperties.RestoreLeftHeavy | AVL/src/AVLTree.java:61-67 | with AVL children and a left side higher by two, rebalancing plus the height update give an AVL tree, whose height is stated exactly |
| AvlProperties.RestoreRightRight | AVL/src/AVLTree.java:69-70 | right-right case: the mirror of the left-left case |
| AvlProperties.RestoreRightLeft | AVL/src/AVLTree.java:71-73 | right-left case: the mirror of the left-right case |
| AvlProperties.RestoreRightHeavy | AVL/src/AVLTree.java:68-74 | the mirror for a right side higher by two |
| AvlProperties.InsertKeepsAvl | AVL/src/AVLTree.java:37-49 | insertion into an AVL tree gives an AVL tree that is at most one higher; when it grew, its root is not perfectly balanced (unless it is a fresh leaf) |
| AvlProperties.InsertSortedElements | AVL/src/AVLTree.java:41-45 | the reference sorted insertion adds exactly one occurrence |
| AvlProperties.InsertSortedKeepsSorted | AVL/src/AVLTree.java:41-45 | the reference sorted insertion keeps a sequence sorted |
| AvlProperties.InsertSortedBefore | AVL/src/AVLTree.java:41-42 | inserting a value smaller than the head of the second part only touches the first part |
| AvlProperties.InsertSortedAfter | AVL/src/AVLTree.java:43-44 | inserting a value not smaller than everything in the first part only touches the second part |
| AvlProperties.SortedAround | AVL/src/AVLTree.java:41-45 | a node's in-order sequence is sorted exactly when both sides are sorted and the value lies between them |
| AvlProperties.OrderedNode | AVL/src/AVLTree.java:41-45 | BST order at a node, both directions: every value on the left is at most the node's, and every value on the right is at least it |
| AvlProperties.InsertStepInOrder | AVL/src/AVLTree.java:41-47 | one descent step changes the in-order sequence only on the side taken |
| AvlProperties.InsertLeftInOrder | AVL/src/AVLTree.java:41-42 | the left descent places the value at its sorted place |
| AvlProperties.InsertRightInOrder | AVL/src/AVLTree.java:43-44 | the right descent places the value at its sorted place, after the node's value and everything equal to it |
| AvlProperties.InsertInOrder | AVL/src/AVLTree.java:37-49 | in an ordered tree, insertion puts the value into the in-order sequence after every value not greater than it |
| AvlProperties.InsertKeepsOrdered | AVL/src/AVLTree.java:37-49 | insertion keeps BST order (a non-decreasing in-order sequence) |
| AvlProperties.EqualValuesBreakStrictOrder | AVL/src/AVLTree.java:41-44 | three insertions of the same value give a root with equal values on both sides, so only the non-strict order holds |
| AvlProperties.InsertAllKeepsAvl | AVL/src/AVLTree.java:26-28 | any sequence of insertions keeps an ordered AVL tree ordered and AVL |
| AvlProperties.InsertAllElements | AVL/src/AVLTree.java:26-28 | after a sequence of insertions the tree stores exactly the old values plus the inserted ones, duplicates included |
| AvlProperties.InsertAllSize | AVL/src/AVLTree.java:26-28 | n insertions into the empty tree leave exactly n values |
| AvlProperties.AvlHeightBound | AVL/src/AVLTree.java:4-6 | an AVL tree of height h holds at least Fib(h + 3) - 1 values, so h < 1.4405 log2(n + 2) - 0.3277 for n values |
| AvlProperties.SmallAvlHeight | AVL/src/AVLTree.java:4-6 | an AVL tree of at most 1000 values is at most 13 high |
| AvlProperties.ThousandInsertsHeight | AVL/src/AVLTree.java:26-28 | after 1000 public insertions into the empty tree the height is at most 13 |
| AvlProperties.InsertIntoLeaf | AVL/src/AVLTree.java:41-48 | inserting into a single node hangs the value on the side the comparison picks, with the root's height becoming 1 |
| AvlProperties.AscendingInserts | AVL/src/AVLTree.java:68-70 | three non-decreasing insertions trigger the right-right case: one left rotation yields a balanced tree with the middle value at the root |
| AvlProperties.DescendingInserts | AVL/src/AVLTree.java:61-63 | three decreasing insertions trigger the left-left case: one right rotation |
| AvlProperties.LeftRightInserts | AVL/src/AVLTree.java:64-67 | largest, smallest, middle: the left-right double rotation puts the middle value at the root |
| AvlProperties.RightLeftInserts | AVL/src/AVLTree.java:71-74 | smallest, largest, middle: the right-left double rotation puts the middle value at the root |

## Left out

- Stored values are integers. `Comparable<T>` and `compareTo` are replaced by `int` and `<`, and a `compareTo` that is not a total order is not modelled.
- Heights are unbounded integers. Java `int` overflow of a height cannot happen in a tree that fits in memory, because an AVL tree's height is logarithmic in its size (`AvlHeightBound`).
- The class comment promises logarithmic search, insertion and deletion. The class has no search or deletion, so neither is modelled. Running time is not modelled either; only the height bound is proved.
- The class comment and the usual reading of a binary search tree suggest strict order: everything left of a node is smaller. The code sends equal values right, and a later rotation can move an equal value to a node's left. The model follows the code and proves the non-strict order: the in-order traversal is non-decreasing. `EqualValuesBreakStrictOrder` shows that the strict order fails.
- AvlTree.AVLTree.Insert: its contract states the new tree as `AvlSpec.Insert` of the old one, and that the tree stays an ordered AVL tree. It does not restate the stored values and the in-order sequence. Those follow from `AvlProperties.InsertElements` and `AvlProperties.InsertInOrder` applied to the model.
- AvlSpec.Height: its contract states only the absent case (-1). That a node's cached value is returned, and that this is the true height under correct caches, is stated by `AvlSpec.CachedHeight`. A clause for the node case made the heap proofs markedly more expensive.
- The node fields are `private` in the source; Dafny has no access control on fields, so that is not modelled.
