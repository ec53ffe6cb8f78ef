# AVL tree of Web-AVL, modelled in Dafny

The repository draws an AVL tree on a web page. Its core is the `AVLTree` class
in `script.js`. The class keeps a binary search tree of integer keys and rebalances
it after every insertion with rotations. Each node caches its height. A missing
node has height 0 and a fresh node has height 1. The cached height is refreshed
only by `updateHeight` and is never recomputed by walking the subtree.

The model is functional. A node is the immutable value
`Tree = Nil | Node(left, value, right, height)`, and each method of the class is a
pure function that returns the new subtree or tree. In the source every node has
exactly one owner (its parent or the root field), so rebuilding a node is the same
as relinking it in place.

Modules, one per part of the class:

- `AvlNode` (`avl_node.dfy`): the node, `getHeight`, `updateHeight`,
  `getBalanceFactor`, and the three invariants. `Bst` is search order. `HeightsOk`
  says every cached height is fresh. `Balanced` says every factor is in [-1, 1].
  Their conjunction is `Avl`. The module also holds the walked height
  `TrueHeight`, the key set, the in-order sequence and the node count.
- `Rotations` (`rotations.dfy`): `rotateRight` and `rotateLeft`.
- `Rebalance` (`rebalance.dfy`): `balance`, with its four cases in source order.
- `Insertion` (`insertion.dfy`): the recursive `insert`, and insertion of a
  sequence of keys.
- `AvlTree` (`avl_tree.dfy`): the tree object, as the value `TreeState(root)`, with
  `add` and `clear` modelled as written, and the corrected `add`.

The tree is meant to keep all three invariants after every public operation.
The code's `add` does not: for a key below the current root it bypasses `insert`.
The model follows the code and proves what `add` actually does, and the
guarantees are proved for `insert`, `balance` and the rotations (see Findings).

## Model

| member | source | states |
|---|---|---|
| AvlNode.Leaf | script.js:1-10 | A new node has no children, holds the given key and has cached height 1. That height is fresh and equals its walked height. |
| AvlNode.UpdateHeight | script.js:27-29 | Keeps the children and the key. The new height is at least 1. If both children have fresh heights, the node's height is fresh too. On a node whose height is already fresh, nothing changes. |
| AvlNode.GetHeight | script.js:23-25 | The height the source reads: 0 for an absent node, else the node's cached field. It carries no contract of its own. `CachedHeightIsTrue` ties it to the walked height `TrueHeight`. |
| AvlNode.BalanceFactor | script.js:31-34 | 0 for an absent node, else the left child's `getHeight` minus the right child's. It carries no contract of its own. `AvlFactorIsTrueFactor` ties it to the difference of the children's `TrueHeight` and bounds it to [-1, 1] on a valid tree. |
| AvlNode.CachedHeightIsTrue | script.js:23-25 | When all heights are fresh, `getHeight` (0 for an absent node, else the cached field) equals the height found by walking the subtree. |
| AvlNode.AvlFactorIsTrueFactor | script.js:31-34 | On a valid AVL tree, `getBalanceFactor` equals the difference of the children's walked heights, and that difference lies in [-1, 1]. |
| AvlNode.BstIffAscending | script.js:59-62 | Search order holds exactly when the in-order traversal is strictly ascending (both directions). |
| Rotations.RotateRight | script.js:36-44 | The left child becomes the root with its left subtree kept. The old root becomes its right child and takes over the middle subtree. In-order sequence, key set and node count are unchanged. Search order holds after iff before. If the three moved subtrees have fresh heights, so does the result, because the lowered node is refreshed before the new root. |
| Rotations.RotateLeft | script.js:46-54 | Mirror of `RotateRight`. The right child rises, and the same preservation and freshness guarantees hold. |
| Rebalance.Balance | script.js:71-90 | In-order sequence, key set and node count are preserved. A node with factor in [-1, 1] is returned unchanged. Otherwise the first matching case fixes the new root. Left-left (left factor >= 0): the left child, keeping its left subtree. Left-right: the left child's right child. Right-right (right factor <= 0): the right child, keeping its right subtree. Right-left: the right child's left child. |
| Rebalance.BalanceRestoresAvl | script.js:71-89 | Suppose both children are valid AVL trees, the node is in search order, its height is fresh and its factor is within ±2. Then the result is a valid AVL tree whose height is the node's height or one less. |
| Rebalance.LeftLeft | script.js:74-76 | In the left-left case, the single right rotation gives fresh heights, every factor in [-1, 1], and height h or h-1. |
| Rebalance.LeftRight | script.js:77-80 | In the left-right case, the double rotation gives fresh heights, every factor in [-1, 1], and height h or h-1. |
| Rebalance.RightRight | script.js:81-83 | In the right-right case, the single left rotation gives fresh heights, every factor in [-1, 1], and height h or h-1. |
| Rebalance.RightLeft | script.js:84-87 | In the right-left case, the double rotation gives fresh heights, every factor in [-1, 1], and height h or h-1. |
| Rebalance.EvenLeftChildNeedsSingleRotation | script.js:74-80 | Take a node with factor 2 whose left child has factor 0 and leans right below it. `balance` yields a valid AVL tree, but the double rotation would leave a node with factor 2. So the `>= 0` tie-break is needed. |
| Insertion.Insert | script.js:56-69 | The result is a node. Its key set is the old key set plus the value, for any input tree. Inserting into an empty tree gives a single leaf of height 1. |
| Insertion.InsertKeepsAvl | script.js:56-69 | On a valid AVL tree, insertion returns a valid AVL tree whose height is the old height or one more. |
| Insertion.InsertLeftStep | script.js:59-68 | One step back up after descending left: if the new left subtree is valid and at most one level taller, then refreshing the height and rebalancing keeps the node valid, at most one level taller and never shorter. |
| Insertion.InsertRightStep | script.js:61-68 | The same step after descending right. |
| Insertion.InsertPresentIsIdentity | script.js:63-64 | On a valid AVL tree, inserting a key already present returns the very same tree: same shape, same keys, same heights. |
| Insertion.InsertAbsentAddsOneNode | script.js:56-62 | Inserting a key not present raises the node count by exactly 1. |
| Insertion.InsertSize | script.js:56-69 | On a valid AVL tree the node count rises by 1 for a new key and by 0 for a duplicate. |
| Insertion.InsertAll | script.js:56-69 | Inserting a sequence of keys one after another adds exactly the keys of the sequence. |
| Insertion.InsertAllKeepsAvl | script.js:56-69 | Any sequence of insertions into a valid AVL tree, such as the empty one, leaves a valid AVL tree. |
| Insertion.AscendingInsertsRotateLeft | script.js:81-83 | Inserting any three ascending keys (10, 20, 30) gives the middle key over two leaves with heights 1, 2, 1. |
| Insertion.ZigZagInsertsRotateTwice | script.js:77-80 | Inserting largest, smallest, then middle (30, 10, 20) goes through the double rotation and reaches the same shape. |
| AvlTree.Empty | script.js:13-16 | A new tree has no keys and no nodes, and is a valid AVL tree. |
| AvlTree.Clear | script.js:18-19 | After `clear` the in-order traversal is empty and the tree is a valid, empty AVL tree. Any later `add` produces the single leaf a fresh tree would. |
| AvlTree.Add | script.js:92-103 | Either branch yields a non-empty tree whose key set is the old key set plus the value. |
| AvlTree.AddAll | script.js:92-103 | Adding a sequence of keys adds exactly the keys of the sequence. |
| AvlTree.AddAgreesWithInsert | script.js:92-101 | On an empty tree, or for a key not below the root, `add` equals `insert` at the root. On an empty tree that is a single leaf. |
| AvlTree.AddNotBelowRootKeepsAvl | script.js:92-101 | In those cases `add` keeps a valid AVL tree valid. |
| AvlTree.AddBelowRootBreaksOrder | script.js:93-99 | A key below the root of a non-empty tree becomes a new root of height 1 with the old tree as its left child. This always breaks search order. It adds a node even when the key is already present deeper in the tree. |
| AvlTree.AddBelowRootBreaksHeights | script.js:93-99 | With fresh heights beforehand, the new root's height 1 is stale. If the old tree is at least two levels tall, the new root is also out of balance. |
| AvlTree.AddSmallerAfterLarger | script.js:93-99 | Adding a key and then a smaller one (10, then 5) gives the smaller key at the root with the larger as its left child, which is not a search tree. |
| AvlTree.AddZigZagDiffersFromInsert | script.js:92-103 | Adding largest, smallest, then middle (30, 10, 20) gives root smallest, left largest, right middle, which is not a search tree. Inserting the same keys gives the middle key over the other two. |
| AvlTree.AddCorrected | script.js:92-103 | The corrected `add` (always insert at the root) yields a non-empty tree whose key set is the old key set plus the value. |
| AvlTree.AddCorrectedKeepsAvl | script.js:92-103 | The corrected `add` keeps a valid AVL tree valid. It raises the height by 0 or 1, and the node count by 1 for a new key and 0 for a duplicate. |
| AvlTree.ClearThenInsertAll | script.js:18-19 | After `clear`, inserting any sequence of keys gives a valid AVL tree holding exactly those keys. |

## Left out

- Node coordinates `x` and `y`, `nodeDistance`, the `x`/`y`/`level` parameters of `insert`, and `updatePositions` (script.js:2, 7-8, 15, 60-62, 107-118). These are floating-point display layout that depends on the window width, and they never influence the tree's structure.
- `updateView` and `drawNode` (script.js:120-157), and the `updateView` calls at the end of `clear` and `add`. These are canvas rendering that only reads the tree.
- `addValue`, `clearTree` and `window.onload` (script.js:162-180). These are DOM input parsing with `parseInt`, `alert`, and UI wiring.
- Keys are modelled as unbounded `int`. The source compares JavaScript numbers produced by `parseInt`, and those numbers are totally ordered by `<` and `>`. The precision loss above 2^53 and the `Infinity` result for very long digit strings happen in the parsing layer, so they are not modelled.
- Rotations require the child they lift to exist, and `UpdateHeight` requires the node it refreshes to exist. On a missing node the source would throw a `TypeError`. No call site reaches them without one: `insert` refreshes only a node it has just matched, and the model proves that `balance` never rotates without the child.
- In-place mutation of nodes becomes the construction of new node values. With single ownership, the two are equivalent.
- Deletion does not exist in the source.

## Findings

| source | as written | input that shows it | evidently intended | confidence | as-written member | corrected member |
|---|---|---|---|---|---|---|
| script.js:93-99 | For a key below the current root, `add` makes a new root holding the key and hangs the whole old tree as its left child. It leaves the new root's height at 1 and never rebalances. | `add 10; add 5` gives root 5 with left child 10. `add 30; add 10; add 20` gives root 10 with left 30 and right 20. | Every key goes through the balancing `insert` at the root (line 101), which keeps search order, fresh heights and balance. | high; not executed | AvlTree.AddBelowRootBreaksOrder | AvlTree.AddCorrectedKeepsAvl |
