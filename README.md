# AVL tree and equal-paths, modelled in Dafny

This project models two parts of a small C++ data-structures repository.

**The AVL tree of `avlbst.h`.** `AVLTree<Key, Value>` is a binary search tree of `AVLNode`s. Each node has a key, a value, left, right and parent pointers, and a balance field. The balance field holds the height of the right subtree minus the height of the left subtree.
- `insert` descends by key. An existing key only gets its value overwritten. Otherwise a new node with balance 0 is attached where the search ends. Then a loop walks up from the new node's parent, calling `rebalanceNode` on each node, until that node's balance field is 0 or the root has been passed.
- `remove` first looks the key up. A node with two children trades places with its in-order predecessor, and the two exchange balance fields. The node, which now has at most one child, is unlinked and deleted. A loop then walks up from its parent, calling `rebalanceNode`. It stops when the subtree root it gets back has balance -1 or 1, or when the root has been passed.
- `rebalanceNode` recomputes the node's balance from true heights (`getHeight`, `findBalance`). Above 1 it rotates left; when the right child's balance field is negative, it first rotates that child right. Below -1 it does the mirror image. It answers the root of the subtree that now stands in the node's place.
- Each rotation relinks three nodes, then recomputes the balance fields of the old and the new subtree root.

**The `equalPaths` check of `equal-paths.cpp`.** It decides whether every root-to-leaf path of a binary tree has the same length. It uses a `depth` function that counts edges and gives 0 for both an empty tree and a leaf.

## How the model is built

- **Pointers and records.** The heap of `AVLNode`s is a map from handles to records (`AvlArena.Rec`: key, value, left, right, parent, balance). A pointer is `Null` or `At(handle)`.
- **The tree object.** `AvlBst.AVLTree` is a class with fields `root` (the source's `root_`), `nodes` (the records) and `nextId` (the handle the next `new` uses).
- **The shape.** The class also has a ghost field `shape`: the tree the records form, as an `AvlShape.Tree` datatype that keeps each node's handle, key, value and stored balance.
- **`Valid()`.** States that the records encode `shape` exactly: child and parent pointers agree, no handle repeats, and no other records exist.
- **Method contracts.** Every method changes the records in place, like the source. Its contract says which pure function of the old shape the new shape is: `AvlRotate.RotateLeft`, `AvlRotate.Rebalance`, `AvlFixup.SwapWithPred`, `AvlFixup.OnlyChild`, and so on.
- **Pure lemmas.** What the source promises is proved about those functions: the search-tree order, the key→value contents, the node handles, and AVL correctness. AVL correctness means every balance field equals the true height difference and lies in [-1, 1].
- **Walk-up loops.** The two loops are proved with a "frontier" invariant. Either the tree is already AVL-correct, or it differs from an AVL-correct tree `t0` only below one position. At that position one subtree is one level taller (insert) or one level shorter (remove), and the balance fields above are still those of `t0`.
- **Pure code.** `getHeight` and `findBalance` are pure recursion, so they are functions. So is all of `equal-paths.cpp`.

## Model

| member | source | states |
|---|---|---|
| AvlShape.Height | avlbst.h:268-282 | The height is -1 for an empty tree. For a node it is one more than the taller child: above both children's heights, and equal to one of them plus one. |
| AvlShape.DeepestPath | avlbst.h:268-282 | Every non-empty tree has a node whose depth in edges equals `Height`, so the height is reached by a real path. |
| AvlShape.DepthBelowHeight | avlbst.h:268-282 | No node lies deeper than `Height`; together with `DeepestPath`, the height is the longest root-to-node path. |
| AvlBst.AVLTree.GetHeight | avlbst.h:268-282 | Following the records' child pointers from any node gives exactly the height of the subtree stored there. A null pointer gives -1. |
| AvlShape.FindBalance | avlbst.h:284-291 | The balance is 0 for an empty tree. A positive balance means a right child exists and the right subtree decides the height. A negative balance is the mirror. A zero balance at a node means both children are one level lower. |
| AvlBst.AVLTree.FindBalance | avlbst.h:284-291 | Computed over the records, the result is the right height minus the left height of the subtree at that pointer, or 0 for null. |
| AvlShape.WithTrueBalance | avlbst.h:293-298 | Only the balance field changes. It becomes the true height difference; height, links, key and value are kept. |
| AvlBst.AVLTree.UpdateBalance | avlbst.h:293-298 | The node's record gets its true balance and nothing else in the tree changes. A null pointer changes nothing. The records still encode the tree. |
| AvlBst.AVLTree.constructor | avlbst.h:133-134 | A new tree has a null root and no nodes, and is a valid AVL search tree. |
| AvlRotate.RotateLeft | avlbst.h:300-325 | The right child becomes the subtree root and the old root its left child. The inner grandchild moves to the old root's right. The outer subtrees stay in place. Both moved nodes get their true balances. |
| AvlRotate.LinkLeft | avlbst.h:302-321 | The relinking of rotateLeft alone. Recomputing the lower node's balance and then the upper node's gives exactly `RotateLeft`. |
| AvlBst.AVLTree.RotateLeft | avlbst.h:300-325 | Rotating the node at a position in the records replaces the subtree there by `RotateLeft` of it. The parent (or root) is relinked, and every other node is untouched. |
| AvlBst.AVLTree.LinkLeftAt | avlbst.h:302-321 | The pointer assignments of rotateLeft replace the subtree by `LinkLeft` of it. The new subtree root handed back is the old right child. |
| AvlRotate.RotateLeftKeeps | avlbst.h:300-325 | A left rotation keeps the in-order key sequence, the key set, the key→value contents and the node handles. It is a search tree exactly when the original was. |
| AvlRotate.RotateRight | avlbst.h:327-352 | The mirror image of `RotateLeft`: the left child becomes the root, the inner grandchild moves across, and both moved nodes get their true balances. |
| AvlRotate.LinkRight | avlbst.h:329-348 | The relinking of rotateRight alone. Recomputing both balances afterwards gives exactly `RotateRight`. |
| AvlBst.AVLTree.RotateRight | avlbst.h:327-352 | Rotating right in the records replaces the subtree at that position by `RotateRight` of it, and changes nothing else. |
| AvlBst.AVLTree.LinkRightAt | avlbst.h:329-348 | The pointer assignments of rotateRight replace the subtree by `LinkRight` of it and hand back the old left child. |
| AvlRotate.RotateRightKeeps | avlbst.h:327-352 | A right rotation keeps the in-order keys, the contents and the handles. It preserves and reflects search-tree order. |
| AvlRotate.SingleLeft | avlbst.h:359-366 | At a node with balance 2 whose right child does not lean left, one left rotation gives an AVL-correct subtree. The new root has balance -1 and the height is kept when that child was balanced. Otherwise the new root has balance 0 and the height drops by one. |
| AvlRotate.DoubleRightLeft | avlbst.h:359-366 | At a node with balance 2 whose right child leans left, rotating the child right and then the node left gives an AVL-correct subtree. It is one level lower and has balance 0. |
| AvlRotate.SingleRight | avlbst.h:368-375 | The mirror of `SingleLeft` for balance -2 and a left child that does not lean right. |
| AvlRotate.DoubleLeftRight | avlbst.h:368-375 | The mirror of `DoubleRightLeft` for balance -2 and a left child that leans right. |
| AvlRotate.DoubleRightLeftMiddle | avlbst.h:360-362 | In the double rotation's first step, the child rotated right stores 1 or 2 at its new root and 0 or 1 at itself, so no stored balance leaves [-2, 2]. |
| AvlRotate.DoubleLeftRightMiddle | avlbst.h:369-371 | The mirror: the first step stores -1 or -2 and 0 or -1. |
| AvlRotate.RightHeavy | avlbst.h:359-366 | rebalanceNode's branch for balance 2 gives an AVL-correct subtree whose left child is the old node. The new height and root balance follow the right child's balance field. |
| AvlRotate.LeftHeavy | avlbst.h:368-375 | rebalanceNode's branch for balance -2 is the mirror image. |
| AvlBst.AVLTree.RotateRightHeavy | avlbst.h:359-366 | Working on the records, the branch for balance above 1 replaces the subtree by `FixRightHeavy` of it. It answers the pointer to the new subtree root, which is the old node's new parent. |
| AvlBst.AVLTree.RotateLeftHeavy | avlbst.h:368-375 | The branch for balance below -1 replaces the subtree by `FixLeftHeavy` of it and answers the new subtree root. |
| AvlRotate.RebalanceRestores | avlbst.h:354-377 | For a node whose subtrees are AVL-correct and whose true balance is in [-2, 2], the result is AVL-correct. With balance in [-1, 1] it is the node with its balance recomputed and nothing else. At ±2 the old node sits under the new root, and the height and new root balance are as the single and double rotation cases give. |
| AvlRotate.RebalanceCorrectNode | avlbst.h:354-377 | rebalanceNode leaves an AVL-correct subtree exactly as it was. |
| AvlRotate.RebalanceKeeps | avlbst.h:354-377 | rebalanceNode keeps the in-order keys, key set, contents and handles. It preserves search-tree order and distinct handles. |
| AvlFixup.RebalanceAtKeeps | avlbst.h:354-377 | Rebalancing any node inside a tree keeps the whole tree's contents, keys, handles and search order. |
| AvlBst.AVLTree.RebalanceNode | avlbst.h:354-377 | Working on the records, rebalanceNode replaces the subtree at the node's position by `Rebalance` of it. It answers the pointer to the subtree root now standing there. |
| AvlOrder.OverwriteValue | avlbst.h:174-185 | Setting the value of the node the search for its key reaches keeps the search order. The contents become the old contents with that key mapped to the new value. |
| AvlShape.ValueOnly | avlbst.h:182 | Overwriting a value leaves the shape, handles, keys and balances as they were, so an AVL-correct tree stays AVL-correct. |
| AvlBst.AVLTree.SetValue | avlbst.h:182 | Only the value of that one node changes, in the records and in the shape. |
| AvlOrder.AttachLeaf | avlbst.h:187-194 | Hanging a leaf in the empty slot where the search for its key ends is possible only for an absent key. It keeps the search order, adds exactly that key to the key set, and adds the key→value pair to the contents. |
| AvlBst.AVLTree.AttachNew | avlbst.h:187-194 | A new record with balance 0, as the AVLNode constructor at avlbst.h:54-59 builds it, null children and the given parent is created under a fresh handle. It is linked as the parent's left child when the key is smaller, and as the right child otherwise. The node handles grow by that one handle. |
| AvlFixup.InsertStart | avlbst.h:187-196 | Right after the leaf is attached, the tree is at the insertion frontier, one level above the leaf. |
| AvlFixup.InsertStep | avlbst.h:196-203 | One rebalanceNode at the insertion frontier either makes the whole tree AVL-correct or moves the frontier up one level. The balance field it leaves is 0 only when the tree is settled. |
| AvlFixup.InsertClimb | avlbst.h:196-203 | One pass of insert's loop: the node keeps its handle. When its balance field reads 0 afterwards, the tree is AVL-correct. Otherwise it is either correct or at the frontier above the node's current position. |
| AvlBst.AVLTree.InsertWalk | avlbst.h:196-203 | The walk-up loop of insert ends with a valid AVL search tree. It keeps the same contents and the same nodes. |
| AvlBst.AVLTree.Insert | avlbst.h:158-204 | insert keeps the tree a valid AVL search tree, and the contents become the old contents with the key mapped to the value. A duplicate key changes no shape and allocates nothing. A new key adds exactly one new node. Into an empty tree, the new node is the root leaf with balance 0, as the AVLNode constructor at avlbst.h:54-59 sets it. |
| AvlBst.AVLTree.InternalFind | avlbst.h:214-218 | The lookup answers null exactly when the key is absent. Otherwise it answers the node holding the key, reached along the key's search path. |
| AvlOrder.RemoveAt | avlbst.h:220-245 | Removing the node the search for its key reaches keeps the search order. The contents lose exactly that key. |
| AvlOrder.PredecessorFits | avlbst.h:220-224 | For a node with two children, putting its predecessor in its place keeps the search order and removes exactly its key. |
| AvlBst.AVLTree.Predecessor | avlbst.h:222 | For a node with a left child, the answer is the rightmost node of the left subtree. |
| AvlFixup.SwapWithPredShape | avlbst.h:259-266 | After the node and its predecessor trade places and balance fields, heights are unchanged, and an AVL-correct tree stays AVL-correct. |
| AvlFixup.SwapWithPredIds | avlbst.h:259-266 | The trade keeps the set of node handles and their distinctness. |
| AvlFixup.SwapThenUnlink | avlbst.h:220-245 | After the trade, the node sits where the predecessor was, with no right child. Unlinking it there gives the same tree as removing the node's key with the predecessor taking its place. |
| AvlBst.AVLTree.NodeSwap | avlbst.h:259-266 | Swapping a node that has two children with its predecessor in the records gives exactly `SwapWithPred` of the subtree. Positions, links and balance fields are exchanged, and the records still encode the tree. |
| AvlFixup.UnlinkIds | avlbst.h:227-245 | Unlinking a node with at most one child removes exactly its handle. Handles stay distinct. |
| AvlBst.AVLTree.Unlink | avlbst.h:227-245 | The child (if any) is reattached to the parent, or becomes the root, and the record is deleted. The shape loses exactly that node, and the handed-back pointer is its former parent. |
| AvlFixup.UnlinkPlace | avlbst.h:220-245 | Swapping when there are two children and then unlinking gives the tree with the key removed. The intermediate tree is AVL-correct with the same handles. |
| AvlFixup.RemoveStart | avlbst.h:227-247 | After the unlink, the tree is AVL-correct if the removed node was the root. Otherwise it is at the removal frontier at the removed node's parent. |
| AvlFixup.RemoveStep | avlbst.h:247-256 | One rebalanceNode at the removal frontier makes the tree AVL-correct when the new subtree root has balance ±1 or is the root. Otherwise it moves the frontier up one level. |
| AvlFixup.RemoveClimb | avlbst.h:247-256 | One pass of remove's loop: the tree is settled whenever the answered subtree root has balance -1 or 1. |
| AvlBst.AVLTree.RemoveWalk | avlbst.h:247-256 | The walk-up loop of remove ends with a valid AVL search tree. It keeps the same contents and nodes. |
| AvlBst.AVLTree.Remove | avlbst.h:210-257 | remove keeps the tree a valid AVL search tree, and the contents lose exactly the key. An absent key changes nothing at all. For a present key, the node freed is the one that held the key, not the predecessor that took its place. |
| AvlFixup.InsertThenRemoveReshapes | avlbst.h:158-257 | Inserting a key and then removing it need not restore the old shape. Into root 2 with right child 3, insert 4: node 2 reaches balance 2 and rotates, so 3 becomes the root. Removing 4 leaves root 3 with left child 2. The entries are the same but the shape is not. |
| EqualPaths.Depth | equal-paths.cpp:13-39 | depth is 0 for an empty tree and for a leaf, and at least 1 for a node with a child. |
| EqualPaths.DepthIsLongestPath | equal-paths.cpp:13-39 | For a non-empty tree, depth is the length of some root-to-leaf path and of the longest one. |
| EqualPaths.EqualPaths | equal-paths.cpp:41-69 | Empty trees and leaves pass. A node with one child passes exactly when that child's subtree does. |
| EqualPaths.EqualPathsCorrect | equal-paths.cpp:41-69 | equalPaths answers true exactly when all root-to-leaf paths have the same length, in both directions. |
| EqualPaths.UnequalDepthsFail | equal-paths.cpp:52-58 | When both children exist and their depths differ, the answer is false, and indeed not all paths have the same length. |

## Left out

- bst.h is not part of this model. Its `internalFind` and `predecessor` are modelled as `AvlBst.AVLTree.InternalFind` and `AvlBst.AVLTree.Predecessor`, and its `nodeSwap` as the link part of `AvlBst.AVLTree.NodeSwap`. `AVLTree` has no constructor of its own and inherits the binary search tree's. `AvlBst.AVLTree.constructor` models it as an empty tree with a null root. All of these are written from the contract the AVL code relies on, not from bst.h's text.
- AvlBst.AVLTree.NodeSwap: only the call `remove` makes is modelled, a node with two children and its in-order predecessor. A general swap of two arbitrary nodes is not.
- Keys are `int`, compared with `<`. The source's template over any key type with `operator<` is not modelled.
- `delete target` is modelled as removing the record from the map of records. Freeing memory and dangling pointers are not modelled.
- Balance fields are unbounded integers. The `int8_t` width is never reached, because every value the tree code stores is a true height difference in [-2, 2]. That includes the middle step of a double rotation, which can store 2 or -2 (`AvlRotate.DoubleRightLeftMiddle`, `AvlRotate.DoubleLeftRightMiddle`).
- `AVLNode::updateBalance(diff)` (avlbst.h:91-95) is never called by the tree code, so it is not modelled. `getBalance` and `setBalance` (avlbst.h:73-86) are plain reads and writes of the record's balance field.
- Virtual accessors and `static_cast` between node types are not modelled. Every node is an AVL node here.
- Splitting into helper methods: `LinkLeftAt`/`LinkRightAt`, `RotateRightHeavy`/`RotateLeftHeavy`, `InsertWalk`, `RemoveWalk`, `SetValue`, `AttachNew` and `Unlink` are phases of the source functions, in the source's order. They are not separate functions in the source.
- The running time of the operations is not modelled, nor the `KeyError` exceptions of other lookup operations. Neither matters to insert or remove.
- "Inserting a key and then removing it restores the exact prior shape and balances" is not claimed, because it is false for this code. `AvlFixup.InsertThenRemoveReshapes` gives a three-key counterexample. Only the entries come back.
- equal-paths.h is not part of this model. Its `Node` is modelled with a key and the two child pointers, the only fields equal-paths.cpp reads.
