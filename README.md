# Binary search tree engines of the tree visualiser, in Dafny

The visualiser drives three in-place tree engines written in TypeScript, and one small
reducer that keeps its history:

- `BST` (`src/app/lib/bst.ts`) is an unbalanced ordered set of distinct numbers.
  - Insertion links a new leaf at the end of the comparison path.
  - Deletion splices out a node with at most one child. Otherwise it copies in the minimum of the right subtree and deletes that key there.
  - A user-driven rotation finds the parent of the rotated node again with `_findParent`.
  - There are four traversals.
- `AVLTree` (`src/app/lib/avl.ts`) is a height-balanced search tree.
  - Every node stores its height.
  - Insertion and deletion rebuild the path recursively and rebalance on the way back up with the four rotation cases.
- `RedBlackTree` (`src/app/lib/rbt.ts`) is a red-black tree whose nodes carry `parent` back-links.
  - Insertion is followed by the recolour-and-rotate fix-up.
  - Deletion is built on `_transplant` and is followed by the double-black fix-up loop.
  - Rotations rewire the parent links.
  - `toJSON`/`fromJSON` snapshot the tree, and `flipNodeColor` changes one node's colour without any check.
- `bstReducer` (`src/app/components/BSTVisualizer.tsx`) holds the current tree, a list of saved iterations and the index of the iteration in use.

The model has six modules.

- `Trees` (`trees.dfy`) defines binary trees as values, `Tree<A> = Nil | Node(left, value, info, right)`.
  - It provides paths into a tree (`Sub`, `ReplaceAt`), the comparison path `SearchPath`, and the traversals.
  - It defines leaf insertion, successor-copying deletion and the two rotations as functions.
  - It proves what they do to the keys, to the ordering and to the sorted key sequence.
- `RedBlack` (`redblack.dfy`) is the red-black engine on values, with `info` the colour. Each loop of the source is a function that makes one pass per recursive call:
  - `FixIns` models `_fixInsertion`;
  - `FixDel` models `_fixDeletion`;
  - `Unlink` models the unlinking part of `_deleteNode`.
  - The result is `None` when the source loop would spin forever.
- `Bst`, `Avl` and `Rbt` (`bst.dfy`, `avl.dfy`, `rbt.dfy`) are the heap engines: classes over linked node objects that are updated in place.
  - A ghost `shape`, a tree whose payloads are the node objects, says how the nodes hang together.
  - `Valid()` ties the fields of the heap to it.
  - `Model()` reads the tree value off it: keys only for `Bst` and `Avl`, keys and colours for `Rbt`.
  - Every method is proved to change `Model()` exactly as the value-level function says.
  - Every fact about keys, ordering, heights and colours is proved once, on the values.
- `Reducer` (`reducer.dfy`) is the reducer as a function from a state and an action to a state.
  - Every tree it handles is a deep copy, so a tree is a value there.

## Model

| member | source | states |
|---|---|---|
| Trees.PreorderVisitsEachNodeOnce | src/app/lib/bst.ts:144-156 | the preorder sequence lists every key of the tree once: as a multiset it is the tree's occurrences, and its length is the number of nodes |
| Trees.InorderVisitsEachNodeOnce | src/app/lib/bst.ts:158-170 | the same for the inorder sequence |
| Trees.PostorderVisitsEachNodeOnce | src/app/lib/bst.ts:172-184 | the same for the postorder sequence |
| Trees.LevelOrder | src/app/lib/bst.ts:186-201 | the breadth-first sequence of an empty tree is empty; otherwise it starts with the root's key |
| Trees.LevelOrderVisitsEachNodeOnce | src/app/lib/bst.ts:186-201 | the breadth-first walk over the queue lists every key once |
| Trees.OrderedIffInorderIncreasing | src/app/lib/bst.ts:158-170 | a tree is a search tree (left < node < right everywhere) exactly when its inorder sequence is strictly increasing |
| Trees.OrderedNoDuplicates | src/app/lib/bst.ts:31-32 | a search tree holds as many distinct keys as it has nodes |
| Trees.SearchPathFinds | src/app/lib/bst.ts:88-92 | in a search tree, the comparison path for `v` ends at a node exactly when `v` is held, and that node holds `v` |
| Trees.Min | src/app/lib/bst.ts:70-75 | the minimum is a key of the tree, and in a search tree no key is smaller |
| Trees.LeftSpineFindsMin | src/app/lib/bst.ts:70-75 | following left children from a node ends at a node without a left child that holds the minimum |
| Trees.Insert | src/app/lib/bst.ts:30-46 | leaf insertion adds exactly the key, keeps a search tree a search tree, and leaves a search tree that already holds the key unchanged |
| Trees.InsertFound | src/app/lib/bst.ts:31-32 | when the comparison path meets the key, insertion changes nothing |
| Trees.InsertAddsLeafAtSearchPath | src/app/lib/bst.ts:33-45 | an absent key becomes a new leaf at the empty slot where its comparison path ends, and nothing else changes |
| Trees.InsertInorder | src/app/lib/bst.ts:20-46 | on a search tree, insertion puts the key in its sorted place in the inorder sequence |
| Trees.Delete | src/app/lib/bst.ts:52-68 | deletion never adds keys; on a search tree it removes exactly the key and keeps the ordering; deleting an absent key changes nothing |
| Trees.DeleteInorder | src/app/lib/bst.ts:52-68 | on a search tree, deletion removes the key's one occurrence from the inorder sequence |
| Trees.RotateRight | src/app/lib/bst.ts:113-117 | a right rotation keeps the inorder sequence, the keys and the ordering, and promotes the left child above the old root |
| Trees.RotateLeft | src/app/lib/bst.ts:94-98 | a left rotation keeps the inorder sequence, the keys and the ordering, and promotes the right child above the old root |
| Trees.RotateAtPreservesInorder | src/app/lib/bst.ts:94-130 | rotating the subtree at any path keeps the whole tree's inorder sequence, keys and ordering |
| Trees.EraseKeepsOrderAndTraversals | src/app/lib/bst.ts:144-184 | dropping the payloads of a tree keeps its ordering and its three depth-first traversals |
| Bst.Node.constructor | src/app/lib/bst.ts:6-10 | a new node holds the key and has no children |
| Bst.BST.constructor | src/app/lib/bst.ts:16-18 | the tree object over a linked root is valid and holds that shape |
| Bst.FindNode | src/app/lib/bst.ts:88-92 | `_findNode` returns the node at the end of the comparison path; in a search tree, null exactly when the key is absent, and otherwise the node holding it |
| Bst.FindParent | src/app/lib/bst.ts:132-141 | `_findParent` returns the node directly above the one holding the key, and null when the key is at the root or absent |
| Bst.SearchFindsIfOrdered | src/app/lib/bst.ts:88-92 | the comparison path finds a key exactly when a search tree holds it |
| Bst.RotatedPreservesInorder | src/app/lib/bst.ts:77-86 | `rotate` keeps the inorder sequence, the keys and the ordering, whatever its arguments |
| Bst.RotatedAbsentParent | src/app/lib/bst.ts:78-79 | `rotate` with a parent key that is not held changes nothing |
| Bst.RotatedIgnoresChildKey | src/app/lib/bst.ts:81-85 | only the side of `childValue` matters: `rotate(5, 1)` on the tree 3 < 5 rotates right, though 1 is not the child's key |
| Bst.ExampleInsertions | src/app/lib/bst.ts:20-46 | inserting 5, 3, 8, 1, 4 into an empty tree builds 5 over 3 (over 1 and 4) and 8 |
| Bst.ExampleDepthFirst | src/app/lib/bst.ts:144-184 | that tree's inorder sequence is [1, 3, 4, 5, 8], its preorder [5, 3, 1, 4, 8] and its postorder [1, 4, 3, 8, 5] |
| Bst.ExampleLevelOrder | src/app/lib/bst.ts:186-201 | that tree's level order is [5, 3, 8, 1, 4] |
| Bst.BST.Insert | src/app/lib/bst.ts:20-28 | `insert` keeps the object valid, allocates only fresh nodes, and its model becomes leaf insertion of the key into the old model |
| Bst.BST.InsertNode | src/app/lib/bst.ts:30-46 | `_insertNode` links the new node where leaf insertion puts it, as a linked shape |
| Bst.BST.Delete | src/app/lib/bst.ts:48-50 | `delete` keeps the object valid, uses only nodes it had, and its model becomes the deletion of the key from the old model |
| Bst.BST.DeleteNode | src/app/lib/bst.ts:52-68 | `_deleteNode` returns the root of a linked shape that is the deletion of the key from the old shape |
| Bst.BST.DeleteHere | src/app/lib/bst.ts:63-65 | a node with two children takes the minimum of its right subtree, which is then deleted from that subtree |
| Bst.BST.FindMin | src/app/lib/bst.ts:70-75 | `_findMin` walks the left spine and returns the leftmost node, which has no left child and holds the minimum |
| Bst.BST.Rotate | src/app/lib/bst.ts:77-86 | `rotate` keeps the object valid and the same node objects, and its shape becomes `Rotated` of the old shape: found by comparison, right-rotated when the child value is smaller and a left child exists, left-rotated when it is larger and a right child exists, unchanged otherwise |
| Bst.BST.RotateLeft | src/app/lib/bst.ts:94-111 | `_rotateLeft` replaces the subtree at the node's path by its left rotation and changes nothing else |
| Bst.BST.RotateRight | src/app/lib/bst.ts:113-130 | `_rotateRight` replaces the subtree at the node's path by its right rotation and changes nothing else |
| Bst.BST.Relink | src/app/lib/bst.ts:99-110 | the promoted node becomes the root, or takes the rotated node's slot in its parent; the shape becomes the old one with the rotated subtree in place |
| Bst.BST.Reparent | src/app/lib/bst.ts:102-109 | below the root, the parent that `_findParent` finds is relinked so that the shape with the rotated subtree in place is linked again |
| Bst.BST.Hook | src/app/lib/bst.ts:103-109 | the parent takes the promoted node on the side that held the rotated node, and keeps its other child and key |
| Bst.BST.Preorder | src/app/lib/bst.ts:144-156 | `preorder` returns the preorder sequence of the model |
| Bst.BST.Inorder | src/app/lib/bst.ts:158-170 | `inorder` returns the inorder sequence of the model |
| Bst.BST.Postorder | src/app/lib/bst.ts:172-184 | `postorder` returns the postorder sequence of the model |
| Bst.BST.LevelOrder | src/app/lib/bst.ts:186-201 | `levelOrder` returns the breadth-first sequence of the model, empty for an empty tree |
| Bst.BST.LevelOrderFrom | src/app/lib/bst.ts:189-200 | the queue loop, whose invariant keeps the queued nodes and the keys still to visit in step with the breadth-first walk, returns that walk |
| Avl.FixAfterInsert | src/app/lib/avl.ts:82-106 | the rebalancing after an insertion keeps the inorder sequence |
| Avl.FixAfterDelete | src/app/lib/avl.ts:131-157 | the rebalancing after a deletion keeps the inorder sequence |
| Avl.FixInsertCases | src/app/lib/avl.ts:84-106 | after an insertion the node is returned as it is or by one of the four rotation cases: LL, RR, LR or RL |
| Avl.FixDeleteCases | src/app/lib/avl.ts:135-157 | after a deletion the node is returned as it is or by one of the four rotation cases |
| Avl.Inserted | src/app/lib/avl.ts:67-107 | `_insertNode` never returns an empty tree, and its inorder sequence is that of plain leaf insertion |
| Avl.Deleted | src/app/lib/avl.ts:113-158 | `_deleteNode` has the inorder sequence of plain successor-copying deletion |
| Avl.InsertedKeys | src/app/lib/avl.ts:62-78 | insertion adds exactly the key; on a search tree it keeps the ordering and puts the key in its sorted place |
| Avl.DeletedKeys | src/app/lib/avl.ts:109-127 | on a search tree, deletion removes exactly the key, keeps the ordering, and removes the key from the sorted sequence |
| Avl.DeletedAbsent | src/app/lib/avl.ts:113-157 | deleting a key an AVL tree does not hold returns the tree unchanged, shape and heights included: the descent reaches null and every node on the way is already balanced |
| Avl.InsertedExisting | src/app/lib/avl.ts:76-77 | inserting a key the AVL search tree already holds returns the tree unchanged |
| Avl.InsertedBalanced | src/app/lib/avl.ts:80-106 | from an AVL tree, insertion gives an AVL tree at most one level taller; when it grew, the root stayed and now leans towards the new key |
| Avl.DeletedBalanced | src/app/lib/avl.ts:129-157 | from an AVL tree, deletion gives an AVL tree at most one level shorter |
| Avl.ExampleInsertions | src/app/lib/avl.ts:67-107 | inserting 1, 2, 3, 4, 5 in turn gives preorder [2, 1, 4, 3, 5] and inorder [1, 2, 3, 4, 5] |
| Avl.AVLNode.constructor | src/app/lib/avl.ts:7-12 | a new node holds the key, has no children and height 1 |
| Avl.AVLTree.constructor | src/app/lib/avl.ts:18-20 | the tree object over a linked AVL root is valid and holds that shape |
| Avl.GetHeight | src/app/lib/avl.ts:22-24 | the stored height of a linked node is its subtree's height, and 0 for null |
| Avl.GetBalanceFactor | src/app/lib/avl.ts:26-29 | the balance factor read from the stored heights is left height minus right height, and 0 for null |
| Avl.UpdateHeight | src/app/lib/avl.ts:31-34 | after `updateHeight`, a node whose children were linked with correct heights has its own height correct too |
| Avl.RotateRightAt | src/app/lib/avl.ts:36-47 | `rotateRight` returns the promoted left child; the result is the right rotation of the shape, with both heights refreshed |
| Avl.RotateLeftAt | src/app/lib/avl.ts:49-60 | `rotateLeft` returns the promoted right child; the result is the left rotation of the shape, with both heights refreshed |
| Avl.FixInsert | src/app/lib/avl.ts:80-106 | the heap rebalancing after an insertion builds exactly `FixAfterInsert` of the shape |
| Avl.FixDelete | src/app/lib/avl.ts:131-157 | the heap rebalancing after a deletion builds exactly `FixAfterDelete` of the shape |
| Avl.InsertNode | src/app/lib/avl.ts:67-107 | the heap `_insertNode` builds exactly `Inserted` of the shape, with only the new node fresh |
| Avl.DeleteNode | src/app/lib/avl.ts:113-158 | the heap `_deleteNode` builds exactly `Deleted` of the shape, from nodes it had |
| Avl.DeleteHere | src/app/lib/avl.ts:121-127 | a node with two children takes the minimum of its right subtree, which is then deleted there, and the node is rebalanced |
| Avl.FindMin | src/app/lib/avl.ts:160-165 | `_findMin` walks the left spine and returns the leftmost node, which has no left child and holds the subtree's minimum |
| Avl.AVLTree.ModelIsAvl | src/app/lib/avl.ts:15-20 | a valid object's model is an AVL search tree |
| Avl.AVLTree.Insert | src/app/lib/avl.ts:62-65 | `insert` keeps the object valid, so ordered, balanced and with correct heights; its model becomes `Inserted`, which holds the old keys and the new one, with the key in sorted place |
| Avl.AVLTree.Delete | src/app/lib/avl.ts:109-111 | `delete` keeps the object valid; its model becomes `Deleted`, which holds exactly the keys but that one, with that key removed from the sorted sequence; deleting an absent key leaves the model unchanged |
| Avl.AVLTree.Preorder | src/app/lib/avl.ts:180-190 | `preorder` returns the preorder sequence of the model |
| Avl.AVLTree.Inorder | src/app/lib/avl.ts:168-178 | `inorder` returns the inorder sequence of the model |
| Avl.AVLTree.Postorder | src/app/lib/avl.ts:192-202 | `postorder` returns the postorder sequence of the model |
| Avl.AVLTree.LevelOrder | src/app/lib/avl.ts:204-215 | `levelOrder` returns the breadth-first sequence of the model |
| RedBlack.Recolor | src/app/lib/rbt.ts:102-104 | recolouring the node at a path changes that node's colour and keeps the inorder sequence |
| RedBlack.RecolorOnly | src/app/lib/rbt.ts:102-104 | recolouring changes the colour at that path only: every other node keeps its key and colour, and the shape stays |
| RedBlack.FixIns | src/app/lib/rbt.ts:96-141 | when the insertion loop ends, the tree has the same inorder sequence |
| RedBlack.FixInsEnds | src/app/lib/rbt.ts:96-141 | the insertion loop ends whenever the root is black |
| RedBlack.FixInsRestores | src/app/lib/rbt.ts:96-145 | from a red node whose only flaw is a red parent, in a black-balanced tree whose root is black unless the node is the root, the loop ends; after the root is blackened the tree is red-black: black root, no red node with a red child, equal black height on every path |
| RedBlack.RbInsertSteps | src/app/lib/rbt.ts:64-74 | `insert` on a non-empty tree adds an absent key as a red leaf and runs the loop from it; a held key leaves the tree alone; either way the root is then blackened |
| RedBlack.InsertRedLeaf | src/app/lib/rbt.ts:76-94 | the new key goes in as a red leaf at the empty slot ending its comparison path |
| RedBlack.RbInsertEnds | src/app/lib/rbt.ts:64-74 | `insert` always ends on a tree whose root is black (or empty) |
| RedBlack.RbInsertSpins | src/app/lib/rbt.ts:97-98 | `insert` spins forever on a red root with no grandparent above the new node's parent: inserting 2 under a red root 1 |
| RedBlack.RbInsertKeepsRedBlack | src/app/lib/rbt.ts:64-145 | insertion into a red-black tree ends and gives a red-black tree |
| RedBlack.RbInsertKeys | src/app/lib/rbt.ts:64-94 | on a search tree, insertion puts the key in sorted place, keeps the ordering and adds exactly the key; a held key only blackens the root |
| RedBlack.Colored | src/app/lib/rbt.ts:142-144 | recolouring the root keeps the inorder sequence and keeps an empty tree empty |
| RedBlack.InsLocal | src/app/lib/rbt.ts:101-118 | one pass at the grandparent keeps the inorder sequence; a climbing pass leaves a red node to continue from, a final pass a black top |
| RedBlack.DelLocal | src/app/lib/rbt.ts:189-250 | one pass at the parent keeps the inorder sequence; a climbing pass leaves the node to continue from at the parent, or one level down on a red node |
| RedBlack.Sibling | src/app/lib/rbt.ts:198-218 | with a black sibling, a climbing pass keeps the parent's colour and the node's subtree; any pass that moves keeps the inorder sequence |
| RedBlack.NearTurn | src/app/lib/rbt.ts:206-211 | turning the sibling away keeps its inorder sequence |
| RedBlack.FinalTurn | src/app/lib/rbt.ts:212-217 | the final recolour-and-rotate keeps the inorder sequence of the parent with the turned sibling |
| RedBlack.FixDel | src/app/lib/rbt.ts:187-254 | when the deletion loop ends, the tree has the same inorder sequence |
| RedBlack.Successor | src/app/lib/rbt.ts:164 | the successor is a node without a left child holding the minimum of the right subtree |
| RedBlack.UnlinkHere | src/app/lib/rbt.ts:153-180 | the unlinking leaves in the vacated place the right child, the left child, or the successor's right child |
| RedBlack.Unlink | src/app/lib/rbt.ts:153-180 | unlinking the node at a path reports the path of the place left to the replacing child, and the child found there |
| RedBlack.UnlinkByPromote | src/app/lib/rbt.ts:168-169 | when the successor is the right child, it takes the node's place with the node's colour, and its own colour is the one removed |
| RedBlack.UnlinkBySupplant | src/app/lib/rbt.ts:170-179 | when the successor lies deeper, its right child takes its place, then it takes the node's place, subtrees and colour |
| RedBlack.UnlinkIsDelete | src/app/lib/rbt.ts:153-180 | on a search tree, unlinking the node the comparisons find is plain successor deletion, colours included |
| RedBlack.DeleteMinAtSpine | src/app/lib/rbt.ts:164-171 | removing the minimum of a search tree is cutting its leftmost node out in favour of its right child |
| RedBlack.RbDeleteKeys | src/app/lib/rbt.ts:147-185 | on a search tree, deletion removes exactly the key, keeps the ordering and the sorted sequence minus the key; an absent key changes nothing |
| RedBlack.RbDeleteEnds | src/app/lib/rbt.ts:187-254 | deletion from a black-balanced tree always ends |
| RedBlack.RbDeleteUnbalances | src/app/lib/rbt.ts:182-184 | deleting the black leaf 1 from the red-black tree 2(1, 3(-, 4 red)) skips the fix-up and leaves unequal black heights |
| RedBlack.FlipColorOnly | src/app/lib/rbt.ts:370-375 | `flipNodeColor` keeps keys and shape, toggles the colour of the node the comparisons reach for the key, and keeps every other colour |
| RedBlack.FlipColorFinds | src/app/lib/rbt.ts:370-375 | with the key absent, `flipNodeColor` changes nothing; in a search tree holding it, the toggled node is the one holding it |
| RedBlack.FlipColorTwice | src/app/lib/rbt.ts:370-375 | flipping the same key twice restores the tree |
| Rbt.RBTNode.constructor | src/app/lib/rbt.ts:13-19 | a new node holds the key, is red, and has no children and no parent |
| Rbt.RedBlackTree.constructor | src/app/lib/rbt.ts:32-34 | the tree object over a wired root without parent is valid and holds that shape |
| Rbt.Painted | src/app/lib/rbt.ts:37-48 | the colour model of a shape has the same keys and arrangement as the shape |
| Rbt.FindNode | src/app/lib/rbt.ts:269-273 | `_findNode` returns the node at the end of the comparison path, holding the key when not null; in a search tree, null exactly when the key is absent |
| Rbt.Serialize | src/app/lib/rbt.ts:38-46 | `serializeNode` of a wired subtree is its colour model: every key, colour and child in place |
| Rbt.Deserialize | src/app/lib/rbt.ts:52-60 | `deserializeNode` builds fresh nodes wired as the snapshot says, every child pointing back at its parent, with that snapshot as their colour model |
| Rbt.RedBlackTree.ToJSON | src/app/lib/rbt.ts:37-48 | `toJSON` of a valid tree is its model |
| Rbt.RedBlackTree.FromJSON | src/app/lib/rbt.ts:51-62 | `fromJSON` builds a valid tree of fresh nodes, the root without a parent, whose model is the snapshot |
| Rbt.RedBlackTree.Copy | src/app/lib/rbt.ts:37-62 | `fromJSON(toJSON(t))` is a valid tree of fresh nodes with the same keys, colours and shape as `t` |
| Rbt.RedBlackTree.FlipNodeColor | src/app/lib/rbt.ts:370-375 | `flipNodeColor` keeps every link, and its model becomes `FlipColor` of the old model |
| Rbt.RedBlackTree.FindMin | src/app/lib/rbt.ts:275-280 | `_findMin` walks the left spine and returns the leftmost node, holding the minimum |
| Rbt.RedBlackTree.Preorder | src/app/lib/rbt.ts:321-331 | `preorder` returns the preorder sequence of the model |
| Rbt.RedBlackTree.Inorder | src/app/lib/rbt.ts:333-343 | `inorder` returns the inorder sequence of the model |
| Rbt.RedBlackTree.Postorder | src/app/lib/rbt.ts:345-355 | `postorder` returns the postorder sequence of the model |
| Rbt.RedBlackTree.LevelOrder | src/app/lib/rbt.ts:357-368 | `levelOrder` returns the breadth-first sequence of the model |
| Rbt.RedBlackTree.RotateLeft | src/app/lib/rbt.ts:282-299 | `_rotateLeft` keeps the object valid, so every parent link is right; the subtree at the node's path is replaced by its left rotation, which is the subtree itself when there is no right child, and the colours go along |
| Rbt.RedBlackTree.RotateRight | src/app/lib/rbt.ts:301-318 | the same for `_rotateRight` and the right rotation |
| Rbt.RedBlackTree.SetColor | src/app/lib/rbt.ts:102-104 | writing one node's colour keeps the object valid and recolours the model at that node's path |
| Rbt.RedBlackTree.Insert | src/app/lib/rbt.ts:64-74 | `insert` keeps the object valid, allocates only the new node, and its model becomes `RbInsert` of the old model |
| Rbt.RedBlackTree.Attach | src/app/lib/rbt.ts:71-94 | the new red node is linked at the end of its comparison path with its parent set; with the key already held, nothing is linked and the node keeps no parent |
| Rbt.RedBlackTree.InsertNode | src/app/lib/rbt.ts:76-94 | `_insertNode` links the new node where leaf insertion puts it, with its parent link set |
| Rbt.RedBlackTree.FixInsertion | src/app/lib/rbt.ts:96-145 | the loop of `_fixInsertion`, then the blackening of the root, turn the model into `FixIns` of it, blackened at the root |
| Rbt.RedBlackTree.InsertionPass | src/app/lib/rbt.ts:97-140 | one pass of the loop moves the node strictly up and leaves the rest of the loop with the same outcome |
| Rbt.RedBlackTree.UncleRed | src/app/lib/rbt.ts:101-105 | with a red uncle: parent and uncle turn black, the grandparent red, and the loop goes on from the grandparent |
| Rbt.RedBlackTree.UncleBlack | src/app/lib/rbt.ts:106-118 | with a black or missing uncle: an inner node is first rotated outwards, then parent and grandparent recolour and the grandparent rotates |
| Rbt.RedBlackTree.PromoteSuccessor | src/app/lib/rbt.ts:163-180 | with the successor as right child, the model becomes `Unlink` of the old model; the removed colour is the successor's old one |
| Rbt.RedBlackTree.SupplantSuccessor | src/app/lib/rbt.ts:170-179 | with the successor deeper, the model becomes `Unlink` of the old model; the successor's old right child takes a place |
| Rbt.RedBlackTree.DetachSuccessor | src/app/lib/rbt.ts:171-173 | the deeper successor is transplanted away by its right child and takes the node's right subtree; it is then outside the tree |
| Rbt.RedBlackTree.TakeOver | src/app/lib/rbt.ts:176-179 | the detached successor takes the node's place, both subtrees and the node's colour |
| Rbt.RedBlackTree.BlackenChild | src/app/lib/rbt.ts:212-218 | the far child of the sibling, if any, turns black and nothing else changes |
| Rbt.RedBlackTree.Rotate | src/app/lib/rbt.ts:282-318 | rotating towards a side replaces the subtree at the node's path by its rotation, keys, colours and parent links included |
| Rbt.Adopt | src/app/lib/rbt.ts:55-58 | a rebuilt child is hung on its parent's side, points back at it, and its colour model is kept |
| Rbt.RedBlackTree.Transplant | src/app/lib/rbt.ts:256-267 | `_transplant(u, v)` puts `v` in `u`'s slot of its parent, or in `root` when `u` has no parent, and points `v` back at that parent |
| Rbt.RedBlackTree.Splice | src/app/lib/rbt.ts:157-162 | a node with no child on one side is replaced by its other child, in the shape and in the model |
| Rbt.RedBlackTree.Promote | src/app/lib/rbt.ts:168-178 | the right-child successor takes the node's place, keeping its right subtree and taking over the node's left subtree |
| Rbt.RedBlackTree.Supplant | src/app/lib/rbt.ts:172-178 | a detached successor takes the node's place and both of its subtrees |
| Rbt.RedBlackTree.Delete | src/app/lib/rbt.ts:147-151 | `delete` keeps the object valid, uses only nodes it had, and its model becomes `RbDelete` of the old model |
| Rbt.RedBlackTree.DeleteNode | src/app/lib/rbt.ts:153-185 | `_deleteNode` unlinks the node and runs the fix-up only when the removed colour was black and a child took the place; the model becomes `RbDeleteAt` |
| Rbt.RedBlackTree.SpliceOut | src/app/lib/rbt.ts:157-162 | a node missing a child is transplanted away by its other child; the removed colour is its own |
| Rbt.RedBlackTree.ReplaceBySuccessor | src/app/lib/rbt.ts:163-180 | a node with two children is replaced by its successor with the node's colour; the removed colour is the successor's, and its right child is the one that took a place |
| Rbt.RedBlackTree.FixDeletion | src/app/lib/rbt.ts:187-254 | the loop of `_fixDeletion`, then the blackening of the node it stops at, turn the model into `FixDel` of it |
| Rbt.RedBlackTree.DeletionPass | src/app/lib/rbt.ts:188-251 | one pass moves the node strictly up, or stops on a red node, and leaves the rest of the loop with the same outcome |
| Rbt.RedBlackTree.RedSibling | src/app/lib/rbt.ts:192-197 | a red sibling turns black, the parent red, and the parent rotates towards the node, which keeps the same parent one level lower |
| Rbt.RedBlackTree.SiblingPass | src/app/lib/rbt.ts:198-219 | with the sibling black, the pass either climbs to the parent or ends at the root |
| Rbt.RedBlackTree.ClimbSibling | src/app/lib/rbt.ts:198-204 | a black sibling with two black children turns red, and the loop climbs to the parent |
| Rbt.RedBlackTree.TurnSibling | src/app/lib/rbt.ts:206-211 | a sibling whose far child is black is rotated away from the node after recolouring |
| Rbt.RedBlackTree.FinalPass | src/app/lib/rbt.ts:212-217 | the sibling takes the parent's colour, the parent and the far child turn black, and the parent rotates towards the node |
| Rbt.RedBlackTree.Finish | src/app/lib/rbt.ts:205-218 | the last pass ends at the root, and the loop there has the outcome the pass started with |
| Reducer.Reduce | src/app/components/BSTVisualizer.tsx:66-128 | an edit changes neither the iterations nor the index, and CLEAR empties the current tree; SAVE_ITERATION appends the current tree and points at it; LOAD_ITERATION in range loads that entry and index, and otherwise changes nothing; DELETE_ITERATION in range removes exactly that entry, clamps the index to the new last one and loads the entry there (or an empty tree), and otherwise changes nothing; CLEAR_ALL_ITERATIONS empties the list, sets the index to -1 and keeps the tree |
| Reducer.RemoveAt | src/app/components/BSTVisualizer.tsx:102-103 | `splice(i, 1)` keeps the entries before `i` and shifts the later ones down by one |
| Reducer.InitialGood | src/app/components/BSTVisualizer.tsx:131-138 | the initial state (empty tree, no iterations, index -1) has the index in range and every tree a search tree |
| Reducer.ReducePreservesGood | src/app/components/BSTVisualizer.tsx:66-128 | every action keeps `-1 <= currentIndex < |iterations|` and every tree a search tree |
| Reducer.RunPreservesGood | src/app/components/BSTVisualizer.tsx:66-128 | so does every sequence of actions |
| Reducer.ReachableGood | src/app/components/BSTVisualizer.tsx:131-138 | every state reached from the initial one satisfies both |
| Reducer.EditsOnKeys | src/app/components/BSTVisualizer.tsx:69-79 | on a search tree, INSERT adds exactly the key in sorted place, DELETE removes exactly it, ROTATE keeps the sorted sequence, and CLEAR empties the tree |
| Reducer.SavedIterationSurvivesEdits | src/app/components/BSTVisualizer.tsx:67-99 | after a save, later edits leave the saved iteration and the index as they were, and loading it back gives the tree as saved |
| Reducer.EditsKeepIterations | src/app/components/BSTVisualizer.tsx:69-79 | any run of edits keeps the iterations and the index |
| Reducer.ClearAllThenSave | src/app/components/BSTVisualizer.tsx:80-124 | clearing all iterations and saving again starts the list afresh with the current tree at index 0 |

## Left out

- The React component, the rendering, and the step-by-step narration builders of the visualiser are not part of this model.
- Deep copies made by a JSON round trip of the root are modelled as value copies.
  - The reducer works on tree values. An edit cannot reach a saved iteration, and the reducer does not alias them.
- The red-black snapshot is the datatype `RbTree`, not JSON text or an untyped object.
  - The model does not cover malformed objects, or colour values other than red and black stored raw by `fromObject`.
- Keys are unbounded integers. The interface rejects only NaN, so fractional keys do reach the engines. The engines and the reducer only compare keys (`<`, `>`, `===`) and never compute with them, so modelling keys as `int` loses no behaviour of theirs.
- `insert` returns `this` for chaining; the model's methods return nothing.
- The `default` branch of the reducer does not appear: the `Action` datatype has exactly the eight kinds of action.
- Bst.BST.constructor, Avl.AVLTree.constructor, Rbt.RedBlackTree.constructor: these require the given root to be a well-formed tree, and a search tree for `Bst` and `Avl`. The model does not follow trees built by hand that break those rules.
- Avl.AVLTree.Insert: it requires the class invariant, so the tree is an AVL search tree with correct heights. On other trees the source can reach `rotateLeft`/`rotateRight` without the child they dereference.
- Rbt.RedBlackTree.Insert: it requires `RbInsert(Model(), value).Some?`. The source loop spins when the new node's parent is a red root, which only `flipNodeColor` can produce. `RedBlack.RbInsertEnds` shows the requirement holds whenever the root is black, and `RedBlack.RbInsertSpins` exhibits the spin.
- Rbt.RedBlackTree.Delete: it requires `RbDelete(Model(), value).Some?`. The source loop makes no progress when a black node has no sibling. `RedBlack.RbDeleteEnds` shows the requirement holds on every black-balanced tree.
- Rbt.RedBlackTree.FixInsertion and Rbt.RedBlackTree.FixDeletion carry the same termination requirements, as `FixIns(...).Some?` and `FixDel(...).Some?`.
- Rbt.RedBlackTree.Delete: no red-black invariant is claimed after a deletion, because the source does not keep one. `RedBlack.RbDeleteUnbalances` shows a black leaf removed without fix-up.
