# Red-black tree (federicoB/RedBlackTree) in Dafny

This project models the red-black tree of `src/main/RedBlackTree.java` and
proves properties of the model. It also models the tree's two smaller
relatives: the unbalanced search tree of `src/main/BinarySearchTree.java` and
the earlier draft `src/RedBlackTree.java`.

The Java tree is a web of node objects. Each node has a value, a colour,
`parent`/`leftChild`/`rightChild` links and a `nullLeaf`. The `nullLeaf` is
one black sentinel node shared by the whole tree, and every missing child
points to it. Insertion links a red leaf and runs `balanceInsertion`.
Deletion unlinks a node with `transplant` and runs `balanceDeletion`. For a
node with two children, it first copies the successor's value into the node
and deletes the successor instead.

The model has three layers:

- **Pure trees** (`trees.dfy`, module `Trees`):
  - `Tree<H> = Nil | Node(handle, color, key, left, right)`. A node is named by its path of left/right steps from the root, and `Nil` stands for the sentinel or a `null` child.
  - In-order key sequence, key set, binary-search-tree order, rotations, recolouring.
  - The red-black rules (black root, no red node with a red child, equal black height), and the height bound they imply.
- **Search** (`bst.dfy`, module `BinarySearchTree`): `find`, `lookUpNode`, `contains`, `min`, `max`, `successorNode`, `predecessorNode`, `getHeight` and `getRoot` as functions on pure trees.
- **Algorithms** (`rbspec.dfy`, module `RedBlackSpec`): `balanceInsertion`, `insert`, `delete` and `balanceDeletion` as functions on pure trees, following the Java statement by statement. Where the Java dereferences `null`, the result is `NullDereference`. Where it would write links that no longer describe one tree, the model stops before those writes with `BrokenLinks`.
- **Heap** (`arena.dfy`, `redblacktree.dfy`, modules `Arenas` and `RedBlackTree`):
  - The nodes live in an `Arena` class, one map per Java field (`value`, `color`, `left`, `right`, `parent`), indexed by integer references. Reference 0 is the sentinel and -1 is `null`.
  - A ghost field `shape` holds the pure tree the maps describe.
  - Every Java method is a method or function of the class. Each is proved to do to the maps and to `shape` exactly what the matching function of `RedBlackSpec` or `BinarySearchTree` does.
- **Draft** (`draft.dfy`, module `DraftRedBlackTree`): the same arena idea with `null` leaves and possibly valueless nodes. It covers the draft's `lookUpNode`, `min`, `max`, the rotations, `getSibiling`, `balance` and its empty `insert`.
- **Repaired insertion** (`insertrepair.dfy`, module `InsertionRepair`): `balanceInsertion` with its zig-zag case corrected (see Findings). With it, inserting into a red-black tree is proved to give a red-black tree.
- **Repaired deletion** (`deletionrepair.dfy`, module `DeletionRepair`): `balanceDeletion` with its red-nephew and red-sibling cases corrected (see Findings). With it, deleting from a red-black tree is proved to give a red-black tree. The module also holds the inputs on which the source as written breaks the colour rules or its own links.

The heap model follows the Java as written, bugs included. The corrected insertion, deletion and draft look-up are separate definitions, next to the ones that model the code.

## Model

| member | source | states |
|---|---|---|
| Trees.RotateLeft | src/main/RedBlackTree.java:241-275 | a left rotation keeps the in-order key sequence and the set of nodes, and a right rotation undoes it |
| Trees.RotateRight | src/main/RedBlackTree.java:284-319 | a right rotation keeps the in-order key sequence and the set of nodes |
| Trees.RotateRightLeft | src/main/RedBlackTree.java:241-319 | a left rotation undoes a right rotation |
| Trees.RotateUnique | src/main/RedBlackTree.java:241-319 | rotations keep node handles distinct |
| Trees.RotateAt | src/main/RedBlackTree.java:241-319 | rotating at any position of a tree keeps its in-order sequence, its nodes, their distinctness and its size |
| Trees.PaintKeeps | src/main/RedBlackTree.java:367-412 | recolouring a node changes neither the key order nor the nodes |
| Trees.SizeAtLeastBlackHeight | src/test/RedBlackTreeTest.java:53-56 | a tree with the colour rules and black height b has at least 2^b - 1 nodes |
| Trees.HeightAtMostTwiceBlackHeight | src/test/RedBlackTreeTest.java:53-56 | under the colour rules, height is at most twice the black height (plus one for a red root) |
| Trees.HeightBound | src/test/RedBlackTreeTest.java:53-56 | a red-black tree of n nodes has height h with 2^h <= (n+1)^2, i.e. h <= 2 log2(n+1) |
| BinarySearchTree.New | src/main/BinarySearchTree.java:28-33 | a new tree is a single node holding the value, of height 1 |
| BinarySearchTree.Find | src/main/BinarySearchTree.java:58-76 | `find` lands on a real node that holds k or whose child on k's side is missing |
| BinarySearchTree.FindLocates | src/main/BinarySearchTree.java:58-76 | in a search tree, `find` lands on k exactly when k is a key |
| BinarySearchTree.FindLocatesIfBST | src/main/RedBlackTree.java:116-134 | the same for the red-black tree's `find`, which descends the same way |
| BinarySearchTree.InsertionPoint | src/main/RedBlackTree.java:206-231 | linking a leaf for an absent k at the node `find` returns, on k's side, keeps search order and adds exactly k |
| BinarySearchTree.Min | src/main/BinarySearchTree.java:101-104 | `min` returns a node without a left child |
| BinarySearchTree.Max | src/main/BinarySearchTree.java:111-114 | `max` returns a node without a right child |
| BinarySearchTree.MinFirst | src/main/BinarySearchTree.java:101-104 | `min`'s node comes first in order: nothing precedes it and its key heads the in-order sequence |
| BinarySearchTree.MaxLast | src/main/BinarySearchTree.java:111-114 | `max`'s node comes last in order |
| BinarySearchTree.MinMaxExtreme | src/main/BinarySearchTree.java:101-114 | in a search tree, `min`/`max` hold the smallest/largest key |
| BinarySearchTree.SpliceMin | src/main/RedBlackTree.java:456-463 | replacing the minimum node by its right subtree drops exactly the first key of the in-order sequence |
| BinarySearchTree.Successor | src/main/BinarySearchTree.java:83-85 | `successorNode` (min of the right subtree) holds the key right after the node's own in the in-order sequence, and has no left child |
| BinarySearchTree.Predecessor | src/main/BinarySearchTree.java:92-94 | `predecessorNode` (max of the left subtree) holds the key right before the node's own, and has no right child |
| BinarySearchTree.LookUpNode | src/main/BinarySearchTree.java:133-140 | a found node holds k; in a search tree a node is found exactly when k is a key |
| BinarySearchTree.Contains | src/main/BinarySearchTree.java:123-125 | `contains` holds exactly when `lookUpNode` finds a node, and so, in a search tree, exactly when k is a key |
| BinarySearchTree.GetHeight | src/main/BinarySearchTree.java:147-178 | `getHeight` is the number of nodes on the longest downward path, at least 1 |
| BinarySearchTree.GetRoot | src/main/BinarySearchTree.java:185-188 | following parents from any node reaches the root position |
| RedBlackSpec.BalanceInsertionKeeps | src/main/RedBlackTree.java:361-417 | `balanceInsertion` only rotates and recolours: same nodes, same in-order keys |
| RedBlackSpec.BalanceInsertionRootBlack | src/main/RedBlackTree.java:361-417 | on a tree with a black root, `balanceInsertion` never dereferences `null` and the root ends black |
| RedBlackSpec.InsertAdds | src/main/RedBlackTree.java:206-231 | `insert` on a search tree adds an absent key as one new node (then `contains` finds it), changes nothing for a present key, keeps order, and keeps a black root black |
| RedBlackSpec.DoubleRotateRight | src/main/RedBlackTree.java:500-508 | the hand-written double rotation keeps in-order keys and nodes |
| RedBlackSpec.DoubleRotateLeft | src/main/RedBlackTree.java:517-525 | the mirror double rotation keeps in-order keys and nodes |
| RedBlackSpec.DoubleRotateUnique | src/main/RedBlackTree.java:500-525 | the double rotations keep node handles distinct |
| RedBlackSpec.RedNephewKeeps | src/main/RedBlackTree.java:493-531 | the red-nephew restructuring, unless it stops before links it would break (`BrokenLinks`), keeps nodes and in-order keys |
| RedBlackSpec.BalanceDeletionKeeps | src/main/RedBlackTree.java:477-562 | unless it stops with `BrokenLinks`, `balanceDeletion` only rotates and recolours: same nodes, same in-order keys |
| RedBlackSpec.DeletionMovesUp | src/main/RedBlackTree.java:543-545 | the recursive call on the parent is on a position higher up, so `balanceDeletion` terminates |
| RedBlackSpec.RedSiblingRight | src/main/RedBlackTree.java:549-559 | with a red right sibling, the rotation and recolouring put the node one level lower below a smaller sibling subtree, so the repeated call terminates |
| RedBlackSpec.RedSiblingLeft | src/main/RedBlackTree.java:549-559 | with a red left sibling, the unconditional left rotation leaves the node's parent position higher up |
| RedBlackSpec.RotatedLeftBelow | src/main/RedBlackTree.java:241-275 | where the subtrees of a left rotation end up |
| RedBlackSpec.ReplaceByChild | src/main/RedBlackTree.java:419-431 | splicing a node with at most one child out of the tree drops exactly its key and its handle |
| RedBlackSpec.RemoveNodeKeeps | src/main/RedBlackTree.java:449-456 | removing a node with at most one child (then balancing) drops exactly its key and handle unless the balancing stops with `BrokenLinks`; the sole node of the tree stays |
| RedBlackSpec.CopySuccessor | src/main/RedBlackTree.java:459-461 | copying the successor's value keeps all nodes and leaves the successor in place |
| RedBlackSpec.SpliceSuccessor | src/main/RedBlackTree.java:459-463 | after the copy, removing the successor gives the in-order keys without the deleted node's key |
| RedBlackSpec.RemoveSuccessorKeeps | src/main/RedBlackTree.java:457-463 | unless the balancing stops with `BrokenLinks`, the two-child case drops the deleted key and the successor's node |
| RedBlackSpec.RemovedPath | src/main/RedBlackTree.java:441-468 | the node `delete` unlinks is the found node, or its successor (deeper) in the two-child case |
| RedBlackSpec.DeleteAtNode | src/main/RedBlackTree.java:463 | deleting a node's own key from a node with no left child takes the one-child branch at that node |
| RedBlackSpec.DeleteFound | src/main/RedBlackTree.java:441-468 | unless the balancing stops with `BrokenLinks`, deleting a found key drops exactly that key from the in-order sequence and exactly the unlinked node |
| RedBlackSpec.DropKey | src/main/RedBlackTree.java:441-468 | dropping a key from a search tree's in-order sequence leaves a search tree without it, with one node less |
| RedBlackSpec.IncreasingDrop | src/main/RedBlackTree.java:441-468 | removing one key from an increasing sequence leaves an increasing sequence without that key |
| RedBlackSpec.DeleteRemoves | src/main/RedBlackTree.java:441-468 | `delete` of an absent key changes nothing; of a present key (not the sole one), unless the balancing stops with `BrokenLinks`, it keeps search order, removes exactly that key and one node, and `contains` no longer finds it; the sole node stays |
| Arenas.RotateLeftLinked | src/main/RedBlackTree.java:241-275 | `rotateLeft`'s field writes turn a heap holding a tree into one holding the rotated tree, links consistent |
| Arenas.RotateRightLinked | src/main/RedBlackTree.java:284-319 | the same for `rotateRight` |
| Arenas.TransplantLinked | src/main/RedBlackTree.java:419-431 | `transplant`'s writes turn the heap into one holding the tree with the subtree replaced |
| Arenas.LinkLeafLinked | src/main/RedBlackTree.java:214-227 | linking a new node below the insertion point gives a heap holding the tree with the new leaf |
| RedBlackTree.Arena.constructor | src/main/RedBlackTree.java:55-77 | a new tree is a well-formed heap holding one black node with the value, whose sentinel has a `null` parent |
| RedBlackTree.Arena.NewNode | src/main/RedBlackTree.java:86-99 | a new node is red, has the value, sentinel children and the given parent, under a fresh reference |
| RedBlackTree.Arena.Find | src/main/RedBlackTree.java:116-134 | `find` returns the node the pure `find` reaches |
| RedBlackTree.Arena.LookUpNode | src/main/RedBlackTree.java:142-149 | `lookUpNode` returns the found node, or `null` exactly when the pure look-up finds nothing |
| RedBlackTree.Arena.Contains | src/main/RedBlackTree.java:157-159 | `contains` agrees with the pure `contains` |
| RedBlackTree.Arena.Min | src/main/RedBlackTree.java:184-187 | `min` returns the pure minimum's node |
| RedBlackTree.Arena.Max | src/main/RedBlackTree.java:194-197 | `max` returns the pure maximum's node |
| RedBlackTree.Arena.SuccessorNode | src/main/RedBlackTree.java:166-168 | `successorNode` returns the pure successor's node |
| RedBlackTree.Arena.PredecessorNode | src/main/RedBlackTree.java:175-177 | `predecessorNode` returns the pure predecessor's node |
| RedBlackTree.Arena.GetSibling | src/main/RedBlackTree.java:327-344 | `getSibling` is `null` exactly at the root, else the node (or sentinel) at the position the source takes for the sibling |
| RedBlackTree.Arena.GetRootFinds | src/main/RedBlackTree.java:351-354 | from any node of the tree the parent walk reaches the root |
| RedBlackTree.Arena.GetRootOfNode | src/main/RedBlackTree.java:351-354 | `getRoot` from any node of the tree returns the root of the tree, a node whose parent link is `null` |
| RedBlackTree.Arena.GetRootOfSentinel | src/main/RedBlackTree.java:467 | `getRoot` on the sentinel returns the root when the sentinel's parent is a node of the tree |
| RedBlackTree.Arena.GetHeight | src/main/RedBlackTree.java:569-573 | `getHeight` is 0 at the sentinel, else the height of the subtree |
| RedBlackTree.Arena.SetColor | src/main/RedBlackTree.java:378-380 | a colour write recolours exactly that node of the tree |
| RedBlackTree.Arena.RotateLeft | src/main/RedBlackTree.java:241-275 | `rotateLeft` performs the left rotation on the heap and the tree and returns the new local root |
| RedBlackTree.Arena.RotateRight | src/main/RedBlackTree.java:284-319 | `rotateRight` performs the right rotation on the heap and the tree and returns the new local root |
| RedBlackTree.Arena.Transplant | src/main/RedBlackTree.java:419-431 | `transplant` replaces the node's subtree by one of its children and sets that child's parent, even for the sentinel |
| RedBlackTree.Arena.RecolourFamily | src/main/RedBlackTree.java:376-380 | the red-uncle recolouring paints uncle and parent black and grandparent red |
| RedBlackTree.Arena.RotateAndRecolour | src/main/RedBlackTree.java:398-413 | the aligned case rotates the grandparent and paints it red and the new top black |
| RedBlackTree.Arena.BalanceInsertion | src/main/RedBlackTree.java:361-417 | `balanceInsertion` on the heap does what `RedBlackSpec.BalanceInsertion` does to the tree |
| RedBlackTree.Arena.UncleStep | src/main/RedBlackTree.java:372-413 | the red-parent branch (red uncle, zig-zag, aligned) does what `RedBlackSpec.UncleStep` does to the tree |
| RedBlackTree.Arena.AddLeaf | src/main/RedBlackTree.java:214-227 | a new red leaf with the key is linked below the insertion point |
| RedBlackTree.Arena.Insert | src/main/RedBlackTree.java:206-231 | `insert` does what `RedBlackSpec.Insert` does and, when it finishes, returns the root |
| RedBlackTree.Arena.HandRotateRight | src/main/RedBlackTree.java:500-508 | the hand-written double rotation at the root performs `DoubleRotateRight` |
| RedBlackTree.Arena.HandRotateLeft | src/main/RedBlackTree.java:517-525 | the mirror double rotation at the root performs `DoubleRotateLeft` |
| RedBlackTree.Arena.RestructureRedNephew | src/main/RedBlackTree.java:493-531 | the red-nephew case does what `RedBlackSpec.RedNephew` does |
| RedBlackTree.Arena.AdjustRedSibling | src/main/RedBlackTree.java:549-557 | the red-sibling adjustment rotates the parent left, paints the sibling black and the node's new parent red, and reports `null` when that parent is missing |
| RedBlackTree.Arena.RecolourRotated | src/main/RedBlackTree.java:555-557 | after the rotation, the sibling turns black and the node's current parent, if any, red |
| RedBlackTree.Arena.BalanceDeletion | src/main/RedBlackTree.java:477-562 | `balanceDeletion` on the heap does what `RedBlackSpec.BalanceDeletion` does |
| RedBlackTree.Arena.RedSibling | src/main/RedBlackTree.java:549-559 | the red-sibling branch does what `RedBlackSpec.RedSiblingStep` does, including the `BrokenLinks` stop |
| RedBlackTree.Arena.RedSiblingRebalance | src/main/RedBlackTree.java:559 | after the adjustment, balancing the node again at its new position finishes what `RedBlackSpec.RedSiblingStep` does |
| RedBlackTree.Arena.RecolourSibling | src/main/RedBlackTree.java:532-548 | the black-sibling recolouring branch does what `RedBlackSpec.BlackSiblingStep` does |
| RedBlackTree.Arena.RecolourParent | src/main/RedBlackTree.java:536-547 | once the sibling is red, a red parent turns black, and a black parent below the root is balanced in turn, as in `RedBlackSpec.BlackSiblingStep` |
| RedBlackTree.Arena.SetValue | src/main/RedBlackTree.java:461 | copying a value changes that node's key and nothing else |
| RedBlackTree.Arena.RemoveNode | src/main/RedBlackTree.java:449-456 | the one-child branch does what `RedBlackSpec.RemoveNode` does and, unless it stops with `BrokenLinks`, keeps every other node |
| RedBlackTree.Arena.RemoveSuccessor | src/main/RedBlackTree.java:457-463 | the two-child branch does what `RedBlackSpec.RemoveSuccessor` does and, unless it stops with `BrokenLinks`, keeps every node but the successor |
| RedBlackTree.Arena.Delete | src/main/RedBlackTree.java:441-468 | `delete` does what `RedBlackSpec.Delete` does and returns the root when it finishes; unless it stops with `BrokenLinks`, it keeps every node but the unlinked one |
| RedBlackTree.RotateLeftWellformed | src/main/RedBlackTree.java:241-275 | a left rotation keeps the heap well formed: links consistent, sentinel black |
| RedBlackTree.RotateRightWellformed | src/main/RedBlackTree.java:284-319 | the same for a right rotation |
| RedBlackTree.TransplantWellformed | src/main/RedBlackTree.java:419-431 | `transplant` keeps the heap well formed |
| RedBlackTree.LinkLeafWellformed | src/main/RedBlackTree.java:214-227 | linking a new red leaf keeps the heap well formed and adds exactly the new reference |
| RedBlackTree.ValueWellformed | src/main/RedBlackTree.java:461 | a value write keeps the heap well formed and its nodes |
| RedBlackTree.DoubleRotateRightWellformed | src/main/RedBlackTree.java:500-508 | two library rotations would perform the same double rotation on a well-formed heap |
| RedBlackTree.DoubleRotateLeftWellformed | src/main/RedBlackTree.java:517-525 | the same for the mirror double rotation |
| RedBlackTree.HandRotateRightWellformed | src/main/RedBlackTree.java:500-508 | the hand-written field writes at the root give a well-formed heap holding the double-rotated tree |
| RedBlackTree.HandRotateLeftWellformed | src/main/RedBlackTree.java:517-525 | the same for the mirror hand-written writes, when the moved node has no left child |
| RedBlackTree.RedSiblingRotationLeft | src/main/RedBlackTree.java:549-557 | for a left child with a red sibling, rotating the parent left keeps the heap well formed and puts the node two levels below the old parent position, under its old parent |
| RedBlackTree.RedSiblingRotationRight | src/main/RedBlackTree.java:549-557 | for a right child, the same rotation moves the node itself up into its parent's position |
| RedBlackTree.Arena.SiblingLinks | src/main/RedBlackTree.java:327-344 | the parent's child links of a node are the tree's children at that position, and the node is the left one exactly when the source sees it as a left child |
| RedBlackTree.Arena.NephewLinks | src/main/RedBlackTree.java:487-498 | the links the red-nephew case reads name the parent, the sibling and the red nephew of the tree |
| DraftRedBlackTree.LookUpAsWritten | src/RedBlackTree.java:75-98 | the draft `lookUpNode` returns only a valued node holding the key, and `null` on a valueless node |
| DraftRedBlackTree.LookUpIntended | src/RedBlackTree.java:75-98 | the corrected descent returns only a valued node holding the key |
| DraftRedBlackTree.LookUpIntendedFinds | src/RedBlackTree.java:70-98 | on a search tree of valued nodes, the corrected descent finds k exactly when k is a key |
| DraftRedBlackTree.LookUpMissesKey | src/RedBlackTree.java:85-95 | the draft `lookUpNode` misses a key the tree holds |
| DraftRedBlackTree.BalanceRecolours | src/RedBlackTree.java:230-243 | the draft `balance` only recolours: same nodes, keys and shape |
| DraftRedBlackTree.BalanceAbove | src/RedBlackTree.java:230-243 | the draft `balance` leaves every subtree at or below the starting depth unchanged |
| DraftRedBlackTree.BalanceRedUncle | src/RedBlackTree.java:230-243 | with a red uncle, the draft `balance` leaves uncle and parent black and grandparent red |
| DraftRedBlackTree.RotateLeftWellformed | src/RedBlackTree.java:147-177 | the draft left rotation keeps the heap well formed |
| DraftRedBlackTree.RotateRightWellformed | src/RedBlackTree.java:179-209 | the draft right rotation keeps the heap well formed |
| DraftRedBlackTree.PaintWellformed | src/RedBlackTree.java:236-238 | a colour write keeps the draft heap well formed |
| DraftRedBlackTree.Arena.SiblingLinks | src/RedBlackTree.java:211-228 | the parent's child links of a node are the tree's children at that position, `null` for a missing child |
| DraftRedBlackTree.Arena.constructor | src/RedBlackTree.java:40-49 | a new draft tree is one black node, valueless when given `null` |
| DraftRedBlackTree.Arena.WithColor | src/RedBlackTree.java:58-67 | the same with the given colour |
| DraftRedBlackTree.Arena.LookUpNode | src/RedBlackTree.java:75-98 | the draft `lookUpNode` on the heap returns what `LookUpAsWritten` finds, else `null` |
| DraftRedBlackTree.Arena.Min | src/RedBlackTree.java:123-126 | the draft `min` returns the pure minimum's node |
| DraftRedBlackTree.Arena.Max | src/RedBlackTree.java:133-136 | the draft `max` returns the pure maximum's node |
| DraftRedBlackTree.Arena.SuccessorNode | src/RedBlackTree.java:105-107 | the draft `successorNode` returns the pure successor's node |
| DraftRedBlackTree.Arena.PredecessorNode | src/RedBlackTree.java:114-116 | the draft `predecessorNode` returns the pure predecessor's node |
| DraftRedBlackTree.Arena.GetSibiling | src/RedBlackTree.java:211-228 | `getSibiling` is `null` at the root, else the parent's other child (or `null`) |
| DraftRedBlackTree.Arena.SetColor | src/RedBlackTree.java:236-238 | a colour write recolours exactly that node |
| DraftRedBlackTree.Arena.RotateLeft | src/RedBlackTree.java:147-177 | `rotateleft` does nothing without a right child, else rotates the heap and the tree left |
| DraftRedBlackTree.Arena.RotateRight | src/RedBlackTree.java:179-209 | `rotateRight` does nothing without a left child, else rotates right |
| DraftRedBlackTree.Arena.Balance | src/RedBlackTree.java:230-243 | the draft `balance` changes only colours, as `BalanceTree` describes |
| DraftRedBlackTree.Arena.Insert | src/RedBlackTree.java:143-145 | the draft `insert` leaves the tree unchanged |
| InsertionRepair.ZigZagLeavesRedRed | src/main/RedBlackTree.java:387-397 | inserting 2 into the red-black tree 3(black) with left child 1(red) finishes without error but leaves a red node below a red node |
| InsertionRepair.ZigZagRepaired | src/main/RedBlackTree.java:387-397 | the repaired insertion of the same key gives 2(black) with red children 1 and 3 |
| InsertionRepair.BalanceInsertionRepairs | src/main/RedBlackTree.java:361-417 | the repaired `balanceInsertion`, called with the only possible violation at the new node's parent, finishes with all colour rules and a black root |
| InsertionRepair.RedUncleStep | src/main/RedBlackTree.java:376-382 | red-uncle recolouring moves the only possible violation up to the grandparent and keeps black heights |
| InsertionRepair.ZigZagStep | src/main/RedBlackTree.java:387-397 | after the zig-zag rotation, the old parent is the node that may violate the rules |
| InsertionRepair.AlignedStep | src/main/RedBlackTree.java:398-413 | the aligned rotation and recolouring remove the violation and keep black heights |
| InsertionRepair.BalanceInsertionKeeps | src/main/RedBlackTree.java:361-417 | the repaired balancing only rotates and recolours |
| InsertionRepair.InsertKeepsRedBlack | src/main/RedBlackTree.java:206-231 | repaired `insert` into a red-black tree gives a red-black tree with the key added, so its height stays within 2 log2(n+1) |
| InsertionRepair.InsertNewKey | src/main/RedBlackTree.java:212-229 | for an absent key, the repaired `insert` links one new node and the result is a red-black tree with exactly that key and node more |
| DeletionRepair.RedNephewUnbalances | src/main/RedBlackTree.java:489-531 | deleting 15 from a red-black tree whose far nephew 35 is red below a red parent finishes without error, and the result has unequal black heights |
| DeletionRepair.RedNephewRepaired | src/main/RedBlackTree.java:489-531 | the repaired deletion of the same key gives 10(black) over 5(black) and 30(red), and 30 has black children 20 and 35 |
| DeletionRepair.NearNephewBreaksLinks | src/main/RedBlackTree.java:514-525 | deleting 3 from a red-black tree whose near nephew 6 is red below the root reaches the hand-written link updates, which break the tree's links |
| DeletionRepair.RightNodeBreaksLinks | src/main/RedBlackTree.java:549-552 | deleting 15, a right child with a red sibling, from a red-black tree reaches the left rotation around the sentinel, which breaks the tree's links |
| DeletionRepair.DeficientFamily | src/main/RedBlackTree.java:484-491 | around a "double black" node, the sibling `getSibling` returns is a real node on the other side, with the black height the node lacks, and black under a red parent |
| DeletionRepair.PaintRepairs | src/main/RedBlackTree.java:479-482 | painting a red node at the "double black" position black restores all colour rules |
| DeletionRepair.RestructureNephewRepairs | src/main/RedBlackTree.java:493-531 | the repaired red-nephew restructuring gives a subtree with the colour rules, the parent's colour and the height the parent lacked |
| DeletionRepair.NephewRepairs | src/main/RedBlackTree.java:489-531 | so the repaired red-nephew case ends the rebalancing with all colour rules restored |
| DeletionRepair.RecolourRepairs | src/main/RedBlackTree.java:532-538 | a black sibling with black children turns red, and a red parent (or the root) turns black: all colour rules hold, and the rebalancing finishes |
| DeletionRepair.RecolourMovesUp | src/main/RedBlackTree.java:539-546 | with a black parent below the root, the recolouring makes the parent the "double black" node |
| DeletionRepair.LiftSiblingRepairs | src/main/RedBlackTree.java:549-557 | the repaired rotation towards the node, with the recolouring, puts the node below a red node whose other child is black, and keeps black heights |
| DeletionRepair.LiftRepairs | src/main/RedBlackTree.java:549-559 | after the repaired red-sibling adjustment the node is the "double black" node again, two levels lower |
| DeletionRepair.LiftedBelow | src/main/RedBlackTree.java:549-559 | after the adjustment the node has the same subtree, the same number of nodes outside it and a smaller sibling subtree, so the repeated call terminates |
| DeletionRepair.BalanceDeletionRepairs | src/main/RedBlackTree.java:477-562 | the repaired `balanceDeletion` on a "double black" node always finishes and restores a black root, no red node with a red child and equal black heights |
| DeletionRepair.SiblingStepRepairs | src/main/RedBlackTree.java:484-560 | the same for the repaired sibling cases |
| DeletionRepair.RestructureNephewKeeps | src/main/RedBlackTree.java:493-531 | the repaired red-nephew restructuring keeps nodes, in-order keys and distinct handles |
| DeletionRepair.LiftSiblingKeeps | src/main/RedBlackTree.java:549-557 | the repaired red-sibling rotation keeps nodes, in-order keys and distinct handles |
| DeletionRepair.BalanceDeletionKeeps | src/main/RedBlackTree.java:477-562 | the repaired `balanceDeletion` never stops with `BrokenLinks`, and keeps nodes and in-order keys |
| DeletionRepair.SiblingStepKeeps | src/main/RedBlackTree.java:484-560 | the same for the repaired sibling cases |
| DeletionRepair.RemoveNodeKeeps | src/main/RedBlackTree.java:449-456 | with the repaired balancing, removing a node with at most one child drops exactly its key and handle; the sole node of the tree stays |
| DeletionRepair.RemoveSuccessorKeeps | src/main/RedBlackTree.java:457-463 | with the repaired balancing, the two-child case drops the deleted key and the successor's node |
| DeletionRepair.RemoveNodeRepairs | src/main/RedBlackTree.java:449-456 | with the repaired balancing, removing a node with at most one child from a tree with the colour rules finishes and keeps them |
| DeletionRepair.RemoveSuccessorRepairs | src/main/RedBlackTree.java:457-463 | the same for the two-child case |
| DeletionRepair.DeleteKeepsRedBlack | src/main/RedBlackTree.java:441-468 | repaired `delete` on a red-black tree always finishes; an absent key or the sole node leaves the tree as it was; otherwise k is gone, every other key stays, one node goes, and the result is a red-black tree, so its height stays within 2 log2(n+1) |

## Left out

- Java reference comparison is modelled as value equality. This affects `insert` (`nodeValue != item`, src/main/RedBlackTree.java:212) and `lookUpNode` (`==`, src/main/BinarySearchTree.java:137). With references, an equal but distinct key would overwrite the found node's right subtree.
- Generics and `Comparable`: keys are `int` compared with `<`.
- The second constructor of src/main/BinarySearchTree.java:35-40 does not type-check as written, and the `getValue` accessors are trivial. Both are left out.
- The test harness (JUnit, array shuffling) is left out. Its floating-point bound `height <= 2 log(n+1)/log 2` is stated as `2^height <= (n+1)^2`.
- RedBlackTree.Arena.GetRoot: the parent walk is bounded by the number of references ever allocated. A walk from the sentinel through a stale `parent` chain that leaves the tree is not followed.
- RedBlackTree.Arena.Delete: after deleting the sole key, the returned node is only known to be whatever the bounded walk from the sentinel gives. The source returns `nullLeaf.getRoot()`, which depends on the sentinel's stale parent.
- Where the source would leave parent and child links that disagree, the model stops with `BrokenLinks` and does not follow the corrupted heap any further. These places are the hand-written double rotations below the root (src/main/RedBlackTree.java:500-508, 517-525, including the `uncleRedChild.parent` write at :518) and the left rotation at a sentinel with a red left sibling (:552).
- RedBlackSpec.DeleteRemoves, RedBlackSpec.DeleteFound, RedBlackSpec.RemoveNodeKeeps, RedBlackSpec.RemoveSuccessorKeeps, RedBlackSpec.BalanceDeletionKeeps, RedBlackSpec.RedNephewKeeps, RedBlackTree.Arena.RemoveNode, RedBlackTree.Arena.RemoveSuccessor and RedBlackTree.Arena.Delete: what they state about keys and nodes holds only when the balancing does not stop with `BrokenLinks`. A red-black tree can reach that stop (`DeletionRepair.NearNephewBreaksLinks`, `DeletionRepair.RightNodeBreaksLinks`), and from there the Java heap no longer holds one tree.
- RedBlackSpec.DeleteRemoves: states key set, order and nodes after `delete`, but not the colour rules, because `balanceDeletion` as written does not restore them (`DeletionRepair.RedNephewUnbalances`). The colour rules after a deletion, and with them the delete half of the test's height bound, are proved for the repaired deletion (`DeletionRepair.DeleteKeepsRedBlack`).
- DeletionRepair.Delete: models `delete` called on the root only; the recursive call on the successor is modelled through `RemoveSuccessor`. The repaired rebalancing is defined on pure trees, not on the heap.
- RedBlackTree.Arena.Insert and RedBlackTree.Arena.BalanceInsertion: follow the source's zig-zag case, so the colour rules after an insertion are proved only for the repaired insertion (`InsertionRepair`).
- The draft's `insert` (src/RedBlackTree.java:143-145) is empty. Its `balance` (:230-243) handles only the red-uncle case, so the draft has no red-black property to prove.

## Findings

| source | as written | input that shows it | evidently intended | confidence | as-written member | corrected member |
|---|---|---|---|---|---|---|
| src/main/RedBlackTree.java:387-397 | the zig-zag case resumes balancing at the node `rotateLeft`/`rotateRight` returns, the rotated-up new node, whose parent is the black grandparent, so the old parent stays red below it | insert 2 into the tree 3 (black) with left child 1 (red) | resume at the old parent, which then gets the aligned rotation and recolouring; every insertion keeps the red-black rules | not executed | InsertionRepair.ZigZagLeavesRedRed | InsertionRepair.InsertKeepsRedBlack |
| src/RedBlackTree.java:85-95 | `lookUpNode` descends left when the node's value is smaller than the item | look up 2 in the tree 1 with right child 2 | descend right when the value is smaller; on a search tree a key is found exactly when present | not executed | DraftRedBlackTree.LookUpMissesKey | DraftRedBlackTree.LookUpIntendedFinds |
| src/main/RedBlackTree.java:531 | the red-nephew case only paints the red nephew black; the node that ends on top keeps its old colour and the old parent keeps its colour | delete 15 from 10(black) over 5(black) and 20(red), where 20 has children 15(black) and 30(black), and 30 a right child 35(red) | the node on top takes the old parent's colour and both its children turn black; every deletion keeps the red-black rules | not executed | DeletionRepair.RedNephewUnbalances | DeletionRepair.RestructureNephewRepairs |
| src/main/RedBlackTree.java:500-525 | the near red nephew is lifted by hand-written link writes that are right only at the root: below it, the grandparent still points at the old parent, and the write at :518 is immediately overwritten | delete 3 from 10(black) over 5(black) and 15(black), where 5 has children 3(black) and 7(black), 7 a left child 6(red), and 15 black children 12 and 17 | the same double rotation made of two library rotations, which keep every link | not executed | DeletionRepair.NearNephewBreaksLinks | DeletionRepair.RestructureNephewKeeps |
| src/main/RedBlackTree.java:549-552 | with a red sibling, the parent is always rotated left, also when the node is the right child, where that lifts the node itself or rotates around the sentinel | delete 15 from 10(black) over 5(red) and 15(black), where 5 has black children 3 and 7 | rotate the parent towards the node's side, so that the node ends two levels lower below a black sibling | not executed | DeletionRepair.RightNodeBreaksLinks | DeletionRepair.LiftRepairs |
