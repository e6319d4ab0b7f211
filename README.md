# Binary search tree of Code/bstree.c, modelled in Dafny

The C library keeps integer keys in an unbalanced binary search tree whose
nodes carry a parent back-link and two child links. It offers insertion,
search, removal, subtree-local successor and predecessor, the three
recursive depth-first visitors, an iterative infix walk that follows the
parent links instead of using a stack, an iterative breadth-first visit
over a FIFO queue, and an external cursor.

The model has three modules:

- `Trees` (trees.dfy) holds value trees `Tree<T>`. On them it defines the
  visit orders, the ordering invariant (keys left of a node are smaller,
  keys right of it are at least as large, since add sends equal keys
  right) and the add, search and remove operations as pure functions.
  These are the specification the heap operations are proved against.
- `Store` (store.dfy) is the heap: a map from node ids to node records
  (`struct _bstree`). `Linked(nodes, shape)` says the map's links are
  exactly those of the id tree `shape`. `Abs(nodes, shape)` reads off the
  keys. The lemmas here are the heap-level facts behind the operations:
  what attaching a leaf, swapping keys and clearing a slot do to the
  links and keys.
- `BSTree` (bstree.dfy) holds the class `BinarySearchTree`. Its fields are
  `nodes`, `handle` (the caller's `*t`), `nextId` (the next address handed
  out) and the ghost `shape`. The C functions that change the heap or loop
  over it are methods. The contracts of most of them tie the new heap, or
  the nodes handed out, to the value functions of `Trees`; `SwapNodes` is
  stated through `Store.SwapKeys`, and `ClimbToRoot` through the root of
  the shape. The recursive visitors are `Trees` functions applied to the
  shape, and the accessors and `bstree_cons` have no members of their own
  (see "Left out").
  The cursor is the class `BSTreeIterator`, with a `Direction` enumeration
  in place of the two stored functions.

The model follows the code as written, including where it departs from
the textbook behaviour of a binary search tree:

- `bstree_add` moves the caller's handle itself down the search path and
  then climbs back to the root. When the descent ends at a node whose key
  equals v, the new leaf gets that node as parent but is linked into
  neither child slot.
- `bstree_remove_node` at a node with a right child moves in the key at
  the end of the right subtree's left spine, then drops the whole right
  subtree. The mirror case, with only a left child, drops the left
  subtree. The key bag therefore loses more than v. For example,
  removing 5 from the tree built from 5, 3, 8, 1, 4, 7, 9 leaves the
  infix order 1, 3, 4, 7; a textbook removal would leave 1, 3, 4, 7, 8, 9.
  The model follows the code (`Examples.RemoveRootOfSeven`).
- `goto_min`, commented "minimum element of the collection"
  (Code/bstree.c:341), chains the subtree-local predecessor, so it stops at
  the first node without a left child. That node need not be the minimum: on
  5(3(1, 4), 8) it stops at 4, and an ascending cursor then hands out 4
  alone (`Examples.CursorOnFive`). No claim is made that the cursor visits
  the keys in infix order.
- The breadth-first visit stops as soon as the queue is empty after a
  pop. It only covers a tree whose starting node has at least
  one child: with no child, `queueTop` is applied to an empty queue. On
  the chain built from 1, 2, 3, 4 it stops after 1 and 2
  (`Examples.BreadthVisitChain`). On the heap tree built by adding 5, 3,
  8, 1, 4 it hands out the keys 5, 3, 8, 1, 4 from the root
  (`Examples.BreadthOfBuiltFive`).

## Model

| member | source | states |
|---|---|---|
| Trees.PrefixBag | Code/bstree.c:238-248 | the prefix visit hands out every node of the tree exactly once (same multiset, same count), the root first |
| Trees.InfixBag | Code/bstree.c:250-258 | the infix visit hands out every node exactly once, the root right after the whole left subtree |
| Trees.PostfixBag | Code/bstree.c:260-268 | the postfix visit hands out every node exactly once, the root last |
| Trees.VisitorsPermute | Code/bstree.c:238-268 | the three depth-first visitors are permutations of one another and all have the tree's size |
| Trees.InfixSorted | Code/bstree.c:250-258 | on an ordered tree the infix visit is non-decreasing |
| Trees.InfixStrictlySorted | Code/bstree.c:250-258 | on a tree with distinct ordered keys the infix visit is strictly increasing |
| Trees.LevelOrderBag | Code/bstree.c:296-326 | the level order hands out every node exactly once, starting with the root |
| Trees.LevelOrderOfBag | Code/bstree.c:306-322 | draining a FIFO queue of subtrees hands out exactly the nodes of the queued subtrees |
| Trees.BreadthLevelOrder | Code/bstree.c:306-322 | the queue loop as written, which stops when a pop empties the queue, hands out the level order of the queue minus exactly the level order of the last node's children, and that last node is the one it hands out last |
| Trees.BreadthVisitPrefix | Code/bstree.c:296-326 | the visit from a node with a child is that node's level order short by the level order of the last node's children: a prefix of it, and all of it exactly when the last node has no children |
| Trees.LeftSpine | Code/bstree.c:133-140 | the walk down left links ends at a node of the subtree with no left child |
| Trees.RightSpine | Code/bstree.c:149-155 | the walk down right links ends at a node of the subtree with no right child |
| Trees.LeftSpineIsMin | Code/bstree.c:130-144 | on an ordered tree the end of the left spine holds the least key |
| Trees.RightSpineIsMax | Code/bstree.c:146-159 | on an ordered tree the end of the right spine holds the greatest key |
| Trees.PredecessorChain | Code/bstree.c:342-354 | chaining predecessors ends at a node of the subtree without a left child |
| Trees.SuccessorChain | Code/bstree.c:357-369 | chaining successors ends at a node of the subtree without a right child |
| Trees.PredecessorChainBelow | Code/bstree.c:342-354 | on an ordered tree goto_min's node holds a key no greater than the start's, strictly smaller when the start has a left child |
| Trees.SuccessorChainAbove | Code/bstree.c:357-369 | on an ordered tree goto_max's node holds a key no smaller than the start's |
| Trees.SuccessorChainAboveStrict | Code/bstree.c:357-369 | with distinct ordered keys, goto_max's node holds a key strictly greater than the start's when the start has a right child (with equal keys it need not, as `Examples.SuccessorOfEqualKeys` shows) |
| Trees.SuccessorWalkElems | Code/bstree.c:392-395 | every node an ascending cursor reaches lies in the start's subtree, and after the first in its right subtree |
| Trees.PredecessorWalkElems | Code/bstree.c:392-395 | every node a descending cursor reaches lies in the start's subtree, and after the first in its left subtree |
| Trees.SuccessorWalkSorted | Code/bstree.c:392-395 | on an ordered tree the keys an ascending cursor hands out are non-decreasing |
| Trees.PredecessorWalkDescending | Code/bstree.c:392-395 | on an ordered tree the keys a descending cursor hands out strictly decrease |
| Trees.SearchCorrect | Code/bstree.c:111-128 | search reports only keys that are present, and on an ordered tree it reports exactly the present keys |
| Trees.DescentLast | Code/bstree.c:81-92 | the insertion descent ends at a node of the tree, unless the tree is empty |
| Trees.AddTreeKeys | Code/bstree.c:74-109 | add keeps every key and adds v; the tree grows by one node unless the descent ends at a node holding v, when nothing changes |
| Trees.AddTreeBag | Code/bstree.c:74-109 | unless the descent ends at a node holding v, the key bag gains exactly one v |
| Trees.AddTreeOrdered | Code/bstree.c:74-109 | add keeps the search-tree order |
| Trees.AddThenSearch | Code/bstree.c:74-128 | a key just added is found by search, on any tree |
| Trees.RemoveAbsent | Code/bstree.c:214-216 | removing a key that search does not find changes nothing |
| Trees.RemoveKeys | Code/bstree.c:174-234 | removal never introduces a key |
| Trees.RemoveOrdered | Code/bstree.c:174-234 | removal keeps the search-tree order |
| Trees.RemoveStrict | Code/bstree.c:174-234 | with distinct ordered keys, v is gone after removal and the keys stay distinct and ordered |
| Store.FindKey | Code/bstree.c:219-231 | the search descent stops at a node exactly when search succeeds, and that node is in the tree and holds v |
| Store.FindId | Code/bstree.c:12-17 | a node id of the shape names the subtree rooted at that node |
| Store.AddParent | Code/bstree.c:81-92 | the parent `par` the descent settles on is a node of the tree, or none for the empty tree |
| Store.Attach | Code/bstree.c:94-103 | the new leaf record has the descent's last node as parent and no children; only that parent's child slot changes, and keys stay |
| Store.AddWellFormed | Code/bstree.c:74-109 | attaching the new leaf yields a well-formed heap of the new shape, whose keys are AddTree of the old keys |
| Store.AddLinked | Code/bstree.c:94-103 | the attached leaf is linked exactly as the new shape prescribes |
| Store.AddAbs | Code/bstree.c:94-103 | the keys of the new shape are AddTree of the old keys |
| Store.ParentIsHigher | Code/bstree.c:105-107 | a node's parent is strictly nearer the root, so the climb ends |
| Store.ParentHolds | Code/bstree.c:193-201 | a leaf other than the root has a parent that holds it in a child slot |
| Store.SwapClearRight | Code/bstree.c:178-184 | swapping keys with the successor and clearing the right slot change no other link |
| Store.SwapClearLeft | Code/bstree.c:186-191 | swapping keys with the predecessor and clearing the left slot change no other link |
| Store.RemoveWithRightKeys | Code/bstree.c:178-184 | the removed node takes the successor's key, its right subtree goes, and keys elsewhere stay |
| Store.RemoveWithRight | Code/bstree.c:178-184 | removing at a node with a right child leaves a well-formed heap of the pruned shape with the keys RemoveRoot prescribes |
| Store.RemoveWithLeft | Code/bstree.c:186-191 | the same at a node with only a left child, with the predecessor and the left subtree |
| Store.RemoveLeaf | Code/bstree.c:193-206 | removing a leaf that is not the root detaches it from its parent and leaves a well-formed heap |
| Store.RemoveAbs | Code/bstree.c:211-234 | pruning where the search stops gives exactly RemoveTree on the keys |
| Store.InfixAbs | Code/bstree.c:270-294 | the keys of the infix order of the shape are the infix order of the key tree |
| Store.LevelOrderAbs | Code/bstree.c:296-326 | the keys of the level order of the shape are the level order of the key tree |
| Store.BreadthAbs | Code/bstree.c:306-322 | the keys of the nodes the queue loop as written hands out are what the same loop hands out on the key tree |
| Store.BreadthVisitAbs | Code/bstree.c:296-326 | the keys of the breadth visit of the shape from a node are the breadth visit of the key tree from that node |
| Store.AbsSuccessorWalk | Code/bstree.c:392-395 | the keys of an ascending cursor's nodes are the ascending walk of the key tree |
| Store.AbsPredecessorWalk | Code/bstree.c:392-395 | the keys of a descending cursor's nodes are the descending walk of the key tree |
| Store.AbsPredecessorChain | Code/bstree.c:342-354 | goto_min on the shape and on the key tree stop at the same node |
| Store.AbsSuccessorChain | Code/bstree.c:357-369 | goto_max on the shape and on the key tree stop at the same node |
| BSTree.BinarySearchTree.constructor | Code/bstree.c:21-23 | a new tree is the empty handle over an empty heap |
| BSTree.BinarySearchTree.Search | Code/bstree.c:111-128 | the result is the value-level search, which on an ordered tree means v is a key |
| BSTree.BinarySearchTree.Add | Code/bstree.c:74-109 | the new heap is the old one with the leaf attached at the end of the descent; the handle is the root again; the keys become AddTree of the old keys, and order is kept |
| BSTree.BinarySearchTree.ClimbToRoot | Code/bstree.c:105-107 | following parent links from the new leaf reaches the root, the heap unchanged |
| BSTree.BinarySearchTree.Successor | Code/bstree.c:130-144 | the result is the end of the left spine of x's right subtree, or none exactly when x has no right child; on an ordered tree it holds that subtree's least key |
| BSTree.BinarySearchTree.Predecessor | Code/bstree.c:146-159 | the result is the end of the right spine of x's left subtree, or none exactly when x has no left child; on an ordered tree it holds that subtree's greatest key |
| BSTree.BinarySearchTree.SwapNodes | Code/bstree.c:161-171 | the two keys are exchanged and no link, shape or handle changes |
| BSTree.BinarySearchTree.RemoveNode | Code/bstree.c:174-209 | each of the three cases gives its heap update; the shape loses the dropped subtree; the keys there are RemoveRoot and keys elsewhere stay |
| BSTree.BinarySearchTree.Remove | Code/bstree.c:211-234 | the keys become RemoveTree of the old keys; a failed search changes nothing; order, and with distinct keys the absence of v, follow |
| BSTree.BinarySearchTree.IterativeDepthInfix | Code/bstree.c:270-294 | the parent-link walk hands out the nodes in infix order, so their keys are the infix order of the key tree |
| BSTree.BinarySearchTree.IterativeBreadthPrefix | Code/bstree.c:296-326 | the nodes handed out are exactly `BreadthVisit` of x's subtree: x, then the queue loop that stops when a pop empties it; hence a prefix of the level order, all of it exactly when the last node is a leaf, and their keys exactly `BreadthVisit` of the key subtree, a prefix of its level order |
| BSTree.BinarySearchTree.GotoMin | Code/bstree.c:342-354 | the node reached is the end of the predecessor chain, has no left child, holds the key at the end of the key tree's predecessor chain, and on an ordered tree that key is no greater than the start's |
| BSTree.BinarySearchTree.GotoMax | Code/bstree.c:357-369 | the node reached is the end of the successor chain, has no right child, holds the key at the end of the key tree's successor chain, and on an ordered tree that key is no smaller than the start's |
| BSTree.AdvanceFacts | Code/bstree.c:277-293 | one pass of the walk moves down, across or up and keeps the infix order still owed, with a strictly smaller budget |
| BSTree.WalkPass | Code/bstree.c:278-292 | the three tests of a pass emit the node exactly when its left subtree is done and move exactly as the ghost position does |
| BSTree.WalkTests | Code/bstree.c:278-290 | the test against the parent succeeds exactly on arrival from above; arrival from a child is told apart from arrival from the other |
| BSTree.BreadthPass | Code/bstree.c:306-322 | pushing the children and popping the front keeps the queue equal to the level order still owed |
| BSTree.BreadthEnd | Code/bstree.c:322 | when the queue runs empty, the nodes handed out are the level order of the start's subtree up to the last node popped |
| BSTree.CursorWalkStep | Code/bstree.c:392-395 | the walk from a node is that node followed by the walk from the node the step function reaches |
| BSTree.BSTreeIterator.constructor | Code/bstree.c:330-339 | a cursor is attached to the tree's root, with a direction, and not yet positioned |
| BSTree.BSTreeIterator.Begin | Code/bstree.c:383-386 | the cursor moves to goto_min (ascending) or goto_max (descending) of the root; on an ordered tree the keys of the walk from there rise or fall |
| BSTree.BSTreeIterator.End | Code/bstree.c:388-390 | end holds exactly when the cursor is absent, which is exactly when every node of the walk has been handed out |
| BSTree.BSTreeIterator.Next | Code/bstree.c:392-395 | the current node joins the handed-out ones and the cursor moves to the node the direction's step function reaches |
| BSTree.BSTreeIterator.Value | Code/bstree.c:397-399 | the value is the next node of the walk, and none exactly when the walk is over |

## Left out

- Allocation and release (`malloc`, `free`) are not modelled. Freed
  nodes, and nodes of a dropped subtree, stay in the map, unreachable
  from the handle. Ids are handed out by the counter `nextId`.
- The accessors `bstree_empty`, `bstree_root`, `bstree_left`,
  `bstree_right` and `bstree_parent` have no members of their own. Inside
  the methods they are reads of a node record in `nodes`. Their
  empty-node assertions become the requirement that the node is in the
  tree.
- The private constructor `bstree_cons` has no member of its own either.
  It only occurs in `bstree_add`, where it is the new leaf record of
  `Store.Attach`.
- `bstree_delete` is left out because it never returns normally. It calls
  `bstree_remove_node` on the root `*t` until `*t` is NULL. Each call on a
  root with a child moves a key into the root and drops a subtree, and
  nothing ever sets `*t` to NULL. Once the root is a leaf, the call reads
  the parent of that root, which is NULL (Code/bstree.c:195).
- `bstree_iterator_create` is left out because it is an unimplemented stub
  returning NULL. `BSTreeIterator.constructor` instead builds the cursor
  that the field comments of `struct _BSTreeIterator` describe
  (Code/bstree.c:330-339): the collection, a direction fixing the begin
  and next functions, and no current node yet.
  `bstree_iterator_delete` only frees and is left out.
- The queue of `queue.h` is not part of this model. It becomes a sequence
  with push at the back and pop at the front.
- The `OperateFunctor` callbacks and their `userData` are not modelled.
  Each visitor instead returns the sequence of nodes it would pass to
  the callback, in order. The recursive visitors are the value functions
  `Trees.Prefix`, `Trees.Infix` and `Trees.Postfix` applied to the shape.
- An `assert` that aborts the program becomes a precondition. This holds
  for the node arguments of successor, predecessor, swap and
  remove-node, for the start of the iterative infix walk, and for begin
  on an empty tree.
- A dereference of a NULL pointer becomes a precondition as well.
  `RemoveNode` requires that its node is not a root leaf, and `Remove`
  that the tree is not a single leaf holding v: in both cases the source
  reads the parent of a node that has none (Code/bstree.c:195).
- Node arguments (`Successor(x)`, `GotoMin(e)`,
  `IterativeBreadthPrefix(x)`, ...) must be nodes reachable from the
  handle. The source accepts any node address. A node outside the tree
  has no shape against which its behaviour could be stated.
- BSTree.BinarySearchTree.IterativeDepthInfix: starts only from the
  root, not from an arbitrary subtree node. Its requirement of a
  non-empty tree is the source's own: on an empty tree `bstree_parent`
  fails its assertion (Code/bstree.c:67, called at :274).
- BSTree.BinarySearchTree.IterativeBreadthPrefix: requires the starting
  node to have a child. With no child the source calls `queueTop` on an
  empty queue. The model treats the top of an empty queue as outside the
  queue's contract, so this case is a precondition.
- BSTree.BinarySearchTree.GotoMin: calls `Predecessor` once per step and
  reuses the result. The source calls it twice, on the same node and
  with the same answer. `GotoMax` does the same with `Successor`.
- BSTree.BinarySearchTree.Remove: requires that the tree is not a single
  leaf holding v. In that case the source dereferences the node's
  missing parent.
- BSTree.BSTreeIterator.Begin: requires a non-empty collection, because
  goto_min and goto_max of an empty tree fail the assertion in
  predecessor or successor.
