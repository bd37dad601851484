# Left-leaning red-black tree and plain binary search tree, in Dafny

This project models the ordered symbol table `RedBlackBST` of
`red_black_bst/tree.h` and the unbalanced `BinarySearchTree` of
`binary_search_tree/tree.h`. The LLRB tree encodes a 2-3 tree as a binary
tree with one colour bit per node. The model proves three things:

- every public mutation (`Put`, `DelMin`, `DelMax`, `Delete`) preserves
  `Valid`: the four checks the class ships (`IsBST`, `IsSizeConsistent`,
  `Is23Tree`, `IsBalanced`) plus a black root. The four checks alone are
  not preserved: they admit a red root with a red left child, and `Put`
  can break `Is23Tree` from such a tree (`FourChecksAdmitRedPair`,
  `RedPairRootBreaksPut`);
- each mutation changes the key set exactly as promised;
- the queries and traversals compute what their names say.

A node is `Node(tag, left, key, size, right)`:

- `size` is the stored `sub_node_num` counter;
- `tag` is the colour for the LLRB tree and `()` for the plain tree, so the
  queries, the traversals and the ordering and size predicates are defined
  once for both.

Keys are mathematical integers. Subtrees are immutable values, so each
operation that rebuilds a path returns a new tree. A query that returns a
node pointer returns the key it carries instead (`Get` returns the
subtree), with `None` for null.

Files and modules:

- `binary_tree.dfy` (`BinaryTree`): the node record, the recursive
  traversals, and `IsBST` and `IsSizeConsistent` with independent
  characterisations.
- `queries.dfy` (`Queries`): `Get`, `Min`, `Max`, `Floor`, `Ceiling`,
  `Rank`, `Select`, `Height`.
- `traversal.dfy` (`Traversal`): the explicit-stack traversals, proved equal
  to the recursive ones.
- `llrb.dfy` (`RedBlack`): colours, `Is23Tree`, `IsBalanced` and the
  shapes the descents pass through.
- `rotations.dfy` (`Rotations`): `RotateLeft`, `RotateRight`, `FlipColor`,
  `Balance`, `MoveRedLeft`, `MoveRedRight`.
- `llrb_put.dfy` (`LlrbPut`) and `llrb_delete.dfy` (`LlrbDelete`): the
  recursive mutations and the invariant each recursive call keeps.
- `red_black_bst.dfy` (`RedBlackBst`): the public wrappers that recolour
  the root, and the preservation theorems.
- `bst.dfy` (`Bst`): the plain tree's mutations, with Hibbard deletion.

The descents keep these invariants:

- `LeftLeaning`: no red right link anywhere, and no red node with a red
  left child.
- Deletion keeps the current node in a 3-node or a temporary 4-node
  (`OneRed`: exactly one of the node and its two children is red).
- Every function returns a tree of the same black height.

Where the code and a plain reading of the operation names differ, the model
follows the code:

- `Floor` and `Ceiling` are strict. `x <= key` always descends left, so
  `Floor` returns the greatest key strictly below `x` and never `x` itself.
- `Rank` of a present key is its 1-based position.
- `Rank` returns 0 whenever the search fails, even where keys smaller than
  the argument exist.

## Model

| member | source | states |
|---|---|---|
| RedBlack.NewNode | red_black_bst/node.h:13-19 | a fresh node is red, holds exactly the given key, counts one node and is size-consistent |
| Bst.NewNode | binary_search_tree/node.h:13-16 | a fresh node has no children, holds the given key, and has a counter of one that is consistent |
| BinaryTree.Size | red_black_bst/tree.h:696-704 | definition: 0 for null, otherwise the stored counter; `SizeIsCount` relates it to the node count |
| BinaryTree.IsSizeConsistent | red_black_bst/tree.h:343-356 | definition of the recursive counter check; characterised by `IsSizeConsistentIff` |
| BinaryTree.IsSizeConsistentIff | red_black_bst/tree.h:343-356 | the counter check holds iff every subtree is a node whose counter equals its node count |
| BinaryTree.InOrder | red_black_bst/tree.h:517-526 | the recursive in-order visit has one entry per node; `OrderedIffInOrderIncreasing` and `InOrderHasKeys` characterise it |
| BinaryTree.PreOrder | red_black_bst/tree.h:556-565 | the recursive pre-order visit has one entry per node; `TraversalsArePermutations` relates it to the in-order visit |
| BinaryTree.PostOrder | red_black_bst/tree.h:594-603 | the recursive post-order visit has one entry per node; `TraversalsArePermutations` relates it to the in-order visit |
| BinaryTree.InsertCount | red_black_bst/tree.h:222-258 | an ordered tree that gains the key `k` grows by one node exactly when `k` was absent |
| BinaryTree.SizeIsCount | red_black_bst/node.h:26-27 | in a size-consistent tree the stored counter is the number of nodes in the subtree |
| BinaryTree.IsBSTIffOrdered | red_black_bst/tree.h:294-310 | the bounded `IsBST` check holds exactly when every left key is below and every right key above each node |
| BinaryTree.IsBSTWithinIffOrdered | red_black_bst/tree.h:294-310 | `IsBST(node, min, max)` holds iff the subtree is ordered and all its keys lie strictly within the bounds |
| BinaryTree.OrderedIffInOrderIncreasing | red_black_bst/tree.h:517-526 | a tree is a BST iff `MiddleOrderWithRecursion` visits its keys in strictly increasing order |
| BinaryTree.InOrderHasKeys | red_black_bst/tree.h:517-526 | the in-order visit meets every stored key and has one entry per node |
| BinaryTree.TraversalsArePermutations | red_black_bst/tree.h:556-603 | pre-order and post-order visits see the same multiset of keys as the in-order visit |
| BinaryTree.OrderedCountIsKeys | red_black_bst/tree.h:294-310 | in an ordered tree no key is stored twice: the node count is the number of distinct keys |
| BinaryTree.SameInOrder | red_black_bst/tree.h:517-526 | two trees with the same in-order visit hold the same keys and are both ordered or both not |
| BinaryTree.DropFirstKey | red_black_bst/tree.h:358-372 | a tree listing all but the first key of an ordered tree is ordered and lacks exactly the minimum |
| BinaryTree.DropLastKey | red_black_bst/tree.h:374-394 | a tree listing all but the last key of an ordered tree is ordered and lacks exactly the maximum |
| Queries.Contains | red_black_bst/tree.h:55-58 | `IsExists(key)`: a found key is stored in the tree |
| Queries.ContainsIsMembership | red_black_bst/tree.h:55-58 | in an ordered tree `IsExists` holds exactly when the key is stored |
| Queries.Get | red_black_bst/tree.h:261-279 | a found node carries the key searched for and lies in the tree |
| Queries.GetFindsStoredKeys | red_black_bst/tree.h:261-279 | in an ordered tree `Get` finds a key exactly when the key is stored (so `IsExists` is membership) |
| Queries.Min | red_black_bst/tree.h:396-410 | null exactly for the empty tree; otherwise the first key of the in-order sequence |
| Queries.Max | red_black_bst/tree.h:412-426 | null exactly for the empty tree; otherwise the last key of the in-order sequence |
| Queries.MinMaxAreExtremes | binary_search_tree/tree.h:210-240 | in an ordered tree every key lies between `Min` and `Max` |
| Queries.Floor | red_black_bst/tree.h:473-492 | a returned key is stored and strictly below the argument |
| Queries.FloorIsStrictPredecessor | red_black_bst/tree.h:473-492 | in an ordered tree `Floor` is null iff no key is below `x`, and otherwise the greatest key strictly below `x` |
| Queries.Ceiling | red_black_bst/tree.h:495-514 | a returned key is stored and strictly above the argument |
| Queries.CeilingIsStrictSuccessor | red_black_bst/tree.h:495-514 | in an ordered tree `Ceiling` is null iff no key is above `x`, and otherwise the least key strictly above `x` |
| Queries.Rank | red_black_bst/tree.h:449-470 | an absent key has rank 0 |
| Queries.RankIsPosition | red_black_bst/tree.h:449-470 | in an ordered, size-consistent tree a present key's rank is its 1-based position in the in-order sequence; an absent key's is 0 |
| Queries.Select | red_black_bst/tree.h:428-446 | a returned key is stored in the tree |
| Queries.SelectIsPosition | red_black_bst/tree.h:428-446 | in a size-consistent tree `Select(i)` is the i-th smallest key (1-based) when 1 <= i <= size, and null otherwise |
| Queries.RankOfSelect | red_black_bst/tree.h:428-470 | `Rank(Select(i)) == i` for every position of an ordered, size-consistent tree |
| Queries.SelectOfRank | red_black_bst/tree.h:428-470 | `Select(Rank(x))` returns `x` for every stored key |
| Queries.Height | red_black_bst/tree.h:281-292 | the height is 0 exactly for the empty tree and lies between log2 of the node count and the node count |
| Traversal.MiddleOrderWithStack | red_black_bst/tree.h:529-553 | the stack-based in-order loop emits exactly the recursive in-order sequence |
| Traversal.PreOrderWithStack | red_black_bst/tree.h:568-591 | the stack-based pre-order loop emits exactly the recursive pre-order sequence |
| Traversal.FillOutputStack | red_black_bst/tree.h:613-630 | the first loop pushes keys onto the output stack in reversed post-order |
| Traversal.LastOrderWithStack | red_black_bst/tree.h:606-636 | the two-stack loop emits exactly the recursive post-order sequence |
| Traversal.ReversePostOrderIsReversed | red_black_bst/tree.h:594-636 | the node-right-left order of the first loop is the post-order sequence reversed |
| Traversal.ReverseTwice | red_black_bst/tree.h:631-635 | reversing a sequence twice gives it back |
| RedBlack.IsRed | red_black_bst/tree.h:686-694 | definition: null counts as black, a node is red when its colour is |
| RedBlack.Is23From | red_black_bst/tree.h:312-328 | definition of the recursive check, the root exempt from the red-pair test; characterised by `LeftLeaningIff` and `Is23TreeIff` |
| RedBlack.Is23Tree | red_black_bst/tree.h:65-68 | definition: the public check starts the recursion at the root |
| RedBlack.LeftLeaningIff | red_black_bst/tree.h:312-328 | the check without the root exemption holds iff no subtree has a red right link or a red node with a red left child |
| RedBlack.Is23TreeIff | red_black_bst/tree.h:312-328 | `Is23Tree` holds iff no subtree has a red right link and no proper subtree is a red node with a red left child |
| RedBlack.Paint | red_black_bst/tree.h:37-41 | recolouring the root keeps the keys, the in-order sequence and size consistency |
| RedBlack.IsBalancedFromIff | red_black_bst/tree.h:330-341 | `IsBalanced(node, black)` holds iff every path to a null child meets exactly `black` black nodes |
| RedBlack.IsBalancedIff | red_black_bst/tree.h:70-83 | the public `IsBalanced()` holds iff all root-to-null paths meet the same number of black nodes |
| RedBlack.LeftBlackCountIsAPath | red_black_bst/tree.h:70-83 | the count along the leftmost path is the black count of one actual path |
| RedBlack.BalancedHeightIsLeftBlackCount | red_black_bst/tree.h:70-83 | a tree balanced at any height is balanced at the leftmost-path count the public check computes |
| RedBlack.BalancedHeightBound | red_black_bst/tree.h:330-341 | black heights are non-negative, and at least one below a black node |
| RedBlack.BlackLeafIffZero | red_black_bst/tree.h:330-341 | below a link that is not red, black height zero means the null child |
| RedBlack.NoLeftNoRight | red_black_bst/tree.h:358-363 | under the invariants a node without a left child has no right child, so `DelMin` returning null there drops no keys |
| RedBlack.PaintBlack | red_black_bst/tree.h:37-41 | painting the root black keeps black balance (one level higher if it was red) and satisfies `Is23Tree` |
| Rotations.RotateRight | red_black_bst/tree.h:706-726 | keeps the in-order sequence and the root counter; a no-op unless the left child is red; otherwise the lifted node takes the old colour and the demoted node is red |
| Rotations.RotateLeft | red_black_bst/tree.h:728-748 | keeps the in-order sequence and the root counter; a no-op unless the right child is red; otherwise the lifted node takes the old colour and the demoted node is red |
| Rotations.FlipColor | red_black_bst/tree.h:750-766 | changes colours only: a no-op unless both children exist with the opposite colour to the node, and otherwise inverts all three |
| Rotations.FlipColorTwice | red_black_bst/tree.h:750-766 | flipping twice gives back the original node |
| Rotations.Balance | red_black_bst/tree.h:768-793 | keeps the in-order sequence and emptiness, and recomputes a consistent counter over consistent children |
| Rotations.BalanceRestores | red_black_bst/tree.h:768-793 | over left-leaning children of equal black height, `Balance` returns a left-leaning node of the same black height, black when it began black with not both children red |
| Rotations.MoveRedLeft | red_black_bst/tree.h:795-820 | keeps the in-order sequence and size consistency; a no-op outside the red-node, two-black-left-links case |
| Rotations.MoveRedLeftShape | red_black_bst/tree.h:795-820 | leaves the left child part of a 3-node or 4-node with no red right link below it, keeps black heights, and never gives a red node a red child |
| Rotations.MoveRedRight | red_black_bst/tree.h:822-845 | keeps the in-order sequence and size consistency; a no-op outside the red-node, two-black-right-links case |
| Rotations.MoveRedRightShape | red_black_bst/tree.h:822-845 | leaves the right child part of a 3-node or 4-node, keeps black heights, and says which key ends on top |
| Rotations.RotateRightShape | red_black_bst/tree.h:376-379 | rotating a red left link of a 3-node right leaves a black top whose right child heads a 3-node or 4-node |
| LlrbPut.PutFixUp | red_black_bst/tree.h:237-257 | the bottom-up repair keeps the in-order sequence and restores the node's counter |
| LlrbPut.PutFixUpRestores | red_black_bst/tree.h:237-257 | the repair keeps black height and restores the left-leaning shape below a black node |
| LlrbPut.Put | red_black_bst/tree.h:222-258 | the result is non-empty, holds exactly the old keys plus `k`, and stays size-consistent |
| LlrbPut.PutKeepsOrder | red_black_bst/tree.h:222-258 | insertion keeps binary-search order |
| LlrbPut.PutCount | red_black_bst/tree.h:222-258 | the node count grows by one exactly when `k` was absent |
| LlrbPut.PutRestores | red_black_bst/tree.h:222-258 | insertion keeps black height; a black subtree stays left-leaning and a red one stays red with at most a red left child |
| LlrbPut.PutPresentIsIdentity | red_black_bst/tree.h:222-258 | inserting a present key into a valid subtree changes nothing |
| LlrbDelete.BorrowLeft | red_black_bst/tree.h:364-367 | the optional `MoveRedLeft` before a left descent keeps the in-order sequence, emptiness and size consistency |
| LlrbDelete.LeanRight | red_black_bst/tree.h:376-379 | the optional right rotation before a right descent keeps the in-order sequence, emptiness and size consistency |
| LlrbDelete.BorrowRight | red_black_bst/tree.h:386-389 | the optional `MoveRedRight` before a right descent keeps the in-order sequence, emptiness and size consistency |
| LlrbDelete.DelMin | red_black_bst/tree.h:358-372 | removes keys only and keeps size consistency |
| LlrbDelete.DelMinRestores | red_black_bst/tree.h:358-372 | from a prepared node, removes exactly the first in-order key, keeps black height and returns a left-leaning tree |
| LlrbDelete.DelMax | red_black_bst/tree.h:374-394 | removes keys only and keeps size consistency |
| LlrbDelete.DelMaxDescent | red_black_bst/tree.h:376-387 | the rotation and `MoveRedRight` before the descent keep the keys and hand a 3-node or 4-node to the right recursive call |
| LlrbDelete.DelMaxAtBottom | red_black_bst/tree.h:376-384 | the node cut off for lack of a right child is a red node with no children at black height zero, so dropping it keeps the shape |
| LlrbDelete.DelMaxStep | red_black_bst/tree.h:376-393 | a step that descends right removes exactly the last in-order key, keeps black height and returns a left-leaning tree |
| LlrbDelete.DelMaxIntoRight | red_black_bst/tree.h:391-393 | removing the maximum of the prepared right child and balancing drops exactly the last key of the node |
| LlrbDelete.DelMaxRestores | red_black_bst/tree.h:374-394 | from a prepared node, removes exactly the last in-order key, keeps black height and returns a left-leaning tree |
| LlrbDelete.Rebalance | red_black_bst/tree.h:683 | the closing `Balance` of the deletion functions keeps the in-order sequence and size consistency |
| LlrbDelete.Delete | red_black_bst/tree.h:639-684 | removes keys only and keeps size consistency |
| LlrbDelete.DeleteLeftDescent | red_black_bst/tree.h:646-652 | `MoveRedLeft` keeps the keys and hands a prepared node to the left recursive call |
| LlrbDelete.DeleteRightDescent | red_black_bst/tree.h:654-667 | the rotation and `MoveRedRight` keep the keys and hand a prepared node to the successor removal or the right recursive call |
| LlrbDelete.DeleteRestores | red_black_bst/tree.h:639-684 | from a prepared node holding `k`, removes exactly `k`, keeps order, black height and the left-leaning shape |
| LlrbDelete.DeleteLeftStep | red_black_bst/tree.h:646-653 | the left branch removes exactly `k` and restores the shape |
| LlrbDelete.DeleteIntoLeft | red_black_bst/tree.h:652-683 | recursing left for a smaller key, then balancing, removes exactly `k` and restores the shape |
| LlrbDelete.DeleteRightShape | red_black_bst/tree.h:656-667 | the rotation and `MoveRedRight` of the right branch keep the keys and the order, and leave a node the right branch can descend from |
| LlrbDelete.DeleteRightStep | red_black_bst/tree.h:654-684 | the right branch removes exactly `k` and restores the shape |
| LlrbDelete.DeleteIntoRight | red_black_bst/tree.h:677-683 | recursing right for a larger key, then balancing, removes exactly `k` |
| LlrbDelete.DeleteSuccessor | red_black_bst/tree.h:668-676 | replacing the key by the right subtree's minimum and deleting that minimum removes exactly the old key |
| RedBlackBst.Put | red_black_bst/tree.h:37-41 | after `Put(k)` the root is black and the keys are the old ones plus `k` |
| RedBlackBst.PutKeepsValid | red_black_bst/tree.h:37-41 | `Put` keeps `Valid` (the four checks and a black root) and grows the size by one exactly when `k` was absent |
| RedBlackBst.PutPresentIsIdentity | red_black_bst/tree.h:37-41 | putting a present key leaves a valid tree unchanged |
| RedBlackBst.DelMin | red_black_bst/tree.h:90-107 | a no-op on an empty tree; otherwise removes keys only and leaves the root black |
| RedBlackBst.DelMinKeepsValid | red_black_bst/tree.h:90-107 | `DelMin()` keeps `Valid` (the four checks and a black root) and removes exactly the key `Min()` returns |
| RedBlackBst.DelMax | red_black_bst/tree.h:109-126 | a no-op on an empty tree; otherwise removes keys only and leaves the root black |
| RedBlackBst.DelMaxBelowRoot | red_black_bst/tree.h:120-125 | from a recoloured root that is part of a 3-node or 4-node, the descent and the black repaint give a valid tree lacking exactly the last key |
| RedBlackBst.DelMaxKeepsValid | red_black_bst/tree.h:109-126 | `DelMax()` keeps `Valid` (the four checks and a black root) and removes exactly the key `Max()` returns |
| RedBlackBst.RedRootIfBothBlack | red_black_bst/tree.h:97-100 | changes only the root colour, to red exactly when the root is red or both children are black |
| RedBlackBst.FourChecksAdmitRedPair | red_black_bst/tree.h:60-88 | a red root with a red left child passes all four shipped checks |
| RedBlackBst.RedPairRootBreaksPut | red_black_bst/tree.h:37-41 | from such a root, putting a larger key yields a tree that fails `Is23Tree`, so `Valid` needs the black root |
| RedBlackBst.RecolourForDelete | red_black_bst/tree.h:97-100 | reddening a valid root with two black children prepares it for a deletion descent |
| RedBlackBst.Delete | red_black_bst/tree.h:179-198 | removes keys only, and leaves the root black when the key was present |
| RedBlackBst.DeleteKeepsValid | red_black_bst/tree.h:179-198 | `Delete(k)` keeps `Valid` (the four checks and a black root), removes exactly `k`, and leaves the tree unchanged when `k` is absent |
| RedBlackBst.DeleteCount | red_black_bst/tree.h:179-198 | deleting a present key removes one node; an absent key removes none |
| Bst.Put | binary_search_tree/tree.h:131-151 | the result holds the old keys plus `k` and keeps size consistency |
| Bst.PutKeepsOrder | binary_search_tree/tree.h:131-151 | insertion keeps binary-search order |
| Bst.PutCount | binary_search_tree/tree.h:131-151 | the node count grows by one exactly when `k` was absent |
| Bst.PutPresentIsIdentity | binary_search_tree/tree.h:131-151 | inserting a present key into an ordered, consistent tree changes nothing |
| Bst.DelMin | binary_search_tree/tree.h:242-259 | a no-op on an empty tree; otherwise the in-order sequence loses exactly its first key; size consistency is kept |
| Bst.DelMinRemovesMin | binary_search_tree/tree.h:242-259 | on an ordered tree, order is kept and exactly the key `Min` returns is removed |
| Bst.DelMax | binary_search_tree/tree.h:261-278 | a no-op on an empty tree; otherwise the in-order sequence loses exactly its last key; size consistency is kept |
| Bst.DelMaxRemovesMax | binary_search_tree/tree.h:261-278 | on an ordered tree, order is kept and exactly the key `Max` returns is removed |
| Bst.Delete | binary_search_tree/tree.h:280-315 | removes keys only and keeps size consistency |
| Bst.DeleteRemovesKey | binary_search_tree/tree.h:280-315 | on an ordered tree, order is kept and exactly `k` is removed |
| Bst.DeleteTakesSuccessor | binary_search_tree/tree.h:295-310 | a node holding `k` with two children keeps its left subtree, takes the least key above `k`, and loses that key from its right subtree through `DelMin` |
| Bst.DeleteAbsentIsIdentity | binary_search_tree/tree.h:280-315 | deleting an absent key leaves an ordered, consistent tree unchanged |
| Bst.DeleteCount | binary_search_tree/tree.h:280-315 | deleting a present key removes exactly one node; an absent key removes none |

The plain tree's queries (`binary_search_tree/tree.h` lines 153-240 and
317-359) are the same algorithms as the LLRB tree's, and are the `Queries`
members instantiated with the colourless tag.

## Left out

- Keys are `int`. The generic key type, the `Player` test type and its
  inconsistent comparison operators are not modelled.
- The console test drivers `red_black_bst/red_black_bst.cpp` and
  `binary_search_tree/binary_search_tree.cpp` are not modelled. They only
  do random key generation, timing and printing.
- Pointer ownership is not modelled: `unique_ptr`/`shared_ptr` moves,
  eager release, and the shared-pointer aliasing in the plain tree's
  `Delete`. Subtrees are immutable values, and the successor node's reuse
  becomes a new node carrying the successor's key.
- The visitor callback is not modelled. Each traversal returns the sequence
  of keys the callback would receive.
- The empty `float`/`double` specialisations and the template forwarding
  machinery are not modelled.
- The `sub_node_num` counter is an unbounded integer. A 32-bit `int`
  overflow would need more than 2^31 nodes.
- The private LLRB `DelMin`/`DelMax` dereference a null argument. Here they
  return the empty tree. No caller passes one: the public wrappers check
  `IsEmpty()` first, and the guards at `red_black_bst/tree.h` lines 360 and
  381 return before recursing into a null child. `NoLeftNoRight` shows that
  returning null at the `DelMin` guard drops no right subtree.
- The plain tree's `LastOrderWithRecursion` tests an undeclared `pRoot`. It
  is modelled by intent, as a null check on `node` (`BinaryTree.PostOrder`).
- `Queries.Rank`, `Queries.Select`, `Queries.Floor`, `Queries.Ceiling`:
  their function contracts state only membership facts. The full
  characterisations are in the lemmas listed above, because they need an
  ordered or size-consistent tree.
- No height bound of the balanced tree is stated. The code neither states
  nor checks one.
- `LlrbDelete.DelMin`, `LlrbDelete.DelMax`, `LlrbDelete.Delete`: the
  exact-key results hold only from a node prepared by the caller, as the
  C++ wrappers and recursive calls arrange. They are stated in the `...Restores` lemmas, not as
  unconditional contracts.
