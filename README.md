# B-Tree of configurable minimum degree, in Dafny

This project models `b_tree.py`, an in-memory B-Tree of minimum degree `t`.
Every node other than the root holds between `t - 1` and `2t - 1` keys
(`min_num_keys` and `max_num_keys`), an internal node has one child more
than it has keys, all leaves lie at the same depth, and the in-order key
sequence is non-decreasing. Duplicate keys are allowed, so insertion and
deletion are stated on multisets of keys.

The model has two layers, as the source does.

- **Nodes** (`node.dfy`, `surgery.dfy`). A node is a value
  `Node(keys, children)`. `Inorder(n)` is the key sequence of its subtree
  and `Shaped(n, t, h, isRoot)` the degree, arity and equal-depth invariant
  of a subtree of height `h`.
  - The loops of `search`, `linear_search`, `locate_successor`, `deep_min`
    and `deep_max` are methods with loop invariants.
  - `split_child`, `merge_children`, the two key rotations and `grow_child`
    are functions that return the rebuilt node. Lemmas prove that each
    keeps the in-order sequence and the shape invariant.
- **The tree** (`insert.dfy`, `delete.dfy`, `queries.dfy`,
  `traversal.dfy`, `btree.dfy`).
  - `B_Tree` is a class with the root, the two degree bounds and a ghost
    height. `Valid()` is the invariant it keeps.
  - `insert` and `delete` are single top-down passes. Each is specified by
    a recursive function (`InsertPass`, `DeletePass`) whose correctness
    lemmas state the invariant, the multiset change, the exact in-order
    result and the height change.
  - The loops of `insert` and `delete` (`InsertDown`, `DeleteDown`) are
    proved to build exactly the tree their specification builds. They keep
    the path from the root (`BTreePath`) because nodes are values here and
    the source edits them in place.
  - `search`, `predecessor`, `successor` and the explicit-stack `inorder`
    generator are loops, proved against the tree's in-order sequence.
  - `breadth_first_search` and `depth_first_search` are proved to emit the
    stack-walk order and its reverse, the post-order.
- **Laws** (`laws.dfy`): deleting a key just inserted gives back the old
  key sequence, and a worked example shows that deleting an absent key can
  still reshape the tree.

The specification functions have no rows of their own; the lemmas about
them carry their properties.

- `Insert`, `InsertPass`, `PassBelow`, `InsertRound`, `SplitTarget` and
  `Lift` model `B_Tree.insert` (b_tree.py:375-396). Their properties are
  stated by `LiftCorrect`, `SplitTargetFits`, `RoundFits`,
  `InsertPassCorrect`, `InsertCorrect` and `InsertInorder`.
- `GrowRoot` models the new root built for a full root (b_tree.py:379-381).
  `GrowRootCorrect` states its property.
- `DeletePass`, `DeleteOn` and `DeleteRound` model `B_Tree.delete`
  (b_tree.py:399-427). Their properties are stated by `DeleteRoundFits`,
  `DeleteOnCorrect`, `DeletePassCorrect`, `DeleteCorrect` and
  `DeleteInorder`.

The source's `breadth_first_search` uses a list as a stack (`pop()` takes
the last element). Its order is therefore a pre-order that visits children
from right to left, not a level order. The model follows the code.
`DeeperFirst` states the difference: a node two levels down can come out
before a node one level down.

## Model

| member | source | states |
|---|---|---|
| BTreeNode.Search | b_tree.py:41-55 | the binary search returns an index in `[0, len]`; the key before it is below `key` and the key at it is at least `key`; on sorted keys it is the leftmost index with a key at least `key`, the answer of the linear scan |
| BTreeNode.LinearSearch | b_tree.py:58-67 | every key before the result is below `key`, the key at it is at least `key`, and the result is the lower bound on any key list |
| BTreeNode.LocatePredecessor | b_tree.py:97-104 | the result lies in `[-1, len-1]`, the key at it is below `key`, the next key is not, and on sorted keys it is the search position minus one |
| BTreeNode.Predecessor | b_tree.py:107-114 | a key of the node below `key`, or None; on sorted keys the largest key below `key`, and None exactly when every key is at least `key` |
| BTreeNode.LocateSuccessor | b_tree.py:127-137 | the result lies in `[0, len]`, every key before it is at most `key`, the key at it is above `key`: the upper bound |
| BTreeNode.DeepMin | b_tree.py:77-84 | None exactly when the subtree holds no key, otherwise its first in-order key, which is its smallest when the subtree is sorted |
| BTreeNode.DeepMax | b_tree.py:87-94 | None exactly when the subtree holds no key, otherwise its last in-order key, which is its largest when the subtree is sorted |
| BTreeNode.DeepPredecessor | b_tree.py:117-124 | the last in-order key of the child left of `keys[index]`; in a sorted subtree it bounds that child's keys and is at most `keys[index]` |
| BTreeNode.DeepSuccessor | b_tree.py:150-157 | the first in-order key of the child right of `keys[index]`; in a sorted subtree it bounds that child's keys and is at least `keys[index]` |
| BTreeNode.ContainsKeyAtLowerBound | b_tree.py:70-74 | on sorted keys, the node holds `key` at the binary-search position exactly when it holds `key` at all |
| BTreeNode.InsertKey | b_tree.py:160-165 | one key more, the key multiset gains exactly `key`, sorted keys stay sorted, children unchanged |
| BTreeNode.DeleteKey | b_tree.py:168-174 | an absent key changes nothing; on sorted keys exactly one occurrence of `key` goes and the keys stay sorted; children unchanged |
| BTreeSurgery.SplitChild | b_tree.py:177-205 | the child's median moves up into the parent at position `index`, and the parent's other keys are unchanged; the two halves take the child's place, and the other children are unchanged |
| BTreeSurgery.SplitHalves | b_tree.py:177-205 | on a full child the two halves hold exactly `t - 1` keys each, keep the shape invariant, and lower half ++ [median] ++ upper half is the child's in-order sequence |
| BTreeSurgery.SplitParts | b_tree.py:177-205 | the lower half's keys, the median and the upper half's keys give back the child's keys, and the halves' children give back its children |
| BTreeSurgery.SplitChildInorder | b_tree.py:177-205 | splitting a full child leaves the parent's in-order sequence unchanged |
| BTreeSurgery.SplitChildShape | b_tree.py:177-205 | splitting a full child of a non-full node keeps the shape invariant of the node |
| BTreeSurgery.GrowRootCorrect | b_tree.py:379-381 | wrapping a full root in a new root and splitting it gives a valid root one level taller with the same in-order sequence |
| BTreeSurgery.MergeChildren | b_tree.py:208-232 | the merged node takes the separator's child position; the parent loses exactly that key and the right child, and its other keys and children are unchanged; a parent left without keys is replaced by the merged node |
| BTreeSurgery.Merged | b_tree.py:213-219 | the merged node's keys are left keys ++ [separator] ++ right keys, and its children left children ++ right children |
| BTreeSurgery.MergedInorder | b_tree.py:208-232 | the merged node's in-order sequence is left ++ [separator] ++ right |
| BTreeSurgery.MergeChildrenInorder | b_tree.py:208-232 | merging two children leaves the in-order sequence unchanged, in both outcomes |
| BTreeSurgery.MergeChildrenShape | b_tree.py:208-232 | merging two small children keeps the shape invariant; when the root is absorbed the tree is one level lower |
| BTreeSurgery.TransferKeyClockwise | b_tree.py:263-278 | the separator becomes the left child's last key, the parent's key count is unchanged, the left child shrinks by one key and the right child grows by one |
| BTreeSurgery.TransferKeyCounterClockwise | b_tree.py:281-296 | the separator becomes the right child's first key, the parent's key count is unchanged, the right child shrinks by one key and the left child grows by one |
| BTreeSurgery.TransferClockwiseMoves | b_tree.py:263-278 | the left child's last key becomes the separator, the old separator goes to the front of the right child, the left child loses its last key and last child, that child goes to the front of the right child, and the other children are unchanged |
| BTreeSurgery.TransferCounterClockwiseMoves | b_tree.py:281-296 | the right child's first key becomes the separator, the old separator goes to the end of the left child, the right child loses its first key and first child, that child goes to the end of the left child, and the other children are unchanged |
| BTreeSurgery.TransferClockwiseInorder | b_tree.py:263-278 | the clockwise rotation leaves the in-order sequence unchanged |
| BTreeSurgery.TransferCounterClockwiseInorder | b_tree.py:281-296 | the counter-clockwise rotation leaves the in-order sequence unchanged |
| BTreeSurgery.TransferClockwiseShape | b_tree.py:263-278 | rotating from a left sibling with a key to spare into a non-full right sibling keeps the shape invariant |
| BTreeSurgery.TransferCounterClockwiseShape | b_tree.py:281-296 | rotating from a right sibling with a key to spare into a non-full left sibling keeps the shape invariant |
| BTreeSurgery.GrowChild | b_tree.py:235-260 | the child to descend into is at the same index or one to the left, and it exists; the parent is absorbed only when it had one key |
| BTreeSurgery.GrowChildInorder | b_tree.py:235-260 | growing a child leaves the in-order sequence unchanged |
| BTreeSurgery.GrowChildShape | b_tree.py:235-260 | growing a minimal child keeps the shape invariant and leaves the child to descend into with at least `t` keys; an absorbed root is one level lower |
| BTreeInsert.LiftCorrect | b_tree.py:379-381 | after the root step of insert the root is not full, is valid at the lifted height and has the same in-order sequence |
| BTreeInsert.SplitTargetFits | b_tree.py:388-392 | after the split, the child chosen by comparing with the promoted key still brackets `key` between its neighbouring parent keys |
| BTreeInsert.RoundFits | b_tree.py:383-394 | one round of the insert loop keeps the node valid and its in-order sequence, and the child it enters is not full and brackets `key` |
| BTreeInsert.InsertPassCorrect | b_tree.py:383-396 | the pass below a non-full node keeps the shape invariant and adds exactly one `key` to a sorted in-order sequence, which stays sorted |
| BTreeInsert.InsertCorrect | b_tree.py:375-396 | insert keeps the tree valid, adds exactly one occurrence of `key` to the key multiset, and grows the height by one exactly when the root was full |
| BTreeInsert.InsertInorder | b_tree.py:375-396 | the new in-order sequence is the old one with `key` inserted at its sorted place |
| BTreeInsert.InsertAdvance | b_tree.py:383-394 | the insert loop's invariant survives one round: the node entered is valid, not full and sorted, and rebuilding the path from the pass there gives the whole pass |
| BTreeInsert.TakeRound | b_tree.py:385-392 | the search, split and index step of one insert round compute the round the specification takes |
| BTreeInsert.InsertDown | b_tree.py:383-396 | the insert loop from a non-full root builds exactly the tree the insert pass specifies |
| BTreeInsert.InsertTree | b_tree.py:375-396 | the root step and the loop build exactly the tree `Insert` specifies, at the lifted height |
| BTreeDelete.DeletePassCorrect | b_tree.py:399-427 | the delete pass below the root, or below a node with at least `t` keys, keeps the shape invariant (the root may lose a level) and removes exactly one `key` from a sorted in-order sequence |
| BTreeDelete.PredecessorCorrect | b_tree.py:410-412 | overwriting a found key with its in-order predecessor and deleting that key from the left child removes exactly the found key |
| BTreeDelete.SuccessorCorrect | b_tree.py:414-416 | overwriting a found key with its in-order successor and deleting that key from the right child removes exactly the found key |
| BTreeDelete.DirectCorrect | b_tree.py:421-425 | descending into a child with a key to spare when `key` is not in the node removes exactly one `key` |
| BTreeDelete.DeleteOnCorrect | b_tree.py:418-425 | going on below a merged or grown child keeps the invariant and removes exactly one `key` |
| BTreeDelete.DeleteCorrect | b_tree.py:399-427 | delete keeps the tree valid, removes exactly one occurrence of `key` from the key multiset, and lowers the height by at most one, only when the root had one key |
| BTreeDelete.DeleteInorder | b_tree.py:399-427 | the new in-order sequence is the old one with one `key` removed; an absent key leaves it unchanged, the empty tree included |
| BTreeDelete.DeleteRoundFits | b_tree.py:404-425 | every non-root node the delete loop enters has at least `t` keys, more than `min_num_keys`, and is valid and sorted |
| BTreeDelete.DeleteAdvance | b_tree.py:404-425 | the delete loop's invariant survives one round: rebuilding the path from the pass where the loop goes on gives the whole pass |
| BTreeDelete.TakeDeleteRound | b_tree.py:405-425 | the search and the choice among predecessor, successor, merge and grow compute the round the specification takes |
| BTreeDelete.DeleteStep | b_tree.py:404-425 | one delete round keeps the loop's invariant and lowers the height still to go |
| BTreeDelete.DeleteDown | b_tree.py:399-427 | the delete loop builds exactly the tree the delete pass specifies |
| BTreeQueries.SearchTree | b_tree.py:331-342 | the walk returns a node and index holding `key` exactly when the tree holds `key` |
| BTreeQueries.PredecessorTree | b_tree.py:345-357 | the walk returns the largest key below `key`, or None exactly when there is none |
| BTreeQueries.SuccessorTree | b_tree.py:360-372 | the walk returns the smallest key above `key`, or None exactly when there is none |
| BTreeQueries.PredecessorStep | b_tree.py:353-356 | one round of the predecessor walk keeps its invariant: every key below `key` is either still in the subtree to visit or at most the candidate |
| BTreeQueries.SuccessorStep | b_tree.py:368-371 | one round of the successor walk keeps its invariant, the mirror image |
| BTreeQueries.InorderWalk | b_tree.py:430-455 | the explicit-stack walk emits exactly the in-order key sequence |
| BTreeQueries.WalkStep | b_tree.py:437-455 | one round of the walk: what it emits followed by what is still to emit equals what was still to emit before |
| BTreeQueries.TodoStart | b_tree.py:430-436 | what is still to emit from a node entered at index 0 is its in-order sequence followed by what the stack stands for |
| BTreeTraversal.StackWalk | b_tree.py:458-466 | the walk of breadth_first_search emits every node in stack order: a node, then its children's subtrees from the last to the first |
| BTreeTraversal.StackOrdersAppend | b_tree.py:462-466 | nodes pushed on top of the stack are all emitted, with their subtrees, before anything below them |
| BTreeTraversal.DeeperFirst | b_tree.py:458-466 | the stack order is not a level order: a grandchild under the last child comes out before the first child |
| BTreeTraversal.ReversedStackWalk | b_tree.py:469-481 | depth_first_search emits the reverse of the stack order, which is the post-order |
| BTreeTraversal.StackOrderReversed | b_tree.py:469-481 | the reversed stack order of a subtree is its left-to-right post-order |
| BTreeLaws.InsertDeleteRoundTrip | b_tree.py:375-427 | deleting a key just inserted gives back the in-order key sequence of the tree before the insertion |
| BTreeLaws.AbsentKeyRestructures | b_tree.py:399-427 | deleting 20 from a valid tree of degree 2 with keys 5, 10, 15 leaves the keys unchanged but merges the two leaves into the root |
| BTreeObject.BTree.constructor | b_tree.py:321-328 | an empty valid tree with `min_num_keys = degree - 1` and `max_num_keys = 2 degree - 1` |
| BTreeObject.BTree.Search | b_tree.py:331-342 | a location holding `key` exactly when the tree holds `key` |
| BTreeObject.BTree.Predecessor | b_tree.py:345-357 | the largest key below `key`, None when there is none |
| BTreeObject.BTree.Successor | b_tree.py:360-372 | the smallest key above `key`, None when there is none |
| BTreeObject.BTree.Insert | b_tree.py:375-396 | the tree stays valid, its keys are the old keys with `key` inserted in order, and it grows one level exactly when the root was full |
| BTreeObject.BTree.Delete | b_tree.py:399-427 | the tree stays valid, its keys lose exactly one occurrence of `key`, an absent key leaves the key sequence unchanged (the descent may still rotate or merge, and the root may lose a level), and it loses at most one level |
| BTreeObject.BTree.InorderKeys | b_tree.py:430-455 | the keys of the tree, each occurrence once, in non-decreasing order |
| BTreeObject.BTree.BreadthFirstSearch | b_tree.py:458-466 | every node in stack order |
| BTreeObject.BTree.DepthFirstSearch | b_tree.py:469-481 | every node in post-order |

## Left out

- Text rendering: `B_Tree.__str__` and `__repr__`, the level and position layout helpers, the `str_pos` field, and `Node.__str__`/`__repr__`. They are string layout with no algorithmic content.
- `Node.successor`: it computes a value and never returns it, and nothing calls it. `locate_successor` is modelled instead.
- The tester `b_tree_tester.py`: it is driven by random numbers and prints. Its validity checks are the `Shaped` and `Sorted` invariant of the model.
- In-place edits and aliasing: nodes are values. `split_child`, `merge_children`, the rotations and `grow_child` return the rebuilt parent. The insert and delete loops keep the path they walked and rebuild the tree along it. The model therefore does not capture the sharing of one key list between a collapsed root and its merged child.
- Lazy generators: `inorder`, `breadth_first_search` and `depth_first_search` return the whole sequence instead of yielding it element by element. The order and the contents are the same.
- Key types: keys are `int`. The source accepts any ordered Python values.
- `DeletePass` has a guard for an internal node without keys, where it stops. No valid tree has such a node, so the guard is never reached.
- BTreeObject.BTree.Delete: for an absent key it promises the same key sequence, not the same tree. The source still grows each minimal child on the way down, so the tree can be rebuilt and the root can lose a level (`BTreeLaws.AbsentKeyRestructures`).
- BTreeQueries.SearchTree: requires a valid tree. On a malformed tree the source may index past a child list.
- BTreeQueries.InorderWalk: requires every internal node to have one child more than keys. On other trees the source may index past a child list.
