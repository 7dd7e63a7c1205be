# Persistent treap

A Dafny model of the functional (persistent) treap in `treap.h`. It is an
ordered multiset kept as a binary tree whose nodes carry an element, a heap
key and a stored subtree size. Every mutation returns a new version, and the
old version stays intact. In Dafny, persistence holds by construction: trees
are immutable datatypes, and every operation is a pure function of the
version it starts from.

The model covers:

- the node tree and its three invariants: sorted in-order sequence, correct
  stored sizes, and a non-strict min-heap on heap keys (`trees.dfy`);
- the ordering relation, lower and upper bound positions on sorted
  sequences, and counting of equivalent elements (`elements.dfy`);
- `rotateLeft`, `rotateRight` and `rotateUp` (`rotation.dfy`);
- `insertNode`: path-copying insert with bubbling up by rotations
  (`insertion.dfy`);
- `deleteIterator`, `deleteRootNode`, `deleteAndGetBegin`, including the
  two-children case whose successor inherits the parent's heap key
  (`erasure.dfy`);
- `clonePtrs` with the data write behind `update` (`replace.dfy`);
- the path-stack cursor: `begin`, `end`, `*`, `++`, `--`, `==`, `rank`,
  `moveToRank`, `-` (`cursor.dfy`). A cursor is a sequence of directions
  from the root, or the end position;
- `exists`, `lower_bound`, `upper_bound`, `find`, `count` (`queries.dfy`);
- the generator interface and the `value % (size * 12 + 1)` heap-key rule
  (`random.dfy`);
- the facade: `size`, `empty`, `insert`, `erase` by key and by cursor,
  `update`, and the generator state each of them leaves (`treap.dfy`);
- `levelorder` as a breadth-first traversal (`levelorder.dfy`);
- the bulk constructor: the sortedness scan, one-by-one insertion for
  unsorted input, and `fillNodes`/`assignSorted` for sorted input
  (`bulk.dfy`).

The abstract specification is the in-order sequence of a version, or its
multiset. The repository's test oracle `MockTreap` uses the same view.

Notes on the code:

- In `rotateUp` the code recomputes the size of `node` first. After the swap,
  `node` holds the demoted parent, the lower of the two nodes. The lifted node
  is recomputed second. `Rotation.RotateUp` does the same.
- Cursor subtraction `a - b` is `rank(a) - rank(b)`, as the code computes it
  (`Cursor.Distance`).
- `update` builds its result with the private one-argument constructor. That
  constructor resets the generator state to 6781, and `Treaps.Update`
  returns that state.

## Model

| member | source | states |
|---|---|---|
| Elements.LowerIndex | treap.h:886-902 | the result is the lower-bound position of a sorted sequence: every element before it is less than the key, none from it on is |
| Elements.UpperIndex | treap.h:908-924 | the result is the upper-bound position: no element before it is greater than the key, every element from it on is |
| Elements.ContainsAtLowerBound | treap.h:926-933 | in a sorted sequence an equivalent element exists exactly when the lower-bound position holds one |
| Elements.CountIsBoundGap | treap.h:941-945 | in a sorted sequence the lower bound is at most the upper bound, and the number of equivalent elements is their difference |
| Elements.InsertKeepsSorted | treap.h:439-454 | placing an element at the upper-bound position keeps a sorted sequence sorted |
| Elements.RemoveKeepsSorted | treap.h:588-640 | removing any one position keeps a sorted sequence sorted |
| Elements.ReplaceKeepsSorted | treap.h:855-862 | overwriting a position with an equivalent element keeps a sorted sequence sorted |
| Elements.NoDescentSorted | treap.h:793-797 | a sequence with no adjacent descent is sorted |
| Trees.SizeIsLength | treap.h:809-811 | when every stored size is correct, the root's stored size is the number of elements |
| Trees.HeapRootIsMin | treap.h:465-476 | in a min-heap ordered tree no heap key is below the root's |
| Trees.SameShapeKeepsInvariants | treap.h:855-865 | a tree with the same shape, sizes and heap keys as another keeps its size and heap invariants and its length |
| Trees.PathElement | treap.h:363-365 | the element at a node's in-order position is that node's element |
| Trees.PathIndexInjective | treap.h:371-373 | two paths to nodes of one tree with the same in-order position are the same path |
| Trees.LeftmostIsFirst | treap.h:995-1003 | the all-left path of a non-empty tree leads to the node at position 0, which has no left child |
| Trees.RightmostIsLast | treap.h:293-301 | the all-right path leads to the node at the last position, which has no right child |
| Cursor.Begin | treap.h:995-1003 | `begin()` is the end position exactly on an empty version; otherwise it points at a node at in-order position 0 |
| Cursor.EndOf | treap.h:1005-1007 | `end()` never points at a node, and sits at the position after the last element |
| Cursor.Deref | treap.h:363-365 | `*it` is the element at the cursor's in-order position |
| Cursor.Next | treap.h:257-285 | `++` keeps the cursor valid on the same version and advances its position by exactly one, reaching the end after the last element |
| Cursor.Prev | treap.h:293-329 | `--` keeps the cursor valid on the same version; on a non-empty version it moves from the end, or from any position above 0, to a node one position earlier |
| Cursor.NextStep | treap.h:257-285 | from any node, the `++` step reaches a valid position one further on in the in-order sequence |
| Cursor.PrevStep | treap.h:293-329 | from the end or any node past the first, the `--` step reaches a node one position earlier |
| Cursor.PrevUndoesNext | treap.h:257-329 | `--` after `++` returns the original cursor |
| Cursor.NextUndoesPrev | treap.h:257-329 | `++` after `--` returns the original cursor, including when starting at the end |
| Cursor.IndexDetermines | treap.h:371-377 | two valid cursors on one version at the same position are equal |
| Cursor.BeginEndPositions | treap.h:995-1007 | `begin()` sits at position 0 and `end()` after the last element; they coincide exactly on an empty version |
| Cursor.Traverse | treap.h:257-285 | starting at `begin()` and applying `++` until the end collects the in-order sequence in exactly `size()` steps |
| Cursor.Rank | treap.h:201-221 | `rank()` is the number of elements before the cursor, and `size()` at the end |
| Cursor.MoveToRank | treap.h:228-250 | for any rank up to `size()`, the cursor lands on the version's node at that position, or at the end for `size()` |
| Cursor.RankAfterMove | treap.h:201-250 | `moveToRank(k)` followed by `rank()` gives back `k` |
| Cursor.Distance | treap.h:350-354 | `a - b` is the difference of the two cursors' positions |
| Queries.Exists | treap.h:867-880 | `exists` holds exactly when some element is equivalent to the key |
| Queries.LowerPos | treap.h:886-902 | the descent ends at a node path or the end, and that position is the lower bound of the in-order sequence |
| Queries.UpperPos | treap.h:908-924 | the descent ends at a node path or the end, and that position is the upper bound |
| Queries.LowerBound | treap.h:886-902 | `lower_bound` is a valid cursor on the version at the first element not less than the key |
| Queries.UpperBound | treap.h:908-924 | `upper_bound` is a valid cursor at the first element greater than the key |
| Queries.Find | treap.h:926-933 | the corrected `find`: it points at a node exactly when an equivalent element exists, and then it is `lower_bound` pointing at an equivalent element |
| Queries.FindAsWritten | treap.h:926-933 | `find` as written dereferences `end()` exactly when every element is less than the key; whenever it reads a real element, it returns what the corrected `find` returns |
| Queries.FindOnEmptyReadsPastEnd | treap.h:926-933 | on an empty version `find` as written dereferences `end()` |
| Queries.Count | treap.h:941-945 | `count` is the number of elements equivalent to the key |
| Rotation.RotateLeft | treap.h:64-84 | the right child becomes the subtree root; in-order sequence and heap keys are unchanged |
| Rotation.RotateRight | treap.h:89-109 | the left child becomes the subtree root; in-order sequence and heap keys are unchanged |
| Rotation.Resized | treap.h:134-137 | recomputing a node's stored size from correctly sized children makes its size correct, and keeps its element, heap key, in-order sequence and heap keys |
| Rotation.RotateUp | treap.h:114-139 | the lifted child becomes the subtree root, keeping its element and heap key |
| Rotation.RotateUpPreserves | treap.h:114-139 | `rotateUp` keeps the in-order sequence and heap keys, and with the two sizes recomputed every stored size in the subtree is correct |
| Rotation.RotateUpKeepsHeap | treap.h:465-476 | lifting a child whose key is below its parent's restores the min-heap, provided the rest of the subtree was ordered relative to the parent |
| Insertion.InsertRec | treap.h:426-478 | the insertion returns a node; if the new node rose to the top it carries the new element and heap key, otherwise the old root's |
| Insertion.Relink | treap.h:457-463 | a copied node with a replaced child keeps its element, key and other child; the heap keys move from the old child to the new one |
| Insertion.InsertInOrder | treap.h:435-463 | insertion places the element at the position the descent chooses and leaves every other element in order |
| Insertion.InsertPosIsUpperBound | treap.h:439-454 | in a sorted tree the descent position is the upper bound, after every equivalent element |
| Insertion.InsertHeapKeys | treap.h:426-478 | the new version's heap keys are the old ones plus the new key |
| Insertion.InsertSizes | treap.h:436-437 | every stored size stays correct and the root size grows by one |
| Insertion.InsertHeap | treap.h:465-476 | the rotations that stop at the first parent with a key not above the node's leave a min-heap |
| Insertion.LiftKeepsHeap | treap.h:468-476 | rotating up a child whose key is below the parent's, with the child's subtree a heap, yields a heap |
| Insertion.InsertNode | treap.h:426-478 | `insertNode` returns a node; its in-order sequence is the old one with the element spliced in at the descent position, and its heap keys gain exactly the new key |
| Insertion.InsertNodeCorrect | treap.h:426-478 | `insertNode` on a valid tree yields a valid tree one larger, holding the element at the upper-bound position and the new heap key |
| Erasure.DeleteAt | treap.h:588-640 | erasing at a cursor drops exactly that position from the in-order sequence, with correct sizes and the size one smaller |
| Erasure.DeleteRoot | treap.h:554-575 | removing the root leaves the left then the right subtree's elements, with correct sizes |
| Erasure.DeleteBelow | treap.h:596-640 | below the root, the copied path loses exactly the cursor's position, and the root keeps its heap key |
| Erasure.Reduce | treap.h:600-638 | the child on the path loses exactly the cursor's position |
| Erasure.Unlink | treap.h:602-638 | replacing the victim by its only child or by its successor leaves the victim's left then right elements, with correct sizes and one fewer node |
| Erasure.DeleteAndGetBegin | treap.h:577-586 | the detached node carries the first element, and the rest holds every other element in order with correct sizes |
| Erasure.DeleteAtHeap | treap.h:588-640 | erasing keeps the min-heap, and the new root's heap key comes from the old tree |
| Erasure.DeleteRootHeap | treap.h:554-575 | removing the root keeps the min-heap |
| Erasure.DeleteBelowHeap | treap.h:596-640 | erasing below the root keeps the min-heap |
| Erasure.UnlinkHeap | treap.h:616-638 | the successor that takes the parent's heap key leaves a min-heap whose keys are at least the parent's |
| Erasure.DeleteAtCorrect | treap.h:588-640 | on a valid tree, erasing at a cursor yields a valid tree one smaller that has lost exactly one copy of the cursor's element |
| Replace.ReplaceAt | treap.h:531-546 | copying the path and writing the element keeps shape, sizes and heap keys, and changes only the cursor's in-order position |
| Random.HeapKeyFor | treap.h:820 | a heap key drawn for a treap of `size` elements lies in `0..12*size`, and is 0 for an empty treap |
| Random.Draws | treap.h:141-165 | `n` successive draws from a state; the `i`-th is the number drawn from the state that `i` steps of `operator++` reach |
| Treaps.Empty | treap.h:763 | the default version is well formed, holds nothing and carries the default generator state |
| Treaps.Size | treap.h:809-811 | `size()` is the number of elements whenever the stored sizes are correct |
| Treaps.IsEmpty | treap.h:813-815 | `empty()` holds exactly when the version holds no element |
| Treaps.Insert | treap.h:817-824 | `insert` adds exactly one copy of the element and advances the generator state by one draw |
| Treaps.DeleteKey | treap.h:642-652 | without an equivalent element the tree is returned unchanged; otherwise the lower-bound element, which is equivalent, is removed |
| Treaps.Erase | treap.h:831-835 | `erase(key)` keeps the generator state and returns the version itself when no element is equivalent |
| Treaps.EraseAt | treap.h:841-848 | `erase(it)` removes exactly the cursor's position and keeps the generator state |
| Treaps.Update | treap.h:855-865 | when `find` fails the version is returned; otherwise only the lower-bound element is replaced, shape and keys are kept, and the state resets |
| Treaps.InsertCorrect | treap.h:817-824 | `insert` on a well-formed version yields a well-formed version one larger with the element at the upper bound and the drawn heap key |
| Treaps.EraseCorrect | treap.h:831-835 | `erase(key)` keeps the version well formed and removes one copy of an equivalent element exactly when one exists |
| Treaps.EraseAtCorrect | treap.h:841-848 | `erase(it)` keeps the version well formed, one smaller, without one copy of `*it` |
| Treaps.UpdateCorrect | treap.h:855-865 | `update` keeps the version well formed, with the same size and heap keys |
| Treaps.InsertThenEraseRestoresKeys | treap.h:817-835 | inserting an element and erasing its key gives back a well-formed version of the old size with the same multiset of keys; when no element was equivalent, the exact old in-order sequence comes back |
| Treaps.FreshInsertIsLowerBound | treap.h:642-652 | an element with no equivalent, inserted at its upper bound, sits at its own lower bound, so erasing there restores the old sequence |
| LevelOrder.Bfs | treap.h:659-665 | draining the queue visits exactly as many nodes as the queued subtrees hold |
| LevelOrder.Traversal | treap.h:654-666 | `levelorder` visits as many nodes as the tree has elements |
| LevelOrder.IndexOf | treap.h:755-758 | the first position at which a path is visited, or the length when it never is |
| LevelOrder.ParentVisitedFirst | treap.h:659-664 | when parents come first, a node's parent is visited strictly before it |
| LevelOrder.BfsParentsFirst | treap.h:659-664 | every path the queue visits was queued at the start or follows its parent |
| LevelOrder.BfsCovers | treap.h:659-664 | every node below a queued entry is visited, under the entry's path |
| LevelOrder.TraversalCorrect | treap.h:654-666 | the level order visits every node of the tree, each after its parent |
| Bulk.Get | treap.h:716 | `NODE_GET(i)` is the `i`-th tree of the previous round, or no tree past its end |
| Bulk.Adopt | treap.h:728-732 | a node adopting two trees holds their elements around its own and has a correct stored size |
| Bulk.SegJoin | treap.h:727-732 | an adopting element joins the segments of its two adopted trees into the next round's segment |
| Bulk.Pairs | treap.h:727-739 | the trees a round produces from an adopting position on keep correct stored sizes whenever the previous round's trees have them |
| Bulk.Round | treap.h:719-743 | one pass of the outer loop keeps stored sizes correct and takes the loop invariant from `start == w` to `start == 2w` |
| Bulk.PairsSpec | treap.h:727-739 | the trees a round produces hold consecutive input segments of the doubled width |
| Bulk.PairsCover | treap.h:727-739 | the trees a round produces, adopted and carried over, reach the end of the input |
| Bulk.PairsCoverEnd | treap.h:736-739 | once adopting positions run out, the carried tree, if any, reaches the end of the input |
| Bulk.PairsCarry | treap.h:736-739 | once adopting positions run out, at most one tree of the previous round is carried over |
| Bulk.RoundKeepsInv | treap.h:719-743 | one round of `assignSorted` takes the loop invariant from `start == w` to `start == 2w` |
| Bulk.LoopProgress | treap.h:719 | while the loop has not stopped, `start` is still below the input length |
| Bulk.LoopExitAsWritten | treap.h:719-745 | when the loop as written stops with one tree, that tree lacks the last element exactly when the length is a power of two of at least 2 |
| Bulk.LoopAsWritten | treap.h:717-745 | the loop as written builds a tree with correct sizes holding the input, less its last element when the length is a power of two of at least 2 |
| Bulk.Loop | treap.h:717-745 | the loop with the corrected exit builds a tree with correct sizes holding exactly the input |
| Bulk.AssembleAsWritten | treap.h:710-745 | `assignSorted` as written assembles the input less the last element for power-of-two lengths |
| Bulk.Assemble | treap.h:710-745 | the corrected assembly holds exactly the input |
| Bulk.LoopsAgree | treap.h:719-743 | the two loops build the same tree unless the length is a power of two of at least 2 |
| Bulk.AssembleAgrees | treap.h:710-745 | the two assemblies coincide except for power-of-two lengths |
| Bulk.SortKeys | treap.h:754 | the sorted keys are ascending and a permutation of the drawn ones |
| Bulk.DrawnKeys | treap.h:746-753 | `n` keys, each in `0..12n` |
| Bulk.Relabel | treap.h:755-759 | handing out heap keys keeps the elements, their order and the stored sizes |
| Bulk.RelabelHeap | treap.h:755-759 | ascending keys handed out in an order where parents come first yield a min-heap |
| Bulk.AssignKeys | treap.h:746-759 | the heap-key pass keeps the elements and correct sizes |
| Bulk.AssignKeysHeap | treap.h:746-759 | the heap-key pass yields a min-heap on any tree with correct sizes |
| Bulk.HasDescent | treap.h:793-797 | the scan finds an adjacent pair whose second element is less than the first exactly when one exists |
| Bulk.DescentIffUnsorted | treap.h:793-797 | the scan finds a descent exactly when the input is not sorted |
| Bulk.InsertAll | treap.h:799-802 | inserting every element in turn adds exactly the input's elements |
| Bulk.InsertAllCorrect | treap.h:799-802 | one-by-one insertion keeps the version well formed and grows it by the input length |
| Bulk.InsertAllAppends | treap.h:799-802 | inserting elements none of which is less than anything before it appends them, in order, to the version's sequence |
| Bulk.AppendStep | treap.h:817-824 | an element no smaller than any before it is inserted at the end, and the remaining input still follows in order |
| Bulk.SortedPathsAgree | treap.h:777-807 | for sorted input the bulk path and one-by-one insertion into an empty treap hold the same in-order sequence |
| Bulk.FromSeqAsWritten | treap.h:777-807 | the constructor as written reads past the end of the range exactly for single-element input |
| Bulk.FromSeq | treap.h:777-807 | the corrected constructor holds exactly the input's elements |
| Bulk.FromSeqCorrect | treap.h:777-807 | the corrected constructor yields a well-formed treap of the input's length, in the input's order when sorted, and empty for empty input |
| Bulk.PowerOfTwoLosesLast | treap.h:719 | for sorted input of power-of-two length the constructor as written holds all but the last element |
| Bulk.FourSortedLoseLast | treap.h:717-745 | four sorted elements give a treap holding only the first three |
| Bulk.FromSeqAsWrittenAgrees | treap.h:777-807 | apart from those two inputs the two constructors agree |
| Bulk.SingleElementReadsPastEnd | treap.h:781-786 | any single-element input makes the constructor as written read past the end |

## Left out

- `MockTreap` (treap.h:1011-1096) is the test oracle. Its semantics, an ordered multiset, serve as the abstract specification: the in-order sequence and its multiset.
- `rand_r` is a foreign libc generator. `RNGIterator` and every draw are a parameter `rng: nat -> Draw` that maps a state to a value and the next state. Only the `value % (size * 12 + 1)` rule and the two fixed states 6781 and 8271 are modelled.
- `shared_ptr` reference counting, node sharing between versions, and the claim that concurrent readers are safe are runtime properties. They have no counterpart in a value model, where persistence holds by construction.
- `print`, `toDot` and the `inorder`/`for_each` visitor are output plumbing. The in-order sequence `InOrder` stands in for `for_each`.
- `operator+=`, `operator-=` and `operator[]` on cursors (treap.h:337-361) are left out. They are `const` yet call the non-const `moveToRank`, so any use of them fails to compile. The same holds for the postfix `operator++(int) const` and `operator--(int) const` (treap.h:287-291, treap.h:330-334), which apply the non-const prefix `++` and `--` to `*this`. Their intent is covered by `Cursor.MoveToRank` and `Cursor.RankAfterMove`.
- The debug-only check in `rotateUp` that compares with raw `<` (treap.h:119-126) is left out. So are the `assert` calls that only trap misuse.
- `insertNodeNoClone` (treap.h:486-523) is the in-place variant of `insertNode`. It performs the same descent, size increments and rotations, and in a value model its result is the same tree. `Bulk.InsertAll` therefore uses the cloning insert.
- `countGte` (treap.h:680-696) is a private helper with no caller. Its loop is the one `Cursor.Rank` models.
- The caller errors are modelled as preconditions rather than as undefined behaviour:
  - stepping `--` from the first element;
  - dereferencing or erasing at `end()`;
  - calling `update` with non-equivalent keys.
- `size_t` arithmetic is modelled with unbounded integers. Overflow of sizes and of `size * 12 + 1` needs more than 2^60 elements and is not modelled.
- Bulk.AssignKeys: the contract states the heap order the pass produces. It does not state that each drawn key is used exactly once.
- The element type `T` and comparator `LessThan` are fixed to `Elem(key, payload)` with integer fields, ordered by `key` alone. This is one instance of the template: equivalent elements with different payloads exercise the multiset behaviour. Other element types and comparators are not modelled.
- test.cpp and driver.cpp are a randomized test harness and a console demo, not part of this model.

## Findings

| source | as written | input that shows it | evidently intended | confidence | as-written member | corrected member |
|---|---|---|---|---|---|---|
| treap.h:719 | the assembly loop stops as soon as a round leaves one tree | sorted input `1, 2, 3, 4`: the tree holds `1, 2, 3` and `size()` is 3 | keep going until `start` exceeds the input length, so every element is adopted | not executed | Bulk.LoopAsWritten, Bulk.AssembleAsWritten, Bulk.PowerOfTwoLosesLast, Bulk.FourSortedLoseLast | Bulk.Assemble, Bulk.FromSeqCorrect |
| treap.h:781-786 | the single-element branch reads `*f` after `f` has been advanced to `last` | any one-element range | read `*first` | not executed | Bulk.FromSeqAsWritten, Bulk.SingleElementReadsPastEnd | Bulk.FromSeq, Bulk.FromSeqCorrect |
| treap.h:926-933 | `find` dereferences `lower_bound` before checking it against `end()` | `find` on an empty treap, or with a key above every element | return `end()` when `lower_bound` is `end()` | not executed | Queries.FindAsWritten, Queries.FindOnEmptyReadsPastEnd | Queries.Find, Treaps.Update |
