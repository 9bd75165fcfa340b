# Algorithms: data structures, sorts, searches and small numeric routines, modelled in Dafny

This project models the Java collection of textbook data structures and algorithms by
Samuel Yanez as immutable Dafny datatypes and pure functions or methods on sequences, and
proves what each operation promises.

The centrepiece is the **array-backed binary search tree**. `ArrayBinaryTree` keeps its
nodes in an array where slot `i` has children at `2i+1` and `2i+2`.
`ArrayBinarySearchTree` adds insertion, removal, `removeMin`/`removeMax`,
`findMin`/`findMax`, `removeAllOccurrences` and the `maxIndex`/`height` bookkeeping.

Its removal routine `replace` does not relink nodes. In the one-child case, and for the
in-order successor's right subtree, it builds two level-order index lists: one from the
child slot and one from the vacated slot. It then copies values across in lock-step.

The model reads the array as a tree through an abstraction function `Abs(a, i)` (module
`ArrayTrees`). Every operation is shown to act on that tree the way a reference definition
acts on the algebraic tree (module `Trees`):
- insertion is the reference insertion;
- `replace` is deletion of the root of a subtree;
- `removeMin`/`removeMax` remove the leftmost and rightmost nodes.

Along the way the model proves that the search-tree order, the reachability of every
element and the count are kept.

The lock-step copy rests on the heap-index arithmetic of module `HeapIndex`. Relative
position `k` below slot `r` is `Rel(r, k)`, the closed form `r·2^d + 2^d − 1 + j` written
recursively. The level-order list from `r` is exactly `Rel(r, 0), Rel(r, 1), …`, and entry
`k` of the child's list is a strictly later entry of the vacated slot's list. So every slot
is read before the copy overwrites it (`HeapIndex.ChildRelLater`, `Shifts.CopyStepAdvances`).

The rest of the core:
- the linked binary tree, with its pre-order and post-order walks exactly as written (they
  visit the children in-order);
- the array list, linked list, circular array queue, linked queue, array stack and linked
  stack, each with an abstraction onto a sequence;
- merge, quick, insertion, selection, bubble and radix sort, each with a sorted-permutation
  proof (and stability where the code gives it);
- binary and linear search;
- Euclid's gcd, the three Fibonacci routines and the Towers of Hanoi move generator.

Java exceptions become the `Error` constructors of `Wrappers.Result`.

Several routines fail on inputs their class documentation allows (see "## Findings"). For
each such routine the model keeps an **as-written** member, a counterexample on a concrete
tree or list, and a **corrected** member with the intended property proved. The rest of the
model uses the corrected member.

Where the documentation and the code disagree, the model follows the code:
- `hasNext` of the tree iterators is documented to throw ConcurrentModificationException
  when the collection has changed. `ArrayBinaryTree` and its subclass never bump
  `modCount`, so their iterators never throw.
- The `BubbleSort` class comment describes stopping once a pass makes no swap; the code
  always makes `n - 1` passes.
- The `TowersOfHanoi` class comment names peg B as the target; `solve` moves the tower
  from 'A' to 'C'.

Two further points about what the code does:
- `insert`, `remove` and `removeAllOccurrences` update `maxIndex` and `height`;
  `removeMin`/`removeMax` leave both as they were, and the model proves they stay upper
  bounds.
- An `Err` result says only that the call throws. Several routines write to their object
  before the statement that throws (see "## Left out"), and that partial state is not
  part of the model.

## Model

| member | source | states |
|---|---|---|
| HeapIndex.ChildOfParent | src/main/java/data_structures/ArrayBinaryTree.java:108-122 | A non-root slot is the left child (`2i+1`) of its parent when odd and the right child (`2i+2`) when even. |
| HeapIndex.ParentOfChild | src/main/java/data_structures/ArrayBinaryTree.java:108-122 | Both children of slot `q` have `q` as parent; left children are odd, right children even. |
| HeapIndex.SiblingsDisjoint | src/main/java/data_structures/ArrayBinaryTree.java:108-122 | No slot lies below both children of a slot. |
| HeapIndex.InSubSplit | src/main/java/data_structures/ArrayBinaryTree.java:108-122 | A proper descendant of `r` lies below one of `r`'s children. |
| HeapIndex.InSubDisjointOrNested | src/main/java/data_structures/ArrayBinaryTree.java:108-122 | Two subtrees sharing a slot are nested. |
| HeapIndex.RelIndexOfRel | src/main/java/data_structures/ArrayBinarySearchTree.java:307-328 | Relative positions in a subtree are unique: `RelIndex` inverts `Rel`, so a level-order list never names a slot twice. |
| HeapIndex.RelStep | src/main/java/data_structures/ArrayBinarySearchTree.java:307-328 | Consecutive relative positions lie at increasing slots: level order is increasing index order within a subtree. |
| HeapIndex.RelCompose | src/main/java/data_structures/ArrayBinarySearchTree.java:307-328 | Walking `k` positions below relative position `m` of `r` is walking `Rel(m, k)` positions below `r`. |
| HeapIndex.RelMonotoneInRoot | src/main/java/data_structures/ArrayBinarySearchTree.java:307-328 | For the same relative position, a larger root gives a larger slot. |
| HeapIndex.ChildRelLater | src/main/java/data_structures/ArrayBinarySearchTree.java:331-338 | Entry `k` of a child's level-order list is entry `Rel(1 or 2, k) > k` of its parent's list: each source slot comes back as a destination strictly later. |
| HeapIndex.FloorLog2Bounds | src/main/java/data_structures/ArrayBinarySearchTree.java:86 | The integer reading of `log2` used by the height formula satisfies `2^h <= x < 2^(h+1)`. |
| Trees.InOrderListsElems | src/main/java/data_structures/ArrayBinaryTree.java:224-231 | The left-node-right walk lists every stored element exactly once. |
| Trees.PreOrderListsElems | src/main/java/data_structures/ArrayBinaryTree.java:252-259 | The node-left-right walk lists every stored element exactly once. |
| Trees.PostOrderListsElems | src/main/java/data_structures/ArrayBinaryTree.java:280-287 | The left-right-node walk lists every stored element exactly once. |
| Trees.SizeIsElemCount | src/main/java/data_structures/LinkedBinaryTree.java:175-180 | The recursive node count is the number of stored elements. |
| Trees.InOrderSorted | src/main/java/data_structures/ArrayBinarySearchTree.java:9-11 | Under the search-tree order (left smaller, right at least the node) the in-order walk never decreases. |
| Trees.Insert | src/main/java/data_structures/ArrayBinarySearchTree.java:63-83 | Reference insertion (smaller keys left, equal and larger right) yields a non-empty tree one node larger. |
| Trees.InsertElems | src/main/java/data_structures/ArrayBinarySearchTree.java:63-83 | Insertion adds exactly one copy of the key. |
| Trees.InsertKeepsOrder | src/main/java/data_structures/ArrayBinarySearchTree.java:63-83 | Insertion keeps the search-tree order. |
| Trees.Min | src/main/java/data_structures/ArrayBinarySearchTree.java:248-260 | The leftmost element is stored in the tree and, on a search tree, is no greater than any element. |
| Trees.Max | src/main/java/data_structures/ArrayBinarySearchTree.java:271-283 | The rightmost element is stored in the tree and, on a search tree, is no smaller than any element. |
| Trees.RemoveMin | src/main/java/data_structures/ArrayBinarySearchTree.java:189-210 | Removing the leftmost node leaves one node fewer. |
| Trees.RemoveMax | src/main/java/data_structures/ArrayBinarySearchTree.java:219-238 | Removing the rightmost node leaves one node fewer. |
| Trees.RemoveMinElems | src/main/java/data_structures/ArrayBinarySearchTree.java:189-210 | Removing the leftmost node removes exactly one copy of the minimum. |
| Trees.RemoveMaxElems | src/main/java/data_structures/ArrayBinarySearchTree.java:219-238 | Removing the rightmost node removes exactly one copy of the maximum. |
| Trees.RemoveMinKeepsOrder | src/main/java/data_structures/ArrayBinarySearchTree.java:189-210 | Removing the leftmost node keeps the search-tree order. |
| Trees.RemoveMaxKeepsOrder | src/main/java/data_structures/ArrayBinarySearchTree.java:219-238 | Removing the rightmost node keeps the search-tree order. |
| Trees.RemoveRoot | src/main/java/data_structures/ArrayBinarySearchTree.java:285-438 | Reference deletion of a root (other subtree moves up, or the successor takes its place) leaves one node fewer. |
| Trees.RemoveRootElems | src/main/java/data_structures/ArrayBinarySearchTree.java:285-438 | Deleting the root removes exactly one copy of the root's key. |
| Trees.RemoveRootKeepsOrder | src/main/java/data_structures/ArrayBinarySearchTree.java:285-438 | Deleting the root keeps the search-tree order. |
| ArrayTrees.ElemsSlots | src/main/java/data_structures/ArrayBinaryTree.java:144-165 | When every occupied slot hangs below an occupied parent, the subtree at `q` holds exactly the elements stored in the slots below `q`. |
| ArrayTrees.ElemsOfArray | src/main/java/data_structures/ArrayBinaryTree.java:144-149 | The tree holds exactly the elements stored anywhere in the array. |
| ArrayTrees.EmptyHoldsNothing | src/main/java/data_structures/ArrayBinaryTree.java:37-40 | Fifty null slots standing for the empty tree, count 0. |
| ArrayTrees.Singleton | src/main/java/data_structures/ArrayBinaryTree.java:48-52 | Fifty slots standing for the one-node tree, count 1. |
| ArrayTrees.Expand | src/main/java/data_structures/ArrayBinaryTree.java:57-59 | The array doubles and every slot keeps its index; the new slots are null. |
| ArrayTrees.ExpandKeepsTree | src/main/java/data_structures/ArrayBinaryTree.java:57-59 | Doubling changes neither the tree nor the reachability of its elements. |
| ArrayTrees.ExpandCapacity | src/main/java/data_structures/ArrayBinaryTree.java:57-59 | `expandCapacity` doubles the length, keeps count and modCount, and stands for the same tree. |
| ArrayTrees.FindFrom | src/main/java/data_structures/ArrayBinaryTree.java:159-165 | `find`: the lowest slot holding the target, or -1 exactly when no slot holds it. |
| ArrayTrees.Contains | src/main/java/data_structures/ArrayBinaryTree.java:144-149 | `contains` holds exactly when some slot holds the element. |
| ArrayTrees.ContainsIsMembership | src/main/java/data_structures/ArrayBinaryTree.java:144-149 | On a consistent array, `contains` is membership in the tree it stands for. |
| ArrayTrees.GetLeftChild | src/main/java/data_structures/ArrayBinaryTree.java:69-79 | ElementNotFound exactly for an absent parent; otherwise IndexOutOfBounds exactly when slot `2i+1` is past the end, ChildNotFound(left) when it is null, and the left child of the found node otherwise. |
| ArrayTrees.GetRightChild | src/main/java/data_structures/ArrayBinaryTree.java:89-99 | The mirror image of `getLeftChild`, at slot `2i+2`. |
| ArrayTrees.IsEmptyIffNoSlots | src/main/java/data_structures/ArrayBinaryTree.java:181-183 | On a consistent array, `count == 0` exactly when the tree is empty and exactly when no slot is occupied. |
| ArrayTrees.GetRoot | src/main/java/data_structures/ArrayBinaryTree.java:130-135 | EmptyCollection exactly when the count is 0; on a consistent array, otherwise the root element. |
| ArrayTrees.InOrderFrom | src/main/java/data_structures/ArrayBinaryTree.java:224-231 | The array walk that skips null and out-of-range slots is the in-order walk of the subtree the slot stands for. |
| ArrayTrees.PreOrderFrom | src/main/java/data_structures/ArrayBinaryTree.java:252-259 | The array walk is the pre-order walk of the subtree. |
| ArrayTrees.PostOrderFrom | src/main/java/data_structures/ArrayBinaryTree.java:280-287 | The array walk is the post-order walk of the subtree. |
| ArrayTrees.TraversalsListSlots | src/main/java/data_structures/ArrayBinaryTree.java:224-287 | All three walks list the same multiset, the tree's elements, and an element is listed exactly when some slot holds it. |
| ArrayTrees.HasNext | src/main/java/data_structures/ArrayBinaryTree.java:313-318 | ConcurrentModification exactly when modCount changed; otherwise whether items remain. |
| ArrayTrees.Next | src/main/java/data_structures/ArrayBinaryTree.java:327-332 | The next item and an advanced cursor; NoSuchElement past the end; ConcurrentModification after a change. |
| ArrayTrees.DrainYieldsItems | src/main/java/data_structures/ArrayBinaryTree.java:313-332 | While modCount is unchanged, an iterator delivers the rest of its snapshot in order. |
| ArrayTrees.IterationYieldsInOrder | src/main/java/data_structures/ArrayBinaryTree.java:211-216 | `iteratorInOrder` delivers the in-order walk of the tree, on any later state with the same modCount. |
| ArrayBsts.HeightOf | src/main/java/data_structures/ArrayBinarySearchTree.java:86 | The height formula gives at least 1 for a non-empty tree, and its level bound `2^h - 2` covers maxIndex. |
| ArrayBsts.EmptyBst | src/main/java/data_structures/ArrayBinarySearchTree.java:26-30 | The empty constructor satisfies the search-tree invariants and stands for the empty tree. |
| ArrayBsts.SingletonBst | src/main/java/data_structures/ArrayBinarySearchTree.java:37-41 | The seeded constructor satisfies the invariants and stands for the one-node tree. |
| ArrayBsts.PreparedReady | src/main/java/data_structures/ArrayBinarySearchTree.java:53-54 | After the conditional doubling the array has room for both children of every slot up to maxIndex, stays even, and stands for the same tree. |
| ArrayBsts.InsertSlotInRange | src/main/java/data_structures/ArrayBinarySearchTree.java:53-54 | The slot the insertion walk writes is at most `2·maxIndex + 2`, so one doubling suffices. |
| ArrayBsts.InsertIntoInserts | src/main/java/data_structures/ArrayBinarySearchTree.java:52-88 | Insertion is the reference insertion on the tree, keeps every invariant, counts one more, and sets the height from the new maxIndex. |
| ArrayBsts.Insert | src/main/java/data_structures/ArrayBinarySearchTree.java:52-88 | The loop as written reaches the state above: reference insertion, invariants kept, count + 1. |
| ArrayBsts.FirstSlot | src/main/java/data_structures/ArrayBinarySearchTree.java:102-108 | The lowest slot up to maxIndex holding the target, or -1 exactly when none does. |
| ArrayBsts.LastOccupied | src/main/java/data_structures/ArrayBinarySearchTree.java:113-117 | The highest occupied slot up to the bound, or -1 when none is occupied. |
| ArrayBsts.FirstSlotIsMembership | src/main/java/data_structures/ArrayBinarySearchTree.java:102-111 | The search finds a slot exactly when the target is in the tree. |
| ArrayBsts.ReplaceInTree | src/main/java/data_structures/ArrayBinarySearchTree.java:285-438 | Replacing an occupied slot deletes one copy of its element from the whole tree and keeps the array invariants and the search-tree order. |
| ArrayBsts.RemoveAtRemoves | src/main/java/data_structures/ArrayBinarySearchTree.java:99-120 | Deleting at an occupied slot removes one copy, keeps every invariant, decrements count and recomputes maxIndex exactly. |
| ArrayBsts.Remove | src/main/java/data_structures/ArrayBinarySearchTree.java:99-120 | ElementNotFound exactly for an absent target; otherwise the first matching slot is deleted: one copy fewer, invariants kept, count − 1. |
| ArrayBsts.ScanMaxIndex | src/main/java/data_structures/ArrayBinarySearchTree.java:113-117 | The rescan loop yields the last occupied slot up to the old maxIndex. |
| ArrayBsts.RemoveAllOccurrences | src/main/java/data_structures/ArrayBinarySearchTree.java:171-180 | ElementNotFound exactly for an absent target; otherwise every copy is gone and all other counts are unchanged. |
| ArrayBsts.RemoveMin | src/main/java/data_structures/ArrayBinarySearchTree.java:189-210 | EmptyCollection exactly on an empty tree; otherwise returns the minimum, and the tree becomes the reference `RemoveMin` with the invariants kept. |
| ArrayBsts.MinRemoved | src/main/java/data_structures/ArrayBinarySearchTree.java:189-210 | The leftmost slot holds the minimum, and replacing it yields the reference `RemoveMin` with the invariants kept. |
| ArrayBsts.RemoveMax | src/main/java/data_structures/ArrayBinarySearchTree.java:219-238 | EmptyCollection exactly on an empty tree; otherwise returns the maximum, and the tree becomes the reference `RemoveMax`. |
| ArrayBsts.MaxRemoved | src/main/java/data_structures/ArrayBinarySearchTree.java:219-238 | The rightmost slot holds the maximum, and replacing it yields the reference `RemoveMax` with the invariants kept. |
| ArrayBsts.FindMin | src/main/java/data_structures/ArrayBinarySearchTree.java:248-260 | EmptyCollection exactly on an empty tree; otherwise the minimum. |
| ArrayBsts.FindMax | src/main/java/data_structures/ArrayBinarySearchTree.java:271-283 | EmptyCollection exactly on an empty tree; otherwise the maximum. |
| ArrayBsts.GetArray | src/main/java/data_structures/ArrayBinarySearchTree.java:128-143 | The copy stands for the same tree, and is empty exactly for the empty tree. |
| ArrayBsts.GetMaxIndex | src/main/java/data_structures/ArrayBinarySearchTree.java:150-152 | No slot above the returned index is occupied. |
| ArrayBsts.GetHeight | src/main/java/data_structures/ArrayBinarySearchTree.java:159-161 | Once anything is stored below the root, every occupied slot lies within the first `height` levels. |
| ArrayBsts.IteratorYieldsSorted | src/main/java/data_structures/ArrayBinaryTree.java:313-332 | With modCount never bumped, an in-order iterator over a search tree runs to the end and yields a non-decreasing snapshot. |
| BstReplace.LevelBound | src/main/java/data_structures/ArrayBinarySearchTree.java:312 | `2^height - 2` is even and non-negative for a positive height, and at least -2. |
| BstReplace.Leftmost | src/main/java/data_structures/ArrayBinarySearchTree.java:384-388 | The successor descent stops at a slot whose left child is null. |
| BstReplace.LeftmostIsMin | src/main/java/data_structures/ArrayBinarySearchTree.java:384-388 | The descent ends inside the subtree, on the slot holding its least element. |
| BstReplace.RemoveLeftmost | src/main/java/data_structures/ArrayBinarySearchTree.java:383-436 | Putting the right subtree in place of the leftmost slot, and nothing else, turns the subtree into the reference `RemoveMin`. |
| BstReplace.Rightmost | src/main/java/data_structures/ArrayBinarySearchTree.java:227-230 | The right descent stops at a slot whose right child is null. |
| BstReplace.RightmostIsMax | src/main/java/data_structures/ArrayBinarySearchTree.java:219-238 | The right descent ends on the slot holding the subtree's greatest element. |
| BstReplace.RemoveRightmost | src/main/java/data_structures/ArrayBinarySearchTree.java:219-238 | Putting the left subtree in place of the rightmost slot turns the subtree into the reference `RemoveMax`. |
| BstReplace.ClearLeaf | src/main/java/data_structures/ArrayBinarySearchTree.java:293-298 | Clearing a slot without children keeps reachability, empties that subtree and touches nothing else. |
| BstReplace.MoveUp | src/main/java/data_structures/ArrayBinarySearchTree.java:301-339 | With the sibling subtree empty, the shift makes the subtree at the vacated slot the child's subtree, leaves the rest alone and keeps the array's shape. |
| BstReplace.Replace | src/main/java/data_structures/ArrayBinarySearchTree.java:285-438 | `replace` keeps the array length. |
| BstReplace.DropSlotLiftsRight | src/main/java/data_structures/ArrayBinarySearchTree.java:393-435 | Dropping the successor's slot puts its right subtree in its place and leaves everything outside alone. |
| BstReplace.ReplaceRemovesRoot | src/main/java/data_structures/ArrayBinarySearchTree.java:285-438 | `replace` at an occupied slot performs the reference root deletion on that subtree, touches nothing outside it and keeps the array invariants. |
| BstReplace.ReplaceLeaf | src/main/java/data_structures/ArrayBinarySearchTree.java:293-298 | The childless case deletes the subtree's only node. |
| BstReplace.ReplaceTwoChildren | src/main/java/data_structures/ArrayBinarySearchTree.java:383-436 | The two-children case is the reference deletion: the successor's value moves up and its slot is dropped. |
| BstReplace.SuccessorRemoved | src/main/java/data_structures/ArrayBinarySearchTree.java:383-436 | After the copy-up, the slot holds the successor, the left subtree is as before and the right subtree lost its least element. |
| BstReplace.LiftRemoval | src/main/java/data_structures/ArrayBinarySearchTree.java:99-120 | A deletion below slot `i` that keeps that subtree ordered deletes the same copy from every enclosing subtree and keeps each ordered. |
| BstReplace.SubtreeIsBst | src/main/java/data_structures/ArrayBinarySearchTree.java:9-11 | Every subtree of a search tree is a search tree. |
| BstReplace.InsertSlot | src/main/java/data_structures/ArrayBinarySearchTree.java:63-83 | The insertion walk ends at a null slot at or below the start. |
| BstReplace.InsertSlotParent | src/main/java/data_structures/ArrayBinarySearchTree.java:63-83 | The walk ends at the start or below an occupied slot. |
| BstReplace.InsertSlotPlaces | src/main/java/data_structures/ArrayBinarySearchTree.java:63-83 | Storing the key where the walk ends is the reference insertion on the subtree. |
| Shifts.MidstateGet | src/main/java/data_structures/ArrayBinarySearchTree.java:331-338 | After `k` turns of the copy, the vacated subtree holds the first `k` positions of the child's subtree, unread source slots are null, and nothing else changed. |
| Shifts.CopyStepAdvances | src/main/java/data_structures/ArrayBinarySearchTree.java:331-338 | One turn of `tree[old] = tree[new]; tree[new] = null` moves the copy from `k` to `k + 1` positions: the source slot is read before any turn writes it. |
| Shifts.CopyFromChain | src/main/java/data_structures/ArrayBinarySearchTree.java:331-338 | A copy loop whose turns follow a chain of states ends in the chain's last state. |
| Shifts.ShiftUpReaches | src/main/java/data_structures/ArrayBinarySearchTree.java:331-338 | The whole copy over the two level-order lists ends in the state after all turns. |
| Shifts.BeyondList | src/main/java/data_structures/ArrayBinarySearchTree.java:307-316 | Past the end of a level-order list, every position of the subtree lies above the even bound. |
| Shifts.ShiftUpMoves | src/main/java/data_structures/ArrayBinarySearchTree.java:301-339 | The shift moves the child's subtree into the vacated one position by position and touches nothing outside it. |
| Shifts.ShiftUpKeepsShape | src/main/java/data_structures/ArrayBinarySearchTree.java:301-339 | The shift keeps every element reachable and stores nothing above a slot the array left empty. |
| LevelOrder.WalkFrom | src/main/java/data_structures/ArrayBinarySearchTree.java:309-316 | Mid-walk, after `n` visits, the queue holds relative positions `n .. 2·min(n, E)`, and the rest of the walk lists them and their expansions. |
| LevelOrder.LevelList | src/main/java/data_structures/ArrayBinarySearchTree.java:307-316 | The filled list has `2E + 1` entries, entry `k` being relative position `k` of the subtree. |
| LevelOrder.LevelListComplete | src/main/java/data_structures/ArrayBinarySearchTree.java:307-316 | Under an even bound, every slot of the subtree within the bound is on the list. |
| LevelOrder.LevelListShrinksBelow | src/main/java/data_structures/ArrayBinarySearchTree.java:331-338 | The list from a deeper root is no longer, so the vacated slot's list never runs out before the child's. |
| LevelOrder.Visit | src/main/java/data_structures/ArrayBinarySearchTree.java:310-315 | One turn with the as-written `removeAt(0)`: it fails exactly when the queue fills its array, and otherwise takes the head and appends its children when the bound allows. |
| LevelOrder.WalkAsWritten | src/main/java/data_structures/ArrayBinarySearchTree.java:309-316 | The fill loop over an array-list queue keeps the queue a valid list. |
| LevelOrder.WalkAsWrittenOverflows | src/main/java/data_structures/ArrayBinarySearchTree.java:309-316 | Once nine leading positions expand, the queue reaches ten entries and the walk throws. |
| LevelOrder.WalkAsWrittenAgrees | src/main/java/data_structures/ArrayBinarySearchTree.java:309-316 | With fewer expanded positions the as-written walk lists exactly what the plain walk lists. |
| LevelOrder.LevelListAsWrittenFails | src/main/java/data_structures/ArrayBinarySearchTree.java:306-316 | The as-written fill throws exactly when the walk expands nine leading positions, and otherwise yields `LevelList` with the queue left empty. |
| BstAsWritten.CopyAsWritten | src/main/java/data_structures/ArrayBinarySearchTree.java:331-338 | The copy loop keeps the length, and fails only with IndexOutOfBounds or NoSuchElement. |
| BstAsWritten.CopyAsWrittenAgrees | src/main/java/data_structures/ArrayBinarySearchTree.java:331-338 | A copy loop that finishes has done the corrected copy. |
| BstAsWritten.CopyAsWrittenThrows | src/main/java/data_structures/ArrayBinarySearchTree.java:336 | The copy throws at the first turn whose source slot is past the end. |
| BstAsWritten.ShiftUpAsWritten | src/main/java/data_structures/ArrayBinarySearchTree.java:306-338 | The one-child shift with its array-list queue keeps the length and fails only with IndexOutOfBounds or NoSuchElement. |
| BstAsWritten.ShiftUpAsWrittenAgrees | src/main/java/data_structures/ArrayBinarySearchTree.java:306-338 | A shift that returns has done the corrected shift. |
| BstAsWritten.DescentAsWritten | src/main/java/data_structures/ArrayBinarySearchTree.java:384-388 | The successor descent ends on the leftmost slot, and throws exactly when that slot's left child is past the end. |
| BstAsWritten.ReplaceAsWritten | src/main/java/data_structures/ArrayBinarySearchTree.java:285-438 | `replace` as written keeps the length and fails only with IndexOutOfBounds or NoSuchElement. |
| BstAsWritten.ReplaceAsWrittenAgrees | src/main/java/data_structures/ArrayBinarySearchTree.java:285-438 | Whenever `replace` as written returns, it has done what the corrected `replace` does. |
| BstAsWritten.RemoveAsWritten | src/main/java/data_structures/ArrayBinarySearchTree.java:99-120 | ElementNotFound exactly when no slot up to maxIndex holds the target. |
| BstAsWritten.RemoveAsWrittenAgrees | src/main/java/data_structures/ArrayBinarySearchTree.java:99-120 | Whenever `remove` as written returns, it has done the corrected removal: one copy fewer, invariants kept. |
| BstAsWritten.MinLoopAsWritten | src/main/java/data_structures/ArrayBinarySearchTree.java:197-202 | The `removeMin` loop ends on the leftmost slot, and throws exactly when that slot's left child is past the end. |
| BstAsWritten.MaxLoopAsWritten | src/main/java/data_structures/ArrayBinarySearchTree.java:227-230 | The `removeMax` loop fails only with IndexOutOfBounds. |
| BstAsWritten.MaxLoopAsWrittenFinds | src/main/java/data_structures/ArrayBinarySearchTree.java:227-230 | With nothing above maxIndex, the loop ends on the rightmost slot and throws exactly when its right child is past the end. |
| BstAsWritten.RemoveMinAsWritten | src/main/java/data_structures/ArrayBinarySearchTree.java:189-210 | EmptyCollection on an empty tree. |
| BstAsWritten.RemoveMaxAsWritten | src/main/java/data_structures/ArrayBinarySearchTree.java:219-238 | EmptyCollection on an empty tree. |
| BstAsWritten.RemoveMinAsWrittenAgrees | src/main/java/data_structures/ArrayBinarySearchTree.java:189-210 | Whenever `removeMin` as written returns, it returned the minimum and left the reference `RemoveMin`. |
| BstAsWritten.RemoveMaxAsWrittenAgrees | src/main/java/data_structures/ArrayBinarySearchTree.java:219-238 | Whenever `removeMax` as written returns, it returned the maximum and left the reference `RemoveMax`. |
| BstAsWritten.InsertAll | src/main/java/data_structures/ArrayBinarySearchTree.java:52-88 | A fresh tree after inserting each key counts every key. |
| BstAsWritten.InsertAllValid | src/main/java/data_structures/ArrayBinarySearchTree.java:52-88 | Every tree built by insertions satisfies the invariants. |
| BstAsWritten.DeepLeftSpine | src/main/java/data_structures/ArrayBinarySearchTree.java:52-88 | Inserting 100, 200, 150, 120, 110, 105 fills slots 0, 2, 5, 11, 23 and 47 of fifty. |
| BstAsWritten.SuccessorOnLastLevel | src/main/java/data_structures/ArrayBinarySearchTree.java:52-88 | Inserting 50, 60, 55, 52, 51, 53 fills slots 0, 2, 5, 11, 23 and 24. |
| BstAsWritten.SuccessorBelowLastLevel | src/main/java/data_structures/ArrayBinarySearchTree.java:52-88 | Inserting 50, 60, 55, 52, 57, 56 fills slots 0, 2, 5, 11, 12 and 25. |
| BstAsWritten.LeftSpine | src/main/java/data_structures/ArrayBinarySearchTree.java:52-88 | Inserting 60, 50, 40, 30, 20, 10 fills slots 0, 1, 3, 7, 15 and 31. |
| BstAsWritten.RightSpine | src/main/java/data_structures/ArrayBinarySearchTree.java:52-88 | Inserting 10, 20, 30, 40, 50 fills slots 0, 2, 6, 14 and 30. |
| BstAsWritten.LeftOnlyShiftThrows | src/main/java/data_structures/ArrayBinarySearchTree.java:336 | Shifting a left-only slot 5 of fifty under height 6 reads slot 50. |
| BstAsWritten.LeftOnlyQueueThrows | src/main/java/data_structures/ArrayBinarySearchTree.java:310 | Shifting into slot 2 under height 6 overflows the ten-slot queue. |
| BstAsWritten.SuccessorRightChildThrows | src/main/java/data_structures/ArrayBinarySearchTree.java:396 | A successor at slot 24 of fifty has its right child read at slot 50. |
| BstAsWritten.SuccessorDescentThrows | src/main/java/data_structures/ArrayBinarySearchTree.java:386 | The descent through slot 25 of fifty reads slot 51. |
| BstAsWritten.DeepLeftSpineThrows | src/main/java/data_structures/ArrayBinarySearchTree.java:99-120 | Any tree shaped like `DeepLeftSpine` makes `remove` throw for 150 and for 200. |
| BstAsWritten.RemoveCopyReadsPastEnd | src/main/java/data_structures/ArrayBinarySearchTree.java:336 | `remove(150)` on a valid tree containing 150 throws IndexOutOfBounds in the copy loop. |
| BstAsWritten.RemoveQueueOverflows | src/main/java/data_structures/ArrayBinarySearchTree.java:310 | `remove(200)` on the same tree throws inside the level-order queue. |
| BstAsWritten.RemoveSuccessorReadsPastEnd | src/main/java/data_structures/ArrayBinarySearchTree.java:396 | `remove(52)` on a valid tree containing 52 throws reading the successor's right child. |
| BstAsWritten.RemoveDescentReadsPastEnd | src/main/java/data_structures/ArrayBinarySearchTree.java:386 | `remove(55)` on a valid tree containing 55 throws in the successor descent. |
| BstAsWritten.RemoveMinReadsPastEnd | src/main/java/data_structures/ArrayBinarySearchTree.java:197 | `removeMin` on a valid non-empty tree with a six-node left spine throws. |
| BstAsWritten.RemoveMaxReadsPastEnd | src/main/java/data_structures/ArrayBinarySearchTree.java:227 | `removeMax` on a valid non-empty tree with a five-node right spine throws. |
| LinkedTrees.EmptyHoldsNothing | src/main/java/data_structures/LinkedBinaryTree.java:30-32 | The empty tree: size 0 and `isEmpty`. |
| LinkedTrees.Singleton | src/main/java/data_structures/LinkedBinaryTree.java:39-41 | One node holding the element; all three walks list just it. |
| LinkedTrees.Join | src/main/java/data_structures/LinkedBinaryTree.java:51-55 | A new root over the two given roots: sizes and elements add up. |
| LinkedTrees.FindNode | src/main/java/data_structures/LinkedBinaryTree.java:145-158 | `findNode` returns a node holding the target, and null exactly when the target is absent. |
| LinkedTrees.FindNodeIsFirstInPreOrder | src/main/java/data_structures/LinkedBinaryTree.java:145-158 | The node found is the first subtree in pre-order whose root holds the target. |
| LinkedTrees.FoundNodeInside | src/main/java/data_structures/LinkedBinaryTree.java:145-158 | The node found lies inside the tree searched. |
| LinkedTrees.Contains | src/main/java/data_structures/LinkedBinaryTree.java:131-136 | `contains` is membership. |
| LinkedTrees.GetLeftChild | src/main/java/data_structures/LinkedBinaryTree.java:65-78 | ElementNotFound exactly for an absent parent; otherwise, for the first node holding the parent in pre-order (the one `findNode` returns), ChildNotFound(left) exactly when that node has no left child, and its left child's element when it has one. |
| LinkedTrees.GetRightChild | src/main/java/data_structures/LinkedBinaryTree.java:88-100 | The mirror image of `getLeftChild`: ChildNotFound(right) exactly when the first pre-order node holding the parent has no right child, otherwise that right child's element. |
| LinkedTrees.GetRoot | src/main/java/data_structures/LinkedBinaryTree.java:108-113 | EmptyCollection exactly on an empty tree; otherwise the root, which the pre-order walk lists first. |
| LinkedTrees.SizeCountsNodes | src/main/java/data_structures/LinkedBinaryTree.java:165-189 | `size` is zero exactly when `isEmpty`, and counts the stored elements. |
| LinkedTrees.PreOrderAsWritten | src/main/java/data_structures/LinkedBinaryTree.java:246-252 | The node, then each child walked in-order: every element once, the root first. |
| LinkedTrees.PostOrderAsWritten | src/main/java/data_structures/LinkedBinaryTree.java:273-279 | Each child walked in-order, then the node: every element once, the root last. |
| LinkedTrees.IteratorInOrder | src/main/java/data_structures/LinkedBinaryTree.java:206-225 | The in-order iterator lists exactly the stored elements. |
| LinkedTrees.IteratorPreOrderAsWritten | src/main/java/data_structures/LinkedBinaryTree.java:233-252 | The pre-order iterator as written lists exactly the stored elements. |
| LinkedTrees.IteratorPostOrderAsWritten | src/main/java/data_structures/LinkedBinaryTree.java:260-279 | The post-order iterator as written lists exactly the stored elements. |
| LinkedTrees.InOrderIteratorSorted | src/main/java/data_structures/LinkedBinaryTree.java:219-225 | On a search tree the in-order iterator never decreases. |
| LinkedTrees.PreOrderAsWrittenMisorders | src/main/java/data_structures/LinkedBinaryTree.java:249-250 | On the left spine 3, 2, 1 the as-written walk lists 3, 1, 2 where pre-order lists 3, 2, 1. |
| LinkedTrees.PostOrderAsWrittenMisorders | src/main/java/data_structures/LinkedBinaryTree.java:275-276 | On the right spine 1, 2, 3 the as-written walk lists 2, 3, 1 where post-order lists 3, 2, 1. |
| LinkedTrees.PreOrderAsWrittenAgreesOnShallowTrees | src/main/java/data_structures/LinkedBinaryTree.java:246-252 | When no child has children, the as-written walk is the pre-order walk. |
| LinkedTrees.PostOrderAsWrittenAgreesOnShallowTrees | src/main/java/data_structures/LinkedBinaryTree.java:273-279 | When no child has children, the as-written walk is the post-order walk. |
| LinkedTrees.PreOrderListsSubtreesAsBlocks | src/main/java/data_structures/LinkedBinaryTree.java:246-252 | The corrected pre-order walk lists every subtree as one contiguous block starting at its root. |
| LinkedTrees.PostOrderListsSubtreesAsBlocks | src/main/java/data_structures/LinkedBinaryTree.java:273-279 | The corrected post-order walk lists every subtree as one contiguous block ending at its root. |
| LinkedTrees.IteratorPreOrder | src/main/java/data_structures/LinkedBinaryTree.java:233-252 | The corrected pre-order iterator lists every element once, entry `i` being the root of the `i`-th subtree in pre-order. |
| LinkedTrees.IteratorPostOrder | src/main/java/data_structures/LinkedBinaryTree.java:260-279 | The corrected post-order iterator lists every element once, entry `i` being the root of the `i`-th subtree in post-order. |
| ArrayLists.NewChecksCapacity | src/main/java/data_structures/ArrayList.java:43-48 | IllegalArgument exactly for a negative capacity; otherwise an empty list of that capacity. |
| ArrayLists.EmptyHoldsNothing | src/main/java/data_structures/ArrayList.java:33-35 | An empty list of capacity ten. |
| ArrayLists.ExpandCapacity | src/main/java/data_structures/ArrayList.java:54-56 | The array doubles, the prefix is kept, new slots are null, and the list is the same. |
| ArrayLists.ArrayCopy | src/main/java/data_structures/ArrayList.java:111 | `System.arraycopy` in one array: throws on a negative argument or a range past either end; otherwise copies the range as if set aside first and changes nothing else. |
| ArrayLists.Insert | src/main/java/data_structures/ArrayList.java:74-87 | IndexOutOfBounds exactly for an index outside `[0, size]` or a zero-capacity array; otherwise the element is inserted at the index and size and modCount grow by one. |
| ArrayLists.ShiftInsert | src/main/java/data_structures/ArrayList.java:81-86 | With room past the filled prefix, shifting the tail right and writing the gap leaves a valid list whose contents are the old ones with the element at the index; size and modCount grow by one and the capacity is kept. |
| ArrayLists.Add | src/main/java/data_structures/ArrayList.java:63-65 | Appends; the capacity doubles exactly when the list was full; fails only on a zero capacity. |
| ArrayLists.RemoveAtAsWritten | src/main/java/data_structures/ArrayList.java:104-117 | As written, it fails on an empty list, on an index outside `[0, size)` and on any full list; otherwise it returns the element and removes it. |
| ArrayLists.RemoveAt | src/main/java/data_structures/ArrayList.java:104-117 | Corrected: fails exactly on an empty list or an index outside `[0, size)`; otherwise returns the element and removes it. |
| ArrayLists.IndexOf | src/main/java/data_structures/ArrayList.java:162-168 | The first position holding the target, or -1 exactly when it is absent. |
| ArrayLists.Contains | src/main/java/data_structures/ArrayList.java:151-153 | `contains` is membership. |
| ArrayLists.Remove | src/main/java/data_structures/ArrayList.java:94-96 | Corrected (over the corrected `removeAt`): EmptyCollection on an empty list, IndexOutOfBounds for an absent element; otherwise the first equal element is removed. |
| ArrayLists.RemoveAsWritten | src/main/java/data_structures/ArrayList.java:94-117 | As written, through the as-written `removeAt`: succeeds exactly when the element is present and the list is not full, and then removes what the corrected `remove` removes. |
| ArrayLists.RemoveOnFullList | src/main/java/data_structures/ArrayList.java:94-117 | On a full list holding the element, `remove` as written throws IndexOutOfBounds while the corrected one removes it. |
| ArrayLists.Get | src/main/java/data_structures/ArrayList.java:126-131 | Fails exactly outside `[0, size]` or past the array; inside the list it is the element; at `size` it reads the slot past the list. |
| ArrayLists.Set | src/main/java/data_structures/ArrayList.java:139-143 | Same guard as `get`; inside the list it replaces one element; at `size` no element of the list changes; modCount is kept. |
| ArrayLists.IsEmpty | src/main/java/data_structures/ArrayList.java:184-186 | Empty exactly when the list is the empty sequence. |
| ArrayLists.HasNext | src/main/java/data_structures/ArrayList.java:235-240 | ConcurrentModification exactly when modCount changed. |
| ArrayLists.Next | src/main/java/data_structures/ArrayList.java:250-257 | The element at the cursor and an advanced cursor; NoSuchElement past the end. |
| ArrayLists.DrainYieldsContents | src/main/java/data_structures/ArrayList.java:235-257 | An iterator over an unmodified list yields the rest of the list in order. |
| ArrayLists.ModifiedListFailsFast | src/main/java/data_structures/ArrayList.java:235-240 | After a successful insertion or removal, an older iterator's `hasNext` throws. |
| ArrayLists.AddAll | src/main/java/data_structures/ArrayList.java:63-65 | Appending each element in turn yields the list followed by them. |
| ArrayLists.AddAllKeepsCapacity | src/main/java/data_structures/ArrayList.java:63-65 | Filling a list up to its capacity never grows it. |
| ArrayLists.RemoveAtOnFullList | src/main/java/data_structures/ArrayList.java:114 | After ten appends to a default list, `removeAt(0)` as written throws; the corrected one succeeds. |
| ArrayQueues.StepWraps | src/main/java/data_structures/ArrayQueue.java:73 | `(k + 1) % n` is the next slot round the ring. |
| ArrayQueues.NewChecksCapacity | src/main/java/data_structures/ArrayQueue.java:40-43 | NegativeArraySize exactly for a negative capacity; otherwise an empty queue of that capacity. |
| ArrayQueues.EmptyHoldsNothing | src/main/java/data_structures/ArrayQueue.java:30-32 | An empty queue of capacity one hundred. |
| ArrayQueues.Expanded | src/main/java/data_structures/ArrayQueue.java:50-61 | The elements in queue order at the start of an array twice as long, front 0, rear `count`. |
| ArrayQueues.ExpandCapacity | src/main/java/data_structures/ArrayQueue.java:50-61 | The wrapping copy loop produces exactly that state. |
| ArrayQueues.Enqueue | src/main/java/data_structures/ArrayQueue.java:68-76 | Fails exactly on a zero capacity; otherwise the element joins the back, and the capacity doubles exactly when the queue was full. |
| ArrayQueues.Dequeue | src/main/java/data_structures/ArrayQueue.java:84-95 | EmptyCollection exactly when empty; otherwise the oldest element, with the rest kept in order. |
| ArrayQueues.First | src/main/java/data_structures/ArrayQueue.java:103-108 | EmptyCollection exactly when empty; otherwise what `dequeue` would return. |
| ArrayQueues.IsEmpty | src/main/java/data_structures/ArrayQueue.java:115-117 | Empty exactly when there are no elements. |
| ArrayQueues.Size | src/main/java/data_structures/ArrayQueue.java:124-126 | The number of elements. |
| ArrayQueues.DequeueAllInOrder | src/main/java/data_structures/ArrayQueue.java:84-95 | Dequeuing until empty returns the elements oldest first. |
| ArrayQueues.FifoOrder | src/main/java/data_structures/ArrayQueue.java:68-95 | An element enqueued now comes out after every element already queued. |
| ArrayStacks.NewChecksCapacity | src/main/java/data_structures/ArrayStack.java:40-43 | NegativeArraySize exactly for a negative capacity; otherwise an empty stack. |
| ArrayStacks.EmptyHoldsNothing | src/main/java/data_structures/ArrayStack.java:30-32 | An empty stack of capacity one hundred. |
| ArrayStacks.ExpandCapacity | src/main/java/data_structures/ArrayStack.java:49-51 | Doubles the array and keeps the stack. |
| ArrayStacks.Push | src/main/java/data_structures/ArrayStack.java:58-63 | Fails exactly on a zero capacity; otherwise the element goes on top, and the capacity doubles exactly when full. |
| ArrayStacks.Pop | src/main/java/data_structures/ArrayStack.java:70-75 | EmptyCollection exactly when empty; otherwise the top element, with the array left as it was. |
| ArrayStacks.Peek | src/main/java/data_structures/ArrayStack.java:82-87 | EmptyCollection exactly when empty; otherwise what `pop` would return. |
| ArrayStacks.IsEmpty | src/main/java/data_structures/ArrayStack.java:94-96 | Empty exactly when there are no elements. |
| ArrayStacks.Size | src/main/java/data_structures/ArrayStack.java:103-105 | The number of elements. |
| ArrayStacks.PopAllReversed | src/main/java/data_structures/ArrayStack.java:70-75 | Popping until empty returns the elements newest first. |
| ArrayStacks.PopUndoesPush | src/main/java/data_structures/ArrayStack.java:58-75 | A pop right after a push returns the element and the previous contents. |
| LinkedQueues.EmptyHoldsNothing | src/main/java/data_structures/LinkedQueue.java:28-31 | The empty queue satisfies the invariant. |
| LinkedQueues.IsEmpty | src/main/java/data_structures/LinkedQueue.java:89-91 | Empty exactly when the chain is empty. |
| LinkedQueues.Size | src/main/java/data_structures/LinkedQueue.java:98-100 | The count is the chain length. |
| LinkedQueues.Enqueue | src/main/java/data_structures/LinkedQueue.java:38-48 | The element joins the back, and the invariant holds. |
| LinkedQueues.Dequeue | src/main/java/data_structures/LinkedQueue.java:56-68 | EmptyCollection exactly when empty; otherwise the front element, with the rear reset when the queue empties. |
| LinkedQueues.First | src/main/java/data_structures/LinkedQueue.java:77-82 | EmptyCollection exactly when empty; otherwise what `dequeue` would return. |
| LinkedQueues.DequeueAllInOrder | src/main/java/data_structures/LinkedQueue.java:56-68 | Dequeuing until empty returns the chain front to rear. |
| LinkedQueues.FifoOrder | src/main/java/data_structures/LinkedQueue.java:38-68 | An element enqueued now comes out after every element already queued. |
| LinkedStacks.EmptyHoldsNothing | src/main/java/data_structures/LinkedStack.java:25-28 | The empty stack satisfies the invariant. |
| LinkedStacks.IsEmpty | src/main/java/data_structures/LinkedStack.java:79-81 | Empty exactly when the chain is empty. |
| LinkedStacks.Size | src/main/java/data_structures/LinkedStack.java:88-90 | The count is the chain length. |
| LinkedStacks.Push | src/main/java/data_structures/LinkedStack.java:35-41 | The element goes in front of the chain. |
| LinkedStacks.Pop | src/main/java/data_structures/LinkedStack.java:49-58 | EmptyCollection exactly when empty; otherwise the top element and the rest of the chain. |
| LinkedStacks.Peek | src/main/java/data_structures/LinkedStack.java:67-72 | EmptyCollection exactly when empty; otherwise what `pop` would return. |
| LinkedStacks.PopUndoesPush | src/main/java/data_structures/LinkedStack.java:35-58 | A pop right after a push gives back the element and the previous stack. |
| LinkedLists.EmptyHoldsNothing | src/main/java/data_structures/LinkedList.java:26-29 | The empty list satisfies the invariant. |
| LinkedLists.Add | src/main/java/data_structures/LinkedList.java:36-47 | Appends and bumps modCount. |
| LinkedLists.AddAtAsWritten | src/main/java/data_structures/LinkedList.java:55-83 | As written, it fails exactly for an index past the size, agrees with the corrected `add` on `[0, size]`, and for a negative index grows the counter without changing the chain. |
| LinkedLists.AddAt | src/main/java/data_structures/LinkedList.java:55-83 | Corrected: fails exactly outside `[0, size]`; otherwise inserts at the index. |
| LinkedLists.IndexOf | src/main/java/data_structures/LinkedList.java:215-227 | The first position holding the target, or -1 exactly when it is absent. |
| LinkedLists.Contains | src/main/java/data_structures/LinkedList.java:205-207 | `contains` is membership. |
| LinkedLists.Remove | src/main/java/data_structures/LinkedList.java:90-124 | EmptyCollection on an empty list, ElementNotFound for an absent element; otherwise the first equal node is unlinked. |
| LinkedLists.RemoveAtAsWritten | src/main/java/data_structures/LinkedList.java:134-162 | As written, it fails exactly on an empty list or an index at or past the size, and agrees with the corrected `removeAt` for indices from 0; a negative index reports the front element and unlinks nothing. |
| LinkedLists.RemoveAt | src/main/java/data_structures/LinkedList.java:134-162 | Corrected: fails exactly on an empty list or an index outside `[0, size)`; otherwise removes and returns the element at the index. |
| LinkedLists.Walk | src/main/java/data_structures/LinkedList.java:175-177 | After `k` calls of `getNext` from the front, the nodes ahead are the chain from position `k` on. |
| LinkedLists.Get | src/main/java/data_structures/LinkedList.java:171-180 | IndexOutOfBounds exactly outside `[0, size)`; otherwise the element at the index. |
| LinkedLists.Set | src/main/java/data_structures/LinkedList.java:188-197 | IndexOutOfBounds exactly outside `[0, size)`; otherwise the chain with the element at the index replaced and nothing else changed; modCount is kept. |
| LinkedLists.SetThenGet | src/main/java/data_structures/LinkedList.java:171-197 | `get` reads back what `set` wrote, and every other position is unchanged. |
| LinkedLists.AddAtThenRemoveAt | src/main/java/data_structures/LinkedList.java:55-162 | An inserted element is read back at its index, and removing it restores the chain. |
| LinkedLists.RemoveIsRemoveAtIndexOf | src/main/java/data_structures/LinkedList.java:90-162 | `remove(e)` is `removeAt(indexOf(e))`. |
| LinkedLists.AddThenGetLast | src/main/java/data_structures/LinkedList.java:36-47 | After `add`, the last position holds the element. |
| LinkedLists.AddAtNegativeBreaksSize | src/main/java/data_structures/LinkedList.java:55-83 | `add(e, -1)` as written breaks the size invariant; the corrected `add` refuses it. |
| LinkedLists.RemoveAtNegativeKeepsElement | src/main/java/data_structures/LinkedList.java:134-162 | `removeAt(-1)` as written reports the front removed while the chain keeps it; the corrected one refuses it. |
| Sorting.Swap | src/main/java/sort/QuickSort.java:56-60 | `swap` exchanges exactly the two cells and keeps the multiset. |
| Sorting.NeighbourSwapStable | src/main/java/Sort/BubbleSort.java:27-28 | Swapping two neighbours with different keys keeps the order among equal keys. |
| InsertionSort.Step | src/main/java/sort/InsertionSort.java:27-28 | The inner body keeps the multiset and the order among equal keys and touches only cells `j - 1` and `j`. |
| InsertionSort.StepCarries | src/main/java/sort/InsertionSort.java:26-29 | One step carries element `i` one cell left while keeping both runs sorted. |
| InsertionSort.Insert | src/main/java/sort/InsertionSort.java:26-29 | Turn `i` leaves `[0..i]` sorted, the cells after `i` untouched, and is a stable permutation. |
| InsertionSort.Sort | src/main/java/sort/InsertionSort.java:24-31 | The result is sorted, a permutation of the input, and stable. |
| SelectionSort.MinIndex | src/Sort/SelectionSort.java:27-30 | The first index of a smallest key in `[i, n)`. |
| SelectionSort.Sort | src/Sort/SelectionSort.java:23-33 | The result is sorted and a permutation of the input. |
| BubbleSort.Step | src/main/java/Sort/BubbleSort.java:27-28 | The inner body keeps the multiset and the order among equal keys and touches only cells `j` and `j + 1`. |
| BubbleSort.StepBubbles | src/main/java/Sort/BubbleSort.java:26-28 | One step carries the largest key of `[0, j]` to `j + 1`. |
| BubbleSort.Pass | src/main/java/Sort/BubbleSort.java:26-28 | Pass `i` leaves the last `i + 1` cells sorted and no smaller than the rest, as a stable permutation. |
| BubbleSort.PassEnds | src/main/java/Sort/BubbleSort.java:25-28 | At the end of the inner loop the sorted suffix has grown by one cell. |
| BubbleSort.Sort | src/main/java/Sort/BubbleSort.java:22-29 | After `n - 1` passes the result is sorted, a permutation, and stable. |
| QuickSort.Partition | src/main/java/sort/QuickSort.java:35-43 | Keys before the wall are at most the pivot, the pivot sits on the wall, keys after it are greater, and only `[min..max]` changes. |
| QuickSort.Sweep | src/main/java/sort/QuickSort.java:38-41 | The partition loop splits `[min, max)` at the wall and, when the wall stays at `min`, leaves the range untouched. |
| QuickSort.Flag | src/main/java/sort/QuickSort.java:44-45 | The second part of the termination measure is 0 or 1. |
| QuickSort.SortRange | src/main/java/sort/QuickSort.java:32-47 | `sort(min, max)` changes only `[min..max]`, and leaves it a sorted permutation of what it held. |
| QuickSort.SortRangeJoins | src/main/java/sort/QuickSort.java:44-45 | The two recursive calls around the wall sort the whole range. |
| QuickSort.Sort | src/main/java/sort/QuickSort.java:21-23 | The result is sorted and a permutation of the input. |
| MergeSort.Merged | src/Sort/MergeSort.java:59-80 | The merge of two runs has their total length. |
| MergeSort.MergedPermutation | src/Sort/MergeSort.java:52-84 | Merging keeps every element of both runs, and nothing else. |
| MergeSort.MergedSorted | src/Sort/MergeSort.java:52-84 | Merging two sorted runs gives a sorted run. |
| MergeSort.LeftLength | src/Sort/MergeSort.java:37 | Both halves of a range of at least two cells are non-empty. |
| MergeSort.MergeSortedSorted | src/Sort/MergeSort.java:35-42 | What `sort(min, max)` leaves is sorted. |
| MergeSort.MergeSortedPermutation | src/Sort/MergeSort.java:35-42 | What `sort(min, max)` leaves is a permutation of the range. |
| MergeSort.EqualKeysSwap | src/Sort/MergeSort.java:60-66 | Two elements with equal keys come out swapped: the sort is not stable. |
| MergeSort.TakeLeft | src/Sort/MergeSort.java:60-62 | Copying the smaller left head keeps `temp` followed by what is left to merge. |
| MergeSort.TakeRight | src/Sort/MergeSort.java:63-66 | Copying the right head on a tie or a smaller key keeps `temp` followed by what is left. |
| MergeSort.HeadStep | src/Sort/MergeSort.java:60-67 | One pass of the first loop moves one head into `temp` and keeps `temp` followed by what is left. |
| MergeSort.Heads | src/Sort/MergeSort.java:59-68 | The first loop stops when one run is used up, with `temp` followed by what is left being the full merge. |
| MergeSort.Drain | src/Sort/MergeSort.java:70-80 | The two copy loops append the rest of the other run. |
| MergeSort.CopyBack | src/Sort/MergeSort.java:82-83 | The final loop writes `temp` over the range and nothing else. |
| MergeSort.Merge | src/Sort/MergeSort.java:52-84 | `merge` replaces `[first..last]` by the merge of its two runs and changes nothing else. |
| MergeSort.SortRange | src/Sort/MergeSort.java:35-42 | `sort(min, max)` changes only the range, leaving it as the merge of its sorted halves. |
| MergeSort.Halves | src/Sort/MergeSort.java:36-40 | Sorting the halves in turn and merging them sorts the range. |
| MergeSort.SortRangeJoins | src/Sort/MergeSort.java:36-40 | The halves sorted in place and then merged are the sorted range. |
| MergeSort.Sort | src/Sort/MergeSort.java:24-26 | The result is sorted and a permutation of the input; an empty array is left as it is. |
| RadixSort.GetDigit | src/Sort/RadixSort.java:87-89 | The digit lies in `[0, 9]`. |
| RadixSort.Log10 | src/Sort/RadixSort.java:74 | The integer `log10` satisfies `10^l <= x < 10^(l+1)`. |
| RadixSort.DigitCount | src/Sort/RadixSort.java:74 | A positive number has at least one digit and is below `10^count`; zero gives a negative count. |
| RadixSort.MaxNumberOfDigits | src/Sort/RadixSort.java:70-79 | The largest digit count, or `Integer.MIN_VALUE` for an empty array. |
| RadixSort.Pass | src/Sort/RadixSort.java:48-60 | One pass is the stable distribution into buckets 0..9 gathered in bucket order. |
| RadixSort.Poll | src/Sort/RadixSort.java:54-60 | The gathering loops write the buckets back in order from position 0. |
| RadixSort.ConcatIsGather | src/Sort/RadixSort.java:54-60 | The buckets as filled, gathered in order, are the distribution. |
| RadixSort.BucketDigits | src/Sort/RadixSort.java:48-51 | Every element of bucket `b` has digit `b`. |
| RadixSort.GatherDigits | src/Sort/RadixSort.java:54-60 | Everything gathered from bucket `b` on has a digit of at least `b`. |
| RadixSort.GatherPermutes | src/Sort/RadixSort.java:48-60 | A pass loses or adds no element. |
| RadixSort.BucketSorted | src/Sort/RadixSort.java:48-51 | A bucket of a run sorted on the low digits stays sorted on them. |
| RadixSort.GatherSorted | src/Sort/RadixSort.java:45-61 | After the pass on digit `i + 1` of a run sorted on its low `i` digits, it is sorted on its low `i + 1` digits. |
| RadixSort.SortEnds | src/Sort/RadixSort.java:45-61 | Sorted on enough low digits means sorted. |
| RadixSort.Sort | src/Sort/RadixSort.java:34-62 | On non-negative input the result is sorted and a permutation of the input. |
| BinarySearch.Middle | src/Search/BinarySearch.java:43 | The middle lies inside the range. |
| BinarySearch.SearchRange | src/Search/BinarySearch.java:39-53 | An empty range answers false, and a true answer is always a real hit. |
| BinarySearch.Search | src/Search/BinarySearch.java:25-27 | An empty array answers false, and a true answer is a real hit. |
| BinarySearch.SearchRangeComplete | src/Search/BinarySearch.java:39-53 | On a sorted range a present target is found. |
| BinarySearch.SearchCorrect | src/Search/BinarySearch.java:25-53 | On a sorted array the answer is exactly whether some element equals the target. |
| BinarySearch.SearchRangeLocal | src/Search/BinarySearch.java:39-53 | The answer depends only on the cells inside `[min, max]`. |
| BinarySearch.UnsortedMisses | src/test/java/Search/BinarySearchTest.java:31-34 | In `{4, 3, 2, 5, 8, 1}` the search for 4 answers false although 4 is present. |
| LinearSearch.Search | src/main/java/search/LinearSearch.java:25-31 | True exactly when some element equals the target. |
| LinearSearch.Compared | src/main/java/search/LinearSearch.java:25-31 | The loop compares at most every element. |
| LinearSearch.StopsAtFirstMatch | src/main/java/search/LinearSearch.java:27-28 | The loop stops at the first match; it compares every element exactly when the search fails. |
| Euclid.JavaRem | src/main/java/math/Euclids.java:23 | Java's `%` is smaller than the divisor in magnitude and has the sign of the dividend. |
| Euclid.RemainderMultiple | src/main/java/math/Euclids.java:23 | The remainder differs from the dividend by a multiple of the divisor. |
| Euclid.Gcd | src/main/java/math/Euclids.java:19-24 | `gdc` terminates, and two non-negative arguments give a non-negative answer. |
| Euclid.GcdDivides | src/main/java/math/Euclids.java:19-24 | The result divides both arguments. |
| Euclid.GcdGreatest | src/main/java/math/Euclids.java:19-24 | Every common divisor of the arguments divides the result. |
| Fibonacci.Fib | src/main/java/math/Fibonacci.java:22-29 | `recursiveFibonacci` is positive from `n = 1` on. |
| Fibonacci.FibPairAgrees | src/main/java/math/Fibonacci.java:22-29 | The recursive definition agrees with the linear pair recurrence from `(0, 1)`. |
| Fibonacci.DynamicTD | src/main/java/math/Fibonacci.java:36-47 | NegativeArraySize exactly for `n <= -2`; otherwise the recursive value. |
| Fibonacci.DynamicBU | src/main/java/math/Fibonacci.java:54-65 | NegativeArraySize for `n <= -2`, IndexOutOfBounds for `n` of -1 or 0, and the recursive value for `n >= 1`. |
| Hanoi.MoveTower | src/main/java/math/TowersOfHanoi.java:65-74 | A tower of `n` disks takes `2^n - 1` moves. |
| Hanoi.Solve | src/main/java/math/TowersOfHanoi.java:51-53 | `solve` emits `2^n - 1` moves. |
| Hanoi.Step | src/main/java/math/TowersOfHanoi.java:11-15 | A legal move takes the top disk of a non-empty peg. |
| Hanoi.RunAppend | src/main/java/math/TowersOfHanoi.java:68-72 | Playing two move lists in turn is playing their concatenation. |
| Hanoi.TowerMoves | src/main/java/math/TowersOfHanoi.java:65-74 | Every move is legal, and the top `n` disks end on the target peg in order with the other pegs unchanged. |
| Hanoi.SolveEnds | src/main/java/math/TowersOfHanoi.java:51-53 | `solve` follows the rules throughout and leaves the whole tower on 'C'. |
| Hanoi.MoveTowerAsWritten | src/main/java/math/TowersOfHanoi.java:65-74 | As written, on a stack of any depth: fails only by StackOverflow, always for `n <= 0`, and for `n >= 1` with `n` frames yields `MoveTower`'s moves. |
| Hanoi.SolveNoDisksOverflows | src/main/java/math/TowersOfHanoi.java:44-53 | `new TowersOfHanoi(0).solve()` overflows the stack whatever its depth. |
| Hanoi.SolveAnyCount | src/main/java/math/TowersOfHanoi.java:51-53 | Corrected: no moves for a count of zero or less, `2^n - 1` moves otherwise. |
| Hanoi.SolveAnyCountEnds | src/main/java/math/TowersOfHanoi.java:51-53 | For every count, the corrected `solve` keeps the rules and leaves all disks there are on 'C'. |

## Left out

- `toString` in every class: string formatting only.
- `ArrayBinarySearchTree.findIndex`: a private helper that nothing calls.
- Each iterator's `remove`: it only throws UnsupportedOperationException.
- `LinkedBinaryTree.getRootNode`: a protected accessor.
- `LinkedBinaryTree`'s iterator cursor and its modCount check: that class never bumps modCount, so each iterator is modelled as the list it delivers.
- The interfaces `Tree`, `BinaryTree`, `List`, `Queue` and `Stack`: they declare methods and hold no code.
- The node classes: the datatypes take their place.
- The exception classes: they become constructors of `Wrappers.Error`.
- Floating point. The height `(int)(Math.log(maxIndex + 1) / Math.log(2)) + 1` and the bound `Math.pow(2, height) - 2` are read as exact integer floor-log and powers of two. RadixSort's `Math.log10` and `Math.pow` are read as an integer digit count and integer digit extraction. Rounding in the doubles is not modelled.
- Java `int` and `long` overflow: integers are unbounded. This covers `min + max` in binary search, child indices `2i+2` in deep trees, and Fibonacci values beyond `long`.
- `Comparable`: elements of the sorts and searches compare through an integer key. The array search tree stores `int` keys, so `equals` and `compareTo` agree.
- `TowersOfHanoi.moveDisk` printing: the moves are collected into a sequence. The constructor only stores the disk count, which `Solve` takes as its argument.
- The object's state after an exception: an `Err` result records only that the call throws. The writes made before the throwing statement are not modelled. These are: the as-written copy loop of `replace`, which writes `tree[oldIndex]` before reading past the end; `ArrayList.removeAt`, which has shifted the elements and done `modCount++` and `size--` when `list[size--] = null` throws; `ArrayStack.push` on a zero-capacity stack, which has done `top++` before the store throws.
- `removeAllOccurrences` swallows any exception thrown by the repeated `remove` and keeps the partly written tree. It is modelled over the corrected `remove`, which does not throw once the element is present, so that partial state does not arise in the model.
- Hanoi.MoveTower: requires at least one disk, because for `n <= 0` the recursion never reaches its base case. That case is modelled by `Hanoi.MoveTowerAsWritten` and listed under "## Findings".
- ArrayLists.Remove: models `remove(T)` over the corrected `removeAt`, so on a full list holding the element it removes it. The Java goes through the as-written `removeAt` and throws there; that behaviour is `ArrayLists.RemoveAsWritten`, listed under "## Findings".
- RadixSort.Sort: requires non-negative input, as the class comment states ("only works for positive integers"). With a negative number, `Math.log10` gives NaN, which `(int)` turns into a digit count of 1. Java's remainder on doubles keeps the dividend's sign. So `sort` throws ArrayIndexOutOfBoundsException once a pass reads a non-zero digit of a negative number, since that digit is a negative bucket index; `{-10, 5}` throws on the second pass. When every digit it reads is zero, the number goes to bucket 0 and `sort` returns without sorting; `{-100, -200}` comes back as it was.
- Null elements: the model's element types have no null, and `equals` is value equality. A null element or target, which the Java collections accept, makes `equals` or `compareTo` throw NullPointerException. This happens in `ArrayList.indexOf`, in `LinkedList.remove` and `indexOf`, in `LinearSearch.search`, and in every `compareTo` of the sorts and of `BinarySearch`. That error is not modelled, and `Wrappers.Error` has no constructor for it.
- Fibonacci.DynamicTD: the per-call table is left out. It is never read before it is written, so the value is the recursive one.
- LinearSearch.Compared: its own contract only bounds the count. How the count relates to the first match is stated by `LinearSearch.StopsAtFirstMatch`.
- BstReplace.Replace: its own contract only keeps the length. What it does to the tree is stated by `BstReplace.ReplaceRemovesRoot` and `ArrayBsts.ReplaceInTree`.
- BstAsWritten.RemoveMinAsWritten: its own contract covers only the empty case. The other cases are stated by `BstAsWritten.RemoveMinAsWrittenAgrees` and `BstAsWritten.RemoveMinReadsPastEnd`.
- BstAsWritten.RemoveMaxAsWritten: its own contract covers only the empty case. The other cases are stated by `BstAsWritten.RemoveMaxAsWrittenAgrees` and `BstAsWritten.RemoveMaxReadsPastEnd`.

## Findings

| source | as written | input that shows it | evidently intended | confidence | as-written member | corrected member |
|---|---|---|---|---|---|---|
| src/main/java/data_structures/ArrayBinarySearchTree.java:336 | the one-child shift walks the level-order lists down to the bound `2^height - 2`, which can exceed the array, and reads `tree[newIndex]` past the end | insert 100, 200, 150, 120, 110, 105 (slot 47 of 50 used), then remove(150) | the shift reads only slots inside the array, slots past the end counting as empty | not executed | BstAsWritten.RemoveCopyReadsPastEnd | BstReplace.ReplaceRemovesRoot |
| src/main/java/data_structures/ArrayBinarySearchTree.java:310 | the level-order queue is this repository's `ArrayList`, whose `removeAt` throws on a full list (ArrayList.java:114); a walk that expands nine positions fills the ten slots | the same tree, then remove(200) | the walk lists every position of the subtree within the bound | not executed | LevelOrder.LevelListAsWrittenFails | LevelOrder.LevelList |
| src/main/java/data_structures/ArrayBinarySearchTree.java:396 | the successor's right child `tree[2c+2]` is read without a bound check | insert 50, 60, 55, 52, 51, 53, then remove(52) | a child past the end counts as empty | not executed | BstAsWritten.RemoveSuccessorReadsPastEnd | BstReplace.ReplaceTwoChildren |
| src/main/java/data_structures/ArrayBinarySearchTree.java:386 | the successor descent reads `tree[2c+1]` without a bound check | insert 50, 60, 55, 52, 57, 56, then remove(55) | a child past the end counts as empty | not executed | BstAsWritten.RemoveDescentReadsPastEnd | BstReplace.LeftmostIsMin |
| src/main/java/data_structures/ArrayBinarySearchTree.java:197 | the loop reads `tree[currentIndex]` before testing it against the length, and the test uses `<=` | insert 60, 50, 40, 30, 20, 10, then removeMin() | test the index first and stop at the last left child inside the array | not executed | BstAsWritten.RemoveMinReadsPastEnd | ArrayBsts.RemoveMin |
| src/main/java/data_structures/ArrayBinarySearchTree.java:227 | the loop reads `tree[currentIndex]` before testing it against maxIndex | insert 10, 20, 30, 40, 50, then removeMax() | test the index first | not executed | BstAsWritten.RemoveMaxReadsPastEnd | ArrayBsts.RemoveMax |
| src/main/java/data_structures/LinkedBinaryTree.java:249-250 | `preOrder` walks both children with `inOrder` | the left spine 3, 2, 1 lists 3, 1, 2 | node, then left and right subtrees in pre-order | not executed | LinkedTrees.PreOrderAsWrittenMisorders | LinkedTrees.PreOrderListsSubtreesAsBlocks |
| src/main/java/data_structures/LinkedBinaryTree.java:275-276 | `postOrder` walks both children with `inOrder` | the right spine 1, 2, 3 lists 2, 3, 1 | left and right subtrees in post-order, then the node | not executed | LinkedTrees.PostOrderAsWrittenMisorders | LinkedTrees.PostOrderListsSubtreesAsBlocks |
| src/main/java/data_structures/ArrayList.java:114 | `list[size--] = null` clears slot `size`, not the vacated slot `size - 1`, and throws on a full list after shifting | ten appends to a default list, then removeAt(0) | clear slot `size - 1` | not executed | ArrayLists.RemoveAtOnFullList | ArrayLists.RemoveAt |
| src/main/java/data_structures/ArrayList.java:95 | `remove(element)` calls the as-written `removeAt`, so it inherits its throw on a full list | ten appends to a default list, then remove of any of them | remove the first equal element | not executed | ArrayLists.RemoveOnFullList | ArrayLists.Remove |
| src/main/java/math/TowersOfHanoi.java:66 | the only base case is `n == 1`, so for `n <= 0` `moveTower` recurses without end and the stack overflows | new TowersOfHanoi(0).solve() | no moves for no disks | not executed | Hanoi.SolveNoDisksOverflows | Hanoi.SolveAnyCountEnds |
| src/main/java/data_structures/LinkedList.java:56 | a negative index passes the guard, links the node after a scratch node and still increments the size | add(e, -1) on any list | reject a negative index | not executed | LinkedLists.AddAtNegativeBreaksSize | LinkedLists.AddAt |
| src/main/java/data_structures/LinkedList.java:137 | a negative index passes the guard, decrements the size and returns the front element without unlinking it | removeAt(-1) on a non-empty list | reject a negative index | not executed | LinkedLists.RemoveAtNegativeKeepsElement | LinkedLists.RemoveAt |
