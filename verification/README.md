# Boost.Intrusive: trees, hash tables and lists that relink nodes in place

Boost.Intrusive keeps its containers as links inside the elements.  Its
algorithms are static functions over raw nodes: they rewrite parent, left,
right, next and previous links one at a time, and for a while what they work
on is not a tree or a list at all.  This project models those algorithms on
heap objects, statement by statement, and proves what they leave behind.

**Trees.**  A node is an object of class `TreeNodes.Node` with the fields
`parent`, `left`, `right`, `balance` and `key`.  Methods carry a ghost `Store`,
a copy of all fields as functions, tied to the objects by `Matches`; facts
about links are stated on the store, so that they can be proved as lemmas and
framed by the nodes they read.  A ghost `Tree` says which tree the links draw;
a ghost `Ctx` is the rest of the tree around a hole, so that an algorithm that
climbs or descends has both the subtree it stands on and everything above it.
`Linked` is the whole link structure with the header, `Ends` the header's
leftmost and rightmost, `Avl` the balance factors, `AvlValid` all three.
Comparators are arbitrary functions on keys; lookups and insertions ask for a
strict weak order, as the library does.

The modules follow the program: `Rotations`, `AvlBalance` and `AvlTurns` (the
four rotations), `AvlInsert` and `AvlErase` (the two climbs), `BstInsert`,
`BstErase` and `BstErased` (linking and unlinking), `TreeWalk`, `Positions`,
`Search` and `InsertChecks` (walking and looking up), `AvlTree`,
`AvlOperations`, `AvlTransfer`, `AvlCheck` and `AvlRun` (the AVL operations,
and runs of them), `Container` (the counted containers and their merges),
`DayStoutWarren`, `Drain`, `LinkSwap`, `SwapTrees` and `Clone` (the algorithms
that work on the shape).

**Hash tables.**  `PrimeSizes` and `Division` hold the tables of primes and
inverses and the arithmetic on 64-bit words; `LinearHash` the incremental
table, whose buckets are an array of chains of values; `Rehash` the rehash
between or within arrays; `Groups` the groups of equal nodes, linked in
reverse, on node objects.

**Lists.**  `SlistNodes`, `CircularSlist`, `LinearSlist` and `SlistSwap` hold
the singly linked lists, `CircularList` and `ListPartition` the doubly linked
ones, `Lists` the counted list with merge, sort and removal; `Sequences` and
`MergeSort` hold what they are proved against.  A ghost sequence of nodes says
which list the links make up.

A predicate or hash function that throws is modelled by a second predicate
that says for which elements it does.  A comparator does not throw here.

## Findings

- **Swapping two nodes of one circular singly linked list.**
  `circular_slist_algorithms::swap_nodes` asks only for nodes inserted in
  circular lists.  For nodes of two lists it exchanges them.  Within one list
  it does so if and only if the second node leads directly back to the first:
  the first write already changes the list in which the second search goes on
  (`SlistSwap.SwapNodes`).  With three nodes `a`, `b`, `n` swapping `a` and `b`
  leaves `b` out of the list (`SlistSwap.SwapFirstTwoOfThree`).
- **The rightmost node of a clone.**  `clone_subtree` reports the last right
  child it has cloned.  That is the last node if and only if no right child
  stands to the left of the last node of the source (`Clone.CloneSubtree`,
  `Clone.CloneTree`).  The tree `Crooked(a, b, r)`, with root `r`, its left child
  `a` and the right child `b` of `a`, is the smallest that fails: its clone names
  the copy of `b` as its last node (`Clone.CloneCrooked`).  In AVL trees the
  condition always holds (`Clone.AvlLastRight`).
- **Halving an empty incremental table.**  A new table has half of its buckets in
  use and its cached first bucket at its number of buckets.  Halving is accepted
  and keeps the cache, so that it lies beyond the new array
  (`LinearHash.HalveNew`).  After any accepted resize the cache is within the
  array if and only if it was no more than the new number of buckets before, and
  for a table that holds a node it is below the split
  (`LinearHash.Table.Resize`).
- **When a resize is accepted.**  The documentation of the array-changing
  `incremental_rehash` has it refuse when the split differs from the new number
  of buckets; taken literally it could never double.  The code compares the
  split with the smaller of the two numbers, and the model follows the code
  (`LinearHash.Table.Resize`).

## Model

| member | source | states |
|---|---|---|
| AvlRun.Run | include/boost/intrusive/avltree_algorithms.hpp:261-425 | Two trees start from `init_header` and go through any sequence of insertions of every form, erasures and moves from either tree to the other. Both are AVL trees with right links and headers, made of separate nodes, both sorted; every step has changed the two in-order sequences as its law says (`Follows`); the trees hold exactly the nodes inserted and not erased since; and each has at least `Fib(h + 2) - 1` nodes at height `h` |
| AvlRun.PlayOne | include/boost/intrusive/avltree_algorithms.hpp:261-425 | One step on either tree keeps all that and obeys the law of its operation |
| AvlRun.EffectLawful | include/boost/intrusive/avltree_algorithms.hpp:261-425 | The laws: a moved node leaves the other tree and stands behind everything it is not less than, always for `transfer_equal` and only without an equivalent for `transfer_unique`; the upper bound puts a node behind its equivalents and the lower bound in front of them, always; unique insertion inserts if and only if there is no equivalent; a hint is met as nearly as the order allows; erasing takes out exactly its node |
| AvlRun.LawfulBag | include/boost/intrusive/avltree_algorithms.hpp:261-425 | An insertion adds its node or nothing, erasing takes its node or nothing away, and moving changes neither tree's nodes taken together |
| AvlRun.HeldIff | include/boost/intrusive/avltree_algorithms.hpp:261-425 | After any steps a node is in one of the trees, and then once, if and only if some step inserted it and none has erased it since |
| AvlTree.InitHeader | include/boost/intrusive/avltree_algorithms.hpp:261-265 | The header alone is a valid empty AVL tree, and no other node has been touched |
| AvlTree.Erase | include/boost/intrusive/avltree_algorithms.hpp:268-274 | From any AVL tree exactly `z` disappears from the in-order sequence; all links, the header's extremes and every balance factor are right again; nothing outside the tree has been touched; any order the tree had is kept |
| AvlTree.WithoutKeepsOrder | include/boost/intrusive/avltree_algorithms.hpp:268-274 | A sequence without one of its nodes is sorted by every comparator by which the sequence was sorted, so that erasing never spoils an order |
| AvlErase.RestoreInvariants | include/boost/intrusive/avltree_algorithms.hpp:495-561 | From any place where the subtree is one level lower than its balance factors above say, the climb ends with all of them right, whether it starts at a null node, stops at a parent that was level, or turns the tree at the root; order, nodes and everything outside are kept |
| AvlErase.Sink | include/boost/intrusive/avltree_algorithms.hpp:495-561 | One step of the climb: where the lower side was the taller one, the parent becomes level and the same debt is owed one level further up |
| AvlErase.Lean | include/boost/intrusive/avltree_algorithms.hpp:495-561 | Where the parent was level, it leans to the other side and the debt is settled without any height changing |
| AvlInsert.RebalanceAfterInsertion | include/boost/intrusive/avltree_algorithms.hpp:563-606 | From a new leaf, with all balance factors still as they were, the climb ends with an AVL tree of the same order and nodes |
| AvlInsert.NeverLevel | include/boost/intrusive/avltree_algorithms.hpp:563-606 | On the way up from an insertion the child of a parent that must be rotated is never level, so the branches of the single rotations that handle a level child are not reached |
| AvlTurns.TurnLeft | include/boost/intrusive/avltree_algorithms.hpp:673-686 | A single rotation where the right side is two levels higher gives right balance factors, the same order and nodes, and a height that is one lower except when the child was level |
| AvlTurns.TurnLeftRight | include/boost/intrusive/avltree_algorithms.hpp:633-651 | The double rotation that relinks in one go gives right balance factors for all three nodes, whichever of the inner subtrees was higher, and a tree one level lower |
| AvlTurns.TurnRightLeft | include/boost/intrusive/avltree_algorithms.hpp:653-671 | The mirrored double rotation |
| Rotations.LeftRightRotatedLinked | include/boost/intrusive/avltree_algorithms.hpp:633-651 | The double rotation that skips the parent link of its first half still ends with every parent link right |
| AvlOperations.InsertUniqueCommit | include/boost/intrusive/avltree_algorithms.hpp:415-420 | Committing at the place that the check gave inserts the node after all smaller ones, keeps the tree AVL and sorted, and touches only the tree and the node |
| AvlOperations.InsertEqual | include/boost/intrusive/avltree_algorithms.hpp:369-375 | The hinted insertion puts the node at the one index, of all those the order allows, that is nearest to the hint; the tree is AVL and sorted |
| AvlOperations.InsertBefore | include/boost/intrusive/avltree_algorithms.hpp:378-384 | The node goes exactly in front of the position, at any index, with the tree AVL again |
| AvlTransfer.TransferUnique | include/boost/intrusive/avltree_algorithms.hpp:278-288 | A node moves between two AVL trees exactly when the target has no equivalent; both trees are AVL afterwards, the source repaired with the balance factor that the node still carries once it hangs in the target; otherwise nothing has changed |
| AvlTransfer.TransferEqual | include/boost/intrusive/avltree_algorithms.hpp:292-299 | A node moves behind its equivalents in the target; both trees are AVL, the source is what it was without the node, and no third tree is touched |
| AvlCheck.VerifyRecursion | include/boost/intrusive/avltree_algorithms.hpp:437-483 | The recursive check says yes exactly for the trees whose balance factors are all true height differences, and then returns the right count and height |
| AvlCheck.Verify | include/boost/intrusive/avltree_algorithms.hpp:428-433 | The same for a whole tree from its header |
| AvlCheck.FibonacciBound | include/boost/intrusive/avltree_algorithms.hpp:437-483 | A tree that the recursive check accepts with height `h` has at least `Fib(h + 2) - 1` nodes |
| BstErased.ErasedLinked | include/boost/intrusive/bstree_algorithms.hpp:1506-1586 | Erasing a node with any number of children, the successor adjacent or far away, leaves links that draw the tree without it |
| BstErased.ErasedEnds | include/boost/intrusive/bstree_algorithms.hpp:1506-1586 | The header names the first and the last of the remaining nodes, also when the first, the last or the only node was erased |
| BstErased.ErasedWithin | include/boost/intrusive/bstree_algorithms.hpp:1506-1586 | No link outside the tree is written, and the header's extremes only when they named the erased node |
| BstInsert.CommittedEnds | include/boost/intrusive/bstree_algorithms.hpp:1767-1791 | Linking a leaf keeps the header's extremes right, in an empty tree and at either end of a full one |
| Search.BoundedRange | include/boost/intrusive/bstree_algorithms.hpp:785-838 | The single descent that splits where the two keys part gives the two bounds that two independent linear scans give, lower or upper as each flag says, for every strict weak order and every pair of keys the documentation allows |
| Search.LowerBound | include/boost/intrusive/bstree_algorithms.hpp:922-926 | The descent ends at the first node that a linear scan finds not less than the key |
| Search.UpperBound | include/boost/intrusive/bstree_algorithms.hpp:940-944 | The descent ends at the first node that a linear scan finds greater than the key |
| Search.Find | include/boost/intrusive/bstree_algorithms.hpp:755-761 | The header comes back exactly when no node is equivalent to the key, and otherwise the first equivalent node |
| Search.EqualRange | include/boost/intrusive/bstree_algorithms.hpp:878-882 | The range of a key starts at its lower and ends at its upper bound |
| Search.Count | include/boost/intrusive/bstree_algorithms.hpp:852-862 | The number of steps from one bound to the other is the number of nodes equivalent to the key, in trees with any number of equivalents |
| Search.OccurrencesBetween | include/boost/intrusive/bstree_algorithms.hpp:852-862 | In a sorted sequence the equivalent nodes are exactly those between the two ranks |
| InsertChecks.InsertUniqueCheck | include/boost/intrusive/bstree_algorithms.hpp:1002-1038 | Accepts exactly when no node is equivalent to the key, with the place a sorted insertion needs; otherwise gives an equivalent node and leaves the commit data alone |
| InsertChecks.InsertUniqueCheckHint | include/boost/intrusive/bstree_algorithms.hpp:1080-1103 | For every hint, good or bad, it accepts exactly when the check without a hint does, and fills the same node and side |
| InsertChecks.HintIsRank | include/boost/intrusive/bstree_algorithms.hpp:1080-1103 | A hint between the last smaller and the first greater node is the place where the descent ends, and proves that there is no equivalent |
| InsertChecks.InsertEqualCheck | include/boost/intrusive/bstree_algorithms.hpp:1701-1727 | The commit data name the gap that is nearest to the hint among those where the key can stand |
| InsertChecks.NearestOnly | include/boost/intrusive/bstree_algorithms.hpp:1701-1727 | There is only one such index |
| InsertChecks.FitsBetween | include/boost/intrusive/bstree_algorithms.hpp:1701-1727 | The key can stand exactly at the indices from its lower to its upper bound |
| InsertChecks.InsertEqualUpperBoundCheck | include/boost/intrusive/bstree_algorithms.hpp:1730-1746 | The place behind all equivalents, as a sorted insertion finds it |
| InsertChecks.InsertEqualLowerBoundCheck | include/boost/intrusive/bstree_algorithms.hpp:1749-1764 | The place in front of all equivalents |
| InsertChecks.InsertBeforeCheck | include/boost/intrusive/bstree_algorithms.hpp:1651-1667 | The commit data name the gap in front of the position |
| TreeWalk.NextNode | include/boost/intrusive/bstree_algorithms.hpp:520-528 | The next node in order, or the header after the last one |
| TreeWalk.PrevNode | include/boost/intrusive/bstree_algorithms.hpp:530-537 | The previous node in order, and the last one from the header |
| TreeWalk.GetHeader | include/boost/intrusive/bstree_algorithms.hpp:253-261 | Climbing finds the header from every node and from the header itself, in trees of any size including none and one |
| TreeWalk.IsHeader | include/boost/intrusive/bstree_algorithms.hpp:733-740 | A node is taken for the header exactly when it is the header |
| DayStoutWarren.SubtreeToVine | include/boost/intrusive/bstree_algorithms.hpp:1848-1873 | The result is a vine with the same nodes in order, its size is counted right, no parent link has been written, and the termination measure covers the loop that both turns and steps |
| DayStoutWarren.CompressSubtree | include/boost/intrusive/bstree_algorithms.hpp:1875-1890 | Rotates as many spine nodes as asked, and the parent links along the spine are right again after it |
| DayStoutWarren.VineToSubtree | include/boost/intrusive/bstree_algorithms.hpp:1892-1910 | A vine of any length becomes a tree all of whose levels but the last are full, and every parent link is right although the vine's were stale |
| DayStoutWarren.RebalanceSubtree | include/boost/intrusive/bstree_algorithms.hpp:1409-1447 | Any subtree, hanging to the left, to the right or from the header, comes out with the same in-order sequence, all its levels but the last full, and so of least height; every link of the whole tree is right, and nothing but the subtree and its one link from above has changed |
| DayStoutWarren.Rebalance | include/boost/intrusive/bstree_algorithms.hpp:1392-1398 | The same for the whole tree, the empty one included, with the header's extremes still right |
| DayStoutWarren.LowestIsLeast | include/boost/intrusive/bstree_algorithms.hpp:1400-1447 | No tree of as many nodes is lower than one that rebalancing leaves |
| DayStoutWarren.FalseRoot | include/boost/intrusive/bstree_algorithms.hpp:1409-1447 | The parent or header that stands in as the root of the vine can be used so without breaking any link of the subtree |
| Drain.UnlinkLeftmostWithoutRebalance | include/boost/intrusive/bstree_algorithms.hpp:637-665 | Returns the leftmost node, or null exactly when none is left, and keeps the broken structure (`Ladder`) from which the next call can go on |
| Drain.Destroy | include/boost/intrusive/bstree_algorithms.hpp:637-665 | Calling it until null comes back gives every node once, in order, from any tree, and leaves an empty header |
| Drain.DisposeSubtree | include/boost/intrusive/bstree_algorithms.hpp:2011-2027 | Every node is disposed of once, in order, after its links have been cleared, and nothing else is touched |
| Drain.ClearAndDispose | include/boost/intrusive/bstree_algorithms.hpp:615-622 | Every node of the tree is disposed of in order with cleared links, the header is that of an empty tree, and nothing else is touched |
| SwapTrees.SwapNodes | include/boost/intrusive/avltree_algorithms.hpp:184-191 | Two nodes of one tree change places, whether unrelated, siblings, parent and child, root, or at the ends: same shape, same balance at each place, the order with the two exchanged, and nothing outside the tree touched |
| SwapTrees.SwapNodesOfTrees | include/boost/intrusive/avltree_algorithms.hpp:194-203 | A node of one tree changes places with a node of another; both trees are AVL afterwards and still separate, and no third tree is touched |
| SwapTrees.SwapTwice | include/boost/intrusive/avltree_algorithms.hpp:184-191 | Swapping the same two nodes again restores every link and balance factor of every node |
| LinkSwap.SwappedOwn | include/boost/intrusive/bstree_algorithms.hpp:303-443 | In every aliasing case the links of each of the two nodes become those of the other with the two names exchanged |
| Clone.Clone | include/boost/intrusive/avltree_algorithms.hpp:303-308 | Whatever tree the target had is disposed of; then it is an AVL tree of the same shape, keys and balance factors as the non-empty source, made of exactly the fresh nodes, with a right header; the source and every other node are untouched |
| Clone.CloneTree | include/boost/intrusive/bstree_algorithms.hpp:1300-1316 | The same for any search tree: all links of the copy and the first node are right, and the header names the last node if and only if no right child stands to the left of the last node of the source |
| Clone.CloneSubtree | include/boost/intrusive/bstree_algorithms.hpp:1935-2008 | The walk without a stack ends for every tree with an isomorphic copy and the leftmost clone; what it reports as rightmost is the last right child that was cloned, which is the last node if and only if the source meets the condition |
| Clone.LastRightIsLast | include/boost/intrusive/bstree_algorithms.hpp:1979-1992 | In any tree the last right child is the last node if and only if no right child stands to the left of the last node |
| Clone.CopyLeftOnly | include/boost/intrusive/bstree_algorithms.hpp:1979-1992 | The condition is the same for a tree and its copies, so that it can be read off the source before cloning |
| Clone.CrookedLast | include/boost/intrusive/bstree_algorithms.hpp:1979-1992 | The smallest tree that fails the condition: three nodes, the middle one a right child below the left child of the root |
| Clone.CloneCrooked | include/boost/intrusive/bstree_algorithms.hpp:1300-1316 | Cloning that tree leaves a header that names the last node but one as the last |
| Clone.AvlLastRight | include/boost/intrusive/bstree_algorithms.hpp:1979-1992 | In an AVL tree that condition always holds |
| Container.BsTree.InsertUnique | include/boost/intrusive/bstree.hpp:1141-1151 | Inserts exactly when no node is equivalent, counts it, keeps tree and order, and can be called again on the result |
| Container.BsTree.PrivateErase | include/boost/intrusive/bstree.hpp:2119-2124 | Erases exactly the nodes from one position to the other and counts them, with the size right |
| Container.BsTree.EraseKey | include/boost/intrusive/bstree.hpp:1479-1486 | Erases all the nodes equivalent to the key and no other, and returns how many there were |
| Container.BsTree.MergeUnique | include/boost/intrusive/bstree.hpp:2000-2017 | Both containers stay AVL, counted right and separate; what each holds is given by `MergedUnique`; the nodes of both together are the same; the source keeps whatever order it had; no third tree is touched |
| Container.MergedUniqueKeeps | include/boost/intrusive/bstree.hpp:2000-2017 | No node is lost or duplicated by the merge |
| Container.MergedUniqueSorted | include/boost/intrusive/bstree.hpp:2000-2017 | The target stays sorted, and free of equivalents if it was |
| Container.MergedUniqueLeaves | include/boost/intrusive/bstree.hpp:2000-2017 | Every node left in the source has an equivalent in the target |
| Container.MergedUniqueSourceSorted | include/boost/intrusive/bstree.hpp:2000-2017 | The source stays sorted by its own comparator, which may be another one than the target's |
| Container.BsTree.MergeEqual | include/boost/intrusive/bstree.hpp:2036-2052 | The source is empty afterwards and the target holds what `MergedEqual` says, with sizes and balance right |
| Container.MergedEqualStable | include/boost/intrusive/bstree.hpp:2036-2052 | The merged sequence is sorted, has all the nodes, and of equivalent ones those of the target come first, then those of the source, each in their order |
| PrimeSizes.InverseIsCeiling | include/boost/intrusive/hashtable.hpp:323-356 | Every one of the stored inverses is the ceiling of `2^64` over the prime of the same index |
| PrimeSizes.SizesIncrease | include/boost/intrusive/hashtable.hpp:273-314 | The sizes stand in increasing order, as the binary searches for one take for granted |
| PrimeSizes.FastModExact | include/boost/intrusive/hashtable.hpp:205-209 | With such an inverse the two multiplications give `a mod d` for every 32-bit `a`, with the product cut off at 64 bits as the code does |
| PrimeSizes.HighWord | include/boost/intrusive/hashtable.hpp:191-203 | The split multiplication overflows nowhere and gives the high 64 bits of the exact product |
| PrimeSizes.Position | include/boost/intrusive/hashtable.hpp:212-227 | For every 64-bit hash value the position is a valid bucket index: the remainder, by the prime, of the folded or of the whole hash value |
| Rehash.Slot | include/boost/intrusive/hashtable.hpp:779-797 | The bucket is the remainder of the hash value by the number of buckets, for a mask as well, and of the folded hash value for a prime of at most 32 bits |
| LinearHash.MaskIsRemainder | include/boost/intrusive/hashtable.hpp:782-783 | Masking with one less than a power of two takes the remainder |
| LinearHash.HashToBucketSplit | include/boost/intrusive/hashtable.hpp:779-792 | For a power of two the bucket is the remainder of the hash value, or half the count less when that bucket is not in use yet |
| LinearHash.SlotBelowSplit | include/boost/intrusive/hashtable.hpp:785-792 | With the split between half the count and the count, every hash value has its bucket below the split |
| LinearHash.SlotGrows | include/boost/intrusive/hashtable.hpp:785-792 | Moving the split by one concerns only what is in the bucket half a table further down |
| LinearHash.SlotDoubles | include/boost/intrusive/hashtable.hpp:785-792 | Doubling the count with the split at the smaller count moves nothing |
| LinearHash.PlacedByRemainder | include/boost/intrusive/hashtable.hpp:785-792 | Every node of a valid table is in the bucket that the remainder of its hash value says |
| LinearHash.Table.constructor | include/boost/intrusive/hashtable.hpp:1963-1981 | A new table is empty and valid, with half of its buckets in use and the cached first bucket at the end |
| LinearHash.Table.Grow | include/boost/intrusive/hashtable.hpp:3610-3642 | One more bucket: whole groups move by the hash value of their first node, and no other bucket changes. It fails if and only if the hash of some first node of the old bucket fails; then the moved groups and the split go back. In either case every node is in its bucket, no group is lost or taken apart, and after a success the cache names the first bucket in use |
| LinearHash.Table.Shrink | include/boost/intrusive/hashtable.hpp:3643-3650 | One bucket less: its groups join the bucket half a table further down, in order, where they belong; the cache moves down to it when it was beyond |
| LinearHash.Table.IncrementalRehash | include/boost/intrusive/hashtable.hpp:3602-3652 | Fails exactly when a hash it must look at fails, and otherwise says exactly whether a step was possible and moves the split by exactly one then; every node is in the bucket of its remainder; only the two buckets concerned change, and only by moving groups between them |
| LinearHash.Table.Resize | include/boost/intrusive/hashtable.hpp:3667-3712 | Accepts exactly a doubling or halving that the split allows; then the buckets in use are in the new array, which may be the old one, each node in the bucket of its remainder; otherwise nothing has changed. The cache is below the split for every table that holds something |
| LinearHash.Run | include/boost/intrusive/hashtable.hpp:3602-3712 | Any sequence of steps and resizes, with any hashes failing, leaves every node in the bucket of its remainder and loses none; every call has moved the split or exchanged the array exactly when the sizes allow it, except growing steps when some hash fails |
| LinearHash.HalveNew | include/boost/intrusive/hashtable.hpp:3667-3712 | A table just made accepts being halved, and its cached first bucket is then at twice its number of buckets |
| Rehash.HashTable.RehashImpl | include/boost/intrusive/hashtable.hpp:3817-3930 | Into another array or within the same one, a full rehash or not: the same nodes, each in the bucket that the remainder of its hash value says, equal ones still together; the cache names the first bucket in use, or after the shortcut the least bucket that a whole bucket went to or may have stayed in |
| Rehash.RehashBuckets | include/boost/intrusive/hashtable.hpp:3817-3930 | The loops over the buckets, node by node or whole buckets, give that state and that first bucket for every size policy |
| Rehash.FastShrinkAgrees | include/boost/intrusive/hashtable.hpp:3832-3843 | Whenever the shortcut is taken, the bucket computed from the old bucket's number is the bucket of the hash value itself |
| Rehash.AllDealtDone | include/boost/intrusive/hashtable.hpp:3868-3910 | Going through the buckets in rising order puts every node where it belongs although a bucket may receive nodes before it has been gone through, and loses none |
| Rehash.AllDealtGrouped | include/boost/intrusive/hashtable.hpp:3868-3910 | Equal nodes stand together afterwards if they did before |
| Rehash.AllWholeDone | include/boost/intrusive/hashtable.hpp:3911-3919 | Moving whole buckets puts every node where dealing them out one by one would |
| Groups.FindIsScan | include/boost/intrusive/hashtable.hpp:4048-4071 | Looking at the first node of every group only comes to the same node, and the same predecessor, as looking at all nodes |
| Groups.PrivFind | include/boost/intrusive/hashtable.hpp:4048-4071 | Follows the groups' reverse links to the first group wanted, or reports the bucket's end |
| Groups.GetPrevToFirstInGroup | include/boost/intrusive/hashtable.hpp:665-673 | Skipping from group to group finds the node before the first of a group |
| Groups.InsertEqual | include/boost/intrusive/hashtable.hpp:2677-2686 | The new node goes in front of its equals, or of all nodes where there is none; the chain and the reverse-linked groups are right again, one group for each key |
| Groups.PrivInsertEqualAfterFind | include/boost/intrusive/hashtable.hpp:4029-4045 | Linking behind the predecessor found makes the node the first of the group that follows, or a group of its own |
| Groups.PrivEraseNode | include/boost/intrusive/hashtable.hpp:1169-1199 | Erasing the first, the last, an inner or the only node of a group leaves the chain and the reverse-linked groups without it |
| Groups.ErasedKeys | include/boost/intrusive/hashtable.hpp:1169-1199 | Exactly that node is gone from the bucket, and there is still one group for each key |
| Groups.GroupsCluster | include/boost/intrusive/hashtable.hpp:593-608 | In a bucket of such groups equal nodes are contiguous, which is what rehashing keeps |
| ListPartition.StablePartition | include/boost/intrusive/circular_list_algorithms.hpp:389-443 | The range is left with the nodes that satisfy the predicate first and the others after, each in their order, the counts right and the boundary node right; if the predicate fails midway, the list is well formed again with the nodes seen so far partitioned and the rest as they were |
| Lists.RemoveIf | include/boost/intrusive/list.hpp:1161-1173 | Removing is filtering, and the count and size are right; a failing predicate loses no node |
| Lists.Sort | include/boost/intrusive/list.hpp:1033-1055 | The list holds a sorted, stable permutation of its nodes, for every list of fewer than `2^64` of them |
| MergeSort.SortIsStable | include/boost/intrusive/list.hpp:1033-1055 | What the carries and the final fold compute is sorted, has the same nodes, and keeps the order of equivalent ones |
| MergeSort.CountedBinary | include/boost/intrusive/list.hpp:1038-1050 | After `k` elements slot `i` is empty or holds exactly `2^i` of them, as the binary digits of `k` say |
| MergeSort.CountedStable | include/boost/intrusive/list.hpp:1038-1050 | The slots read from the highest down hold the elements so far stably sorted: older elements are in higher slots |
| MergeSort.SlotsSuffice | include/boost/intrusive/list.hpp:1033-1055 | Fewer than `2^64` elements never need a sixty-fifth slot |
| Lists.MergeLists | include/boost/intrusive/list.hpp:1086-1108 | The chunk-wise splicing merge gives `Merge` of the two sequences, empties the second list, and has both sizes right |
| MergeSort.MergeStable | include/boost/intrusive/list.hpp:1086-1108 | Of equivalent elements those of the first list come first, each list's in their order |
| Lists.Splice | include/boost/intrusive/list.hpp:986-1001 | Any run of nodes moves between two lists, with both sizes right |
| Lists.Swap | include/boost/intrusive/list.hpp:560-564 | Two lists exchange contents by exchanging their roots, also when one or both are empty |
| CircularList.TransferBetween | include/boost/intrusive/circular_list_algorithms.hpp:264-277 | A run of nodes moves from one circular list to another; both are well formed |
| CircularList.TransferWithin | include/boost/intrusive/circular_list_algorithms.hpp:264-277 | A run of nodes moves within one list |
| CircularList.SwapNodes | include/boost/intrusive/circular_list_algorithms.hpp:223-252 | Two nodes of one list or of two change places, adjacent in either order or alone in their lists; a node in no list takes the other's place and the other is in none; a node swapped with itself stays |
| CircularList.Reverse | include/boost/intrusive/circular_list_algorithms.hpp:310-321 | The nodes after `p` come in the opposite order |
| CircularList.MoveBackwards | include/boost/intrusive/circular_list_algorithms.hpp:328-341 | Moving the root `n` places rotates the list by `n`, however much larger than the list `n` is |
| CircularList.MoveForward | include/boost/intrusive/circular_list_algorithms.hpp:348-362 | The rotation the other way |
| Sequences.RotationsUndo | include/boost/intrusive/circular_list_algorithms.hpp:328-362 | The two rotations undo each other for every length and count |
| Sequences.RotatedBackAt | include/boost/intrusive/circular_list_algorithms.hpp:328-341 | Element `i` of the rotated list is element `(i + n) mod m` of the original, so `n` only counts modulo the length |
| Sequences.RotatedBackSteps | include/boost/intrusive/circular_list_algorithms.hpp:328-341 | Turning a list by `n + 1` is turning it by `n` and then by one, so that walking one node at a time and reducing the count agree |
| CircularSlist.MoveBackwards | include/boost/intrusive/circular_slist_algorithms.hpp:337-379 | The same rotation with the count reduced once the length is known, and the new last node, null when nothing moves |
| CircularSlist.MoveForward | include/boost/intrusive/circular_slist_algorithms.hpp:389-428 | The same rotation the other way by one pass with two pointers, and the new last node |
| CircularSlist.Reverse | include/boost/intrusive/circular_slist_algorithms.hpp:318-327 | The nodes after `p` come in the opposite order |
| CircularSlist.TransferAfter | include/boost/intrusive/detail/common_slist_algorithms.hpp:89-99 | Three links are written when the three nodes differ, and none otherwise |
| CircularSlist.TransferWithin | include/boost/intrusive/detail/common_slist_algorithms.hpp:89-99 | A run of nodes moves to the place behind a node of the same list |
| CircularSlist.TransferBetween | include/boost/intrusive/detail/common_slist_algorithms.hpp:89-99 | A run of nodes moves to the place behind a node of another list, as between two buckets; both lists are well formed |
| SlistSwap.SwapNodes | include/boost/intrusive/circular_slist_algorithms.hpp:292-311 | In two lists the two nodes change places, also when one is in no list; within one list this comes out right if and only if the second node leads back to the first, and otherwise the list of the first node has lost the nodes between them; a node swapped with itself stays |
| SlistSwap.SwapFirstTwoOfThree | include/boost/intrusive/circular_slist_algorithms.hpp:292-311 | Three nodes are enough: swapping the first two leaves one of them out |
| LinearSlist.MoveFirstNBackwards | include/boost/intrusive/linear_slist_algorithms.hpp:271-316 | The null-terminated list is rotated likewise, with the new first and last node, nulls when nothing moves |
| LinearSlist.MoveFirstNForward | include/boost/intrusive/linear_slist_algorithms.hpp:326-370 | The rotation the other way |
| CircularList.Transfer | include/boost/intrusive/circular_list_algorithms.hpp:264-277 | Six links are written when the range is not empty and `p` is not at either of its ends, and none otherwise |
| LinearSlist.Reverse | include/boost/intrusive/linear_slist_algorithms.hpp:248-261 | The list reversed, and its new first node |

## Left out

- Hooks, value traits, option packing, iterators, `container_from_iterator`, and the `avl_set` and `avltree` wrappers: plumbing without an algorithm.
- Red-black, splay, scapegoat and treap algorithms.
- Full rehash with groups of equal keys (`optimize_multikey`): `Rehash` models the loop without groups; `LinearHash` does move whole groups.
- Erasing a range that starts or ends inside a group, and the joining of group parts that it needs (include/boost/intrusive/hashtable.hpp:1126-1159).
- The cloner's failure and its rollback, and cloning from an empty tree, which `clone_from` keeps away from the algorithm (include/boost/intrusive/bstree.hpp:1013).
- Insertion and erasure in a hash table as a whole, with hash and cache: `Groups` models them within a bucket.
- PrimeSizes.PrimeList: that the entries are prime is not stated; the table is taken over as it is, and nothing that is computed from it depends on more than its order, its inverses and which entries divide which.
- Stored hash values: every hash is computed; a stored one is the same number.
- A hash function that throws in `priv_rehash_impl`, where all elements are disposed of; throwing is modelled in the incremental step only.
- The `incremental` option in `priv_rehash_impl`, the `linear_buckets` sentinel, and finding a bucket by comparing addresses.
- The width of `size_t` for sizes and counts: they are unbounded, except the 64-bit words of `PrimeSizes` and the 64 slots of `sort`.
- Safe-mode assertions, and the clearing of links of erased nodes in safe mode.
- Disposers as callbacks: `Drain.DisposeSubtree` and `Drain.Destroy` return the sequence of nodes they would be given.
- Comparators and list predicates that throw other than in `stable_partition` and `remove_if`.
- `insert_before`, `push_back` and `push_front` inside runs where the place does not fit the order: `AvlRun.Run` passes such a step over, because the caller is to keep the order; alone they are modelled for every place.
- Merging as a step of a run: a merge is a sequence of transfers, which are steps, and `Container.BsTree` states its own invariant.
- `lower_bound_range`, `depth`, `size`, `replace_node`, `swap_tree` and the remaining simple members of the tree algorithms.
- Chains of buckets in `LinearHash` and `Rehash` are sequences of values, moved as the splices move them; the links of a splice between two buckets are modelled in `CircularSlist.TransferBetween`, and those of groups in `Groups`.
