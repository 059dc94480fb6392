# An arena-backed AVL set, verified

This project models `src/c-avl.c`. That file is a generic AVL set whose nodes live in one growable array, the arena. The indices of unused slots sit on a LIFO stack, the free-slot stack. Keys are opaque and are ordered by a caller-supplied comparator. A key the set lets go of is handed to an optional key destructor.

The model keeps the source's structure:

- **`FreeSlots.SlotStack`** is the free-slot stack: a fixed array with a `tail` field.
- **`Arena`** holds the in-place node operations, which rewrite an `array<Element<K>>` the way the source rewrites `avl_set_element`s:
  - reading heights and balance factors;
  - single and double rotations;
  - rebalancing after an insertion or a deletion;
  - the min/max walks;
  - the recursive search.
- **`ArenaAvl.AvlSet`** is `struct avl_set`. It is a class with:
  - fields for the arena, the stack, the size, the root index and the capacity;
  - the recursive insertion and deletion as mutually recursive methods;
  - the public operations `create`, `size`, `clear`, `search`, `insert` and `delete`.
- **`AvlTree`** is a ghost algebraic tree. Each node records its slot, key and stored height. The functions of `AvlTree` compute what each recursive C routine does to that tree: insertion, deletion, the four rotation cases, and search. `Stored(a, t)` says that arena `a` encodes tree `t`. Every method that rewrites the arena is proved to leave it encoding the value the corresponding function computes.
- **`KeySeq`** is the reference meaning of the set: a sorted sequence of keys with `Find`, `Insert` (replace-or-add) and `Remove`. The modules below connect the tree functions to it:
  - `AvlContents` proves that in-order contents, search, insertion and deletion agree with `KeySeq`;
  - `AvlShape` proves height bookkeeping and AVL balance;
  - `AvlSlots` proves slot bookkeeping.

The class invariant `Valid()` states:

- the comparator is a total preorder;
- the arena encodes the ghost tree;
- the tree is ordered, its heights are correct and it is AVL-balanced;
- `size` is the number of keys;
- the root index is the root's slot;
- the free stack and the live slots partition `[0, capacity)`, with no slot twice;
- every free slot is zeroed.

Every public operation keeps `Valid()`. Its result and its new contents are stated in terms of `KeySeq`. The ghost field `released` logs, in order, every key handed to the key destructor.

`CustomScenario` replays `test/test_custom.c`:

1. insert alice, bob, carl, david and eve;
2. delete carl;
3. delete alice;
4. insert carl again.

It proves every return code and every search result of that run. `Findings` holds three defects of the source, each modelled as written and refuted on a concrete input, next to the corrected behaviour the rest of the model uses.

## Model

| member | source | states |
|---|---|---|
| FreeSlots.SlotStack.constructor | src/c-avl.c:188-190 | a new stack of the given size is empty |
| FreeSlots.SlotStack.Pop | src/c-avl.c:88-101 | on an empty stack returns -1 and changes nothing; otherwise returns 0 and the most recently pushed index, which leaves the stack |
| FreeSlots.SlotStack.Push | src/c-avl.c:103-108 | the index goes on top of the stack: the array changes only at the old tail, which holds the index, and the tail grows by one |
| FreeSlots.SlotStack.Clear | src/c-avl.c:110-114 | the stack becomes empty |
| Comparator.LessChain | export/c-avl.h:44 | a comparator that orders keys by the sign of its result chains strict and non-strict comparisons |
| AvlTree.RotateRight | src/c-avl.c:61-69 | the former left child becomes the subtree root, with the old root as its right child; in-order keys and slots are unchanged; recomputed heights stay correct |
| AvlTree.RotateLeft | src/c-avl.c:71-79 | mirror of RotateRight: the former right child becomes the root; in-order keys and slots are unchanged |
| AvlTree.DeleteGoesLeft | src/c-avl.c:486-511 | a key below the node's key is deleted in the left subtree, followed by left-shrunk rebalancing and a height update; the search answer is the left subtree's |
| AvlTree.DeleteGoesRight | src/c-avl.c:512-537 | the mirror case for a key above the node's key |
| AvlShape.HeightIsDepth | src/c-avl.c:43-54 | in a tree whose stored heights are correct, the stored height is the depth (0 for an empty link) |
| AvlShape.UpdateHeightOk | src/c-avl.c:48-54 | recomputing the height of a node whose heights are correct changes nothing |
| AvlShape.RotateRightHeights | src/c-avl.c:61-69 | after a right rotation the old root's height is recomputed first, then the new root's, each as 1 + the larger child height |
| AvlShape.RotateLeftHeights | src/c-avl.c:71-79 | the same for a left rotation |
| AvlSlots.UpdateHeightKeeps | src/c-avl.c:48-54 | a height update keeps the slots, link, slot uniqueness and keys of a node |
| AvlSlots.RotateRightUnique | src/c-avl.c:61-69 | a right rotation keeps every slot used once |
| AvlSlots.RotateLeftUnique | src/c-avl.c:71-79 | a left rotation keeps every slot used once |
| AvlSlots.RebalanceInsertKeeps | src/c-avl.c:408-450 | the insertion rebalancing keeps slots, in-order keys and slot uniqueness |
| AvlSlots.RebalanceShrunkKeeps | src/c-avl.c:493-536 | the deletion rebalancing on either side keeps slots, in-order keys and slot uniqueness |
| AvlSlots.InsertSlots | src/c-avl.c:350-366 | insertion adds exactly the popped slot when the key was absent and no slot otherwise; a fresh slot keeps slots unique |
| AvlSlots.DeleteSlots | src/c-avl.c:592-613 | deletion frees a slot only when the key is found; that slot belonged to the tree and is the only slot the tree loses; otherwise the slots are unchanged |
| AvlSlots.DeleteSlotsLeft | src/c-avl.c:486-492 | the single freed slot of the left subtree is the single freed slot of the node |
| AvlSlots.DeleteSlotsRight | src/c-avl.c:512-518 | the same for the right subtree |
| AvlSlots.DeleteSlotsSuccessor | src/c-avl.c:549-569 | in the successor case the slot freed below is the slot the node loses |
| AvlSlots.DeleteSlotsPredecessor | src/c-avl.c:570-590 | the same in the predecessor case |
| AvlSlots.SlotCount | src/c-avl.c:201-204 | with unique slots, the number of live slots equals the number of keys |
| AvlContents.OrderedIffSorted | src/c-avl.c:367-407 | a tree is a binary search tree under the comparator iff its in-order keys are sorted |
| AvlContents.SearchFinds | src/c-avl.c:299-328 | the recursive search returns the stored key equal to the query iff the sorted key sequence holds one |
| AvlContents.InsertContents | src/c-avl.c:348-407 | insertion's in-order keys are the sorted replace-or-add of the key |
| AvlContents.InsertOrdered | src/c-avl.c:348-450 | insertion keeps the search-tree order |
| AvlContents.MinKeyFirst | src/c-avl.c:552-561 | the leftmost key, where the walk down left links stops, is the first in-order key |
| AvlContents.MaxKeyLast | src/c-avl.c:573-582 | the rightmost key is the last in-order key |
| AvlContents.DeleteContents | src/c-avl.c:477-627 | deletion's in-order keys are the sorted removal of the key; an absent key leaves them unchanged |
| AvlContents.DeleteDescendStep | src/c-avl.c:486-537 | deleting in the left or right subtree removes the key from the whole sequence |
| AvlContents.DeleteHitStep | src/c-avl.c:538-613 | at the node holding the key, the node's key leaves the sequence and nothing else does |
| AvlContents.HitTakesSuccessor | src/c-avl.c:549-569 | copying the successor's key into the node and deleting it on the right yields left keys followed by right keys |
| AvlContents.HitTakesPredecessor | src/c-avl.c:570-590 | the same with the predecessor deleted on the left |
| AvlContents.DeleteSuccessor | src/c-avl.c:566 | deleting the minimum from a subtree drops exactly its first in-order key |
| AvlContents.DeletePredecessor | src/c-avl.c:587 | deleting the maximum from a subtree drops exactly its last in-order key |
| AvlContents.DeleteOrdered | src/c-avl.c:477-627 | deletion keeps the search-tree order |
| AvlContents.ExtremesFound | src/c-avl.c:566 | the minimum and the maximum of an ordered subtree are found by search, so the victim deletion with replace set always hits |
| AvlContents.DeleteFreesIffFound | src/c-avl.c:594-597 | deletion frees a slot iff the key was in the tree |
| AvlShape.RebalanceAfterLeftInsert | src/c-avl.c:412-430 | after an insertion on the left, the LL/LR cases restore AVL balance and correct heights, and the height grows by at most one |
| AvlShape.RebalanceAfterRightInsert | src/c-avl.c:431-449 | the same for the RR/RL cases |
| AvlShape.InsertAvl | src/c-avl.c:348-450 | insertion keeps AVL balance and correct heights; the height grows by at most one, and a grown subtree is never even |
| AvlShape.InsertNeverEvenChild | src/c-avl.c:412-449 | when insertion leaves a balance factor beyond ±1, the taller child is never even, so the two rotation cases are exhaustive |
| AvlShape.InsertPresentKeepsShape | src/c-avl.c:368-377 | replacing an equal key leaves the shape, heights and slots unchanged |
| AvlShape.SameShapeHeight | src/c-avl.c:368-377 | trees of the same shape agree on height, slots, balance and height correctness |
| AvlShape.ShrunkHeightsOk | src/c-avl.c:493-536 | deletion rebalancing followed by the height update leaves correct heights |
| AvlShape.DeleteHeightsOk | src/c-avl.c:624-626 | deletion leaves every stored height correct, in both the as-written and the corrected rebalancing |
| AvlShape.RotateLeftRestores | src/c-avl.c:498-502 | a single left rotation balances a right-heavy node whose right child does not lean left |
| AvlShape.RotateRightLeftRestores | src/c-avl.c:503-509 | a right-left double rotation balances a right-heavy node whose right child leans left |
| AvlShape.RotateRightRestores | src/c-avl.c:524-528 | a single right rotation balances a left-heavy node whose left child does not lean right |
| AvlShape.RotateLeftRightRestores | src/c-avl.c:529-535 | a left-right double rotation balances a left-heavy node whose left child leans right |
| AvlShape.RebalanceAfterLeftDelete | src/c-avl.c:486-511 | after a deletion on the left, the corrected rebalancing restores AVL balance and the height drops by at most one |
| AvlShape.RebalanceAfterRightDelete | src/c-avl.c:512-537 | the same on the right |
| AvlShape.DeleteAvl | src/c-avl.c:477-627 | the corrected deletion keeps AVL balance and correct heights; the height drops by at most one |
| AvlShape.HitNeedsNoRotation | src/c-avl.c:541-590 | a node with two children that holds the key keeps its slot, and its balance factor stays within one without a rotation, because the victim is taken from the taller side (the left when equal) |
| AvlShape.DeleteAbsentUnchanged | src/c-avl.c:479-537 | deleting an absent key from a balanced tree returns the same tree and frees nothing |
| AvlShape.BalancedNodeFixed | src/c-avl.c:493-536 | on a balanced node the rebalancing and the height update are no-ops |
| KeySeq.Find | src/c-avl.c:330-346 | a found key compares equal to the query; none is found iff no key compares equal |
| KeySeq.FindSorted | src/c-avl.c:299-328 | in a sorted key sequence every stored key is found as itself |
| KeySeq.InsertSorted | src/c-avl.c:453-475 | inserting into a sorted sequence keeps it sorted |
| KeySeq.InsertLength | src/c-avl.c:473-474 | inserting adds one key iff no key compared equal |
| KeySeq.InsertFindsKey | src/c-avl.c:368-377 | after inserting, the key itself is found, replacing any equal key |
| KeySeq.InsertFindsOthers | src/c-avl.c:453-475 | inserting does not change what other queries find |
| KeySeq.RemoveSorted | src/c-avl.c:629-648 | removing keeps the sequence sorted |
| KeySeq.RemoveLength | src/c-avl.c:641-647 | removing drops one key iff one compared equal |
| KeySeq.RemoveLosesKey | src/c-avl.c:629-648 | after removing, the key is not found |
| KeySeq.RemoveFindsOthers | src/c-avl.c:629-648 | removing does not change what other queries find |
| KeySeq.SortedJoin | src/c-avl.c:367-407 | a node's in-order sequence is sorted iff both sides are sorted and lie below and above its key |
| KeySeq.InsertAtSplit | src/c-avl.c:367-407 | at a node, an equal key replaces the node's key, a smaller one goes left and a larger one goes right |
| KeySeq.RemoveAtSplit | src/c-avl.c:485-537 | at a node, an equal key removes the node's key, a smaller one is removed on the left and a larger one on the right |
| KeySeq.SortedLast | src/c-avl.c:587 | removing the last key of a sorted sequence drops exactly that key |
| Arena.StoredGrow | src/c-avl.c:257-261 | a larger arena whose first slots copy the old ones still encodes the tree |
| Arena.StoredAgree | src/c-avl.c:380-407 | writes outside a tree's slots leave it encoded |
| Arena.HeightOf | src/c-avl.c:43-46 | the stored height of a link, 0 for an empty link, is the tree's height |
| Arena.BalanceOf | src/c-avl.c:56-59 | left height minus right height of the node in a slot is the tree's balance factor |
| Arena.UpdateHeightAt | src/c-avl.c:48-54 | rewrites only that slot, which afterwards encodes the height-updated node |
| Arena.RotateRightAt | src/c-avl.c:61-69 | relinks in place and touches only the two rotated slots; the arena encodes RotateRight of the node, and the new root's slot is returned |
| Arena.RotateLeftAt | src/c-avl.c:71-79 | the same for RotateLeft |
| Arena.RotateLeftRightAt | src/c-avl.c:422-429 | the left child is rotated left, then the node right; the arena encodes the double rotation |
| Arena.RotateRightLeftAt | src/c-avl.c:441-448 | the right child is rotated right, then the node left |
| Arena.RebalanceInsertAt | src/c-avl.c:408-450 | in place, after the height update, the arena encodes the insertion rebalancing of the node; only the node's slots change |
| Arena.RebalanceLeftShrunkAt | src/c-avl.c:494-510 | in place, the arena encodes the corrected rebalancing after the left side shrank, except for the new root's height, which the caller updates next; only the node's slots change |
| Arena.RebalanceRightShrunkAt | src/c-avl.c:520-536 | the same after the right side shrank |
| Arena.SetKeyAt | src/c-avl.c:564 | only the node's slot changes, and it holds the new key |
| Arena.SetLinkAt | src/c-avl.c:566-568 | the new child link is written and the height updated; only that slot changes |
| Arena.RelinkInsertAt | src/c-avl.c:380-450 | the new child link is written, then the node is rebalanced; the arena encodes the insertion's result at this node |
| Arena.RelinkLeftAt | src/c-avl.c:491-510 | the new left link is written, the node rebalanced and its height updated |
| Arena.RelinkRightAt | src/c-avl.c:517-536 | the same for the right link |
| Arena.MinSlot | src/c-avl.c:552-562 | the walk down left links reaches the slot holding the subtree's least key |
| Arena.MaxSlot | src/c-avl.c:573-583 | the walk down right links reaches the slot holding the subtree's greatest key |
| Arena.SearchFrom | src/c-avl.c:299-328 | returns no slot iff the tree search finds nothing; otherwise returns the slot of the key found |
| ArenaKeys.ScanKeys | src/c-avl.c:211-217 | the destructor scan returns the non-NULL keys of the slots below n, in slot order |
| ArenaKeys.KeysInTree | src/c-avl.c:211-217 | the keys held by the live slots of a stored tree are, as a multiset, the tree's keys |
| ArenaAvl.CountdownPartition | src/c-avl.c:192-196 | the stack built by creation, n-1 at the bottom and 0 on top, with no live slot, partitions the n slots |
| ArenaAvl.PartitionPop | src/c-avl.c:353-359 | popping the top free slot and making it live keeps the partition |
| ArenaAvl.PartitionPush | src/c-avl.c:594-597 | freeing a live slot and pushing it keeps the partition |
| ArenaAvl.PartitionGrow | src/c-avl.c:282-287 | growing to m slots and pushing every new index keeps the partition |
| ArenaAvl.InsertKeepsInvariant | src/c-avl.c:453-475 | insertion keeps the tree well formed; its keys are the sorted insert; the top free slot becomes live iff the key was absent |
| ArenaAvl.DeleteKeepsInvariant | src/c-avl.c:629-648 | the corrected deletion keeps the tree well formed and removes exactly the key; a found key frees its slot and drops the size by one; an absent key changes nothing |
| ArenaAvl.DescendLeftReady | src/c-avl.c:489-492 | deleting in the left subtree leaves the node's slot and right subtree intact |
| ArenaAvl.DescendRightReady | src/c-avl.c:515-518 | deleting in the right subtree leaves the node's slot and left subtree intact |
| ArenaAvl.DescendLeftDone | src/c-avl.c:486-511 | the deletion below, followed by the relink, leaves the arena encoding the deletion from the node; only its slots change and the freed slot is zeroed |
| ArenaAvl.DescendRightDone | src/c-avl.c:512-537 | the mirror case on the right |
| ArenaAvl.PushAllSlots | src/c-avl.c:192-196 | the countdown loop leaves 0 on top and reserve-1 at the bottom |
| ArenaAvl.GrowArena | src/c-avl.c:254-261 | the new arena has n slots: the old slots copied at the same indices, the rest zeroed |
| ArenaAvl.GrowStack | src/c-avl.c:268-287 | the new stack holds the old free indices, then every index from the old capacity up to n (corrected, see Findings) |
| ArenaAvl.Create | src/c-avl.c:143-199 | no set iff no comparator; otherwise an empty valid set whose capacity is the configured reserve if positive, else 8 |
| ArenaAvl.AvlSet.constructor | src/c-avl.c:150-199 | empty set, size 0, root index 0, capacity as configured or 8, stack holding every slot with 0 on top |
| ArenaAvl.AvlSet.Size | src/c-avl.c:201-204 | the number of keys in the set |
| ArenaAvl.AvlSet.Clear | src/c-avl.c:206-225 | corrected clear: every stored key is released, the set is empty and valid, and the stack is refilled as creation fills it |
| ArenaAvl.AvlSet.ClearAsWritten | src/c-avl.c:206-225 | as written: releases the keys of slots 0..size-1, zeroes the arena, resets size and root index, and empties the stack |
| ArenaAvl.AvlSet.Reset | src/c-avl.c:218-224 | zeroed arena, size 0, root index 0, full countdown stack, valid |
| ArenaAvl.AvlSet.Search | src/c-avl.c:330-346 | the stored key that compares equal to k if there is one, else none; an empty set answers none |
| ArenaAvl.AvlSet.InsertAt | src/c-avl.c:348-377 | an empty edge takes a new leaf in the popped slot and the size grows; an equal key is replaced in place and the old key released; otherwise the descent; returns the new subtree root's slot |
| ArenaAvl.AvlSet.InsertBelow | src/c-avl.c:378-450 | inserts in the side the comparator picks, relinks that child and rebalances; the arena encodes the tree insertion |
| ArenaAvl.AvlSet.DeleteAt | src/c-avl.c:477-487 | an empty link returns none; otherwise descends or hits; the arena encodes the deletion; a found key is released and the size drops only when replace is 0; the freed slot is zeroed and pushed |
| ArenaAvl.AvlSet.DescendLeft | src/c-avl.c:486-511 | deletes in the left subtree, relinks, rebalances and updates the height |
| ArenaAvl.AvlSet.DescendRight | src/c-avl.c:512-537 | deletes in the right subtree, relinks, rebalances and updates the height |
| ArenaAvl.AvlSet.DeleteHit | src/c-avl.c:538-626 | unlinks the node holding the key; when replace is 0 the recorded key is released and the size drops by one |
| ArenaAvl.AvlSet.Unlink | src/c-avl.c:541-613 | two children: successor if the right side is taller, otherwise predecessor, and the slot stays; otherwise the node is spliced out |
| ArenaAvl.AvlSet.Splice | src/c-avl.c:592-613 | the slot is zeroed and pushed on the stack; the only child or nothing takes its place |
| ArenaAvl.AvlSet.ReplaceBySuccessor | src/c-avl.c:549-569 | the leftmost key of the right subtree replaces the node's key and is deleted from the right with replace set; size and released keys unchanged |
| ArenaAvl.AvlSet.ReplaceByPredecessor | src/c-avl.c:570-590 | the same with the rightmost key of the left subtree |
| ArenaAvl.AvlSet.ReserveOne | src/c-avl.c:244-297 | no change while size < capacity; otherwise capacity becomes size + size/2 + 8, old slots keep their indices, the new indices join the stack, and the set stays valid |
| ArenaAvl.AvlSet.Insert | src/c-avl.c:453-475 | returns 0 and adds the key when no equal key is stored; returns 1, replaces the equal key and releases it otherwise; an empty set always returns 0; size changes accordingly; the capacity stays unless a non-empty set was full, and then becomes size + size/2 + 8 |
| ArenaAvl.AvlSet.InsertRoot | src/c-avl.c:457-474 | insertion from the root, with a free slot guaranteed, updates the root index |
| ArenaAvl.AvlSet.Delete | src/c-avl.c:629-648 | -1 with nothing changed on an empty set or absent key, root index included; otherwise 0, the key removed and released, size one less |
| ArenaAvl.AvlSet.SetRoot | src/c-avl.c:646 | the new root's slot becomes the root index |
| Findings.ClearAsWrittenSkipsLiveKey | src/c-avl.c:212-217 | after inserting 1 and 2 and deleting 1, the live key sits in slot 1; the as-written scan of slots below size 1 releases nothing, while the live slots hold key 2 |
| Findings.ClearAsWrittenThenPop | src/c-avl.c:223 | after the as-written clear, the next pop for an insertion fails with -1 |
| Findings.ClearThenPop | src/c-avl.c:206-225 | after the corrected clear, the next insertion takes slot 0, as after creation |
| Findings.GrowAsWrittenLosesNewSlots | src/c-avl.c:283-287 | as written, whenever the words read past the old stack hold old slot numbers, none of the new slots becomes free, and the grown arena is no longer partitioned by the stack and the live slots |
| Findings.GrowAsWrittenBreaksPartition | src/c-avl.c:283-287 | growing a full default set from 8 to 20 slots pushes live slot 0 twelve times if those words read zero, which breaks the partition; the corrected stack is a partition |
| Findings.EvenSiblingReachable | src/c-avl.c:453-475 | inserting 2, 1, 4, 3, 5 in that order builds the tree whose right child is even |
| Findings.EvenSiblingWellFormed | src/c-avl.c:494-510 | that tree is a well-formed AVL tree whose right child has balance factor 0 |
| Findings.DeleteAsWrittenUnbalances | src/c-avl.c:494-510 | deleting 1 from it as written leaves an unbalanced tree, though the keys are right |
| Findings.DeleteCorrectedBalances | src/c-avl.c:494-510 | the corrected deletion rotates and leaves a balanced tree |
| CustomScenario.StrCmpIsComparator | test/test_custom.c:37-42 | strcmp on NUL-free strings is a comparator |
| CustomScenario.NamesSorted | test/test_custom.c:66-71 | the five names are sorted under strcmp |
| CustomScenario.InsertName | test/test_custom.c:74-78 | each insertion of the next name returns 0 and appends it |
| CustomScenario.InsertNames | test/test_custom.c:74-78 | the five insertions all return 0 and the set holds the five names |
| CustomScenario.CarlDeleted | test/test_custom.c:90 | carl is present and removing it leaves alice, bob, david, eve |
| CustomScenario.AliceDeleted | test/test_custom.c:108 | alice is present and removing it leaves bob, david, eve |
| CustomScenario.CarlReinserted | test/test_custom.c:126 | carl is absent and inserting it yields bob, carl, david, eve |
| CustomScenario.FoundAll | test/test_custom.c:80-87 | with the five names stored, each name finds itself |
| CustomScenario.FoundAtEnd | test/test_custom.c:128-141 | after carl is back, every name but alice is found |
| CustomScenario.FoundAfterCarl | test/test_custom.c:92-105 | after deleting carl every name but carl is found |
| CustomScenario.FoundAfterAlice | test/test_custom.c:110-123 | after deleting alice only bob, david and eve are found |
| CustomScenario.Lookup | test/test_custom.c:80-87 | the search loop returns, for each name, the stored key that compares equal to it, or none |
| CustomScenario.Found | test/test_custom.c:92-105 | each search reports whether the name is in the set |
| CustomScenario.SearchNames | test/test_custom.c:80-87 | the first search loop finds every name, and each returned key is strcmp-equal to the name (it is the name itself) |
| CustomScenario.SearchFinal | test/test_custom.c:128-141 | the search loop after reinserting carl finds every name but alice |
| CustomScenario.SearchWithoutCarl | test/test_custom.c:92-105 | the search loop after deleting carl finds every name but carl |
| CustomScenario.SearchWithoutAliceAndCarl | test/test_custom.c:110-123 | the search loop after deleting alice finds only bob, david and eve |
| CustomScenario.DeleteCarl | test/test_custom.c:89-105 | deleting carl returns 0, then the searches as above |
| CustomScenario.DeleteAlice | test/test_custom.c:107-123 | deleting alice returns 0, then the searches as above |
| CustomScenario.ReinsertCarl | test/test_custom.c:125-126 | inserting carl again returns 0 |
| CustomScenario.DeleteAndReinsert | test/test_custom.c:89-126 | the second half of the run: return codes 0, 0, 0, the results of the three search loops and the final contents |
| CustomScenario.Run | test/test_custom.c:57-141 | the whole run, from creation with reserve 5: five inserts return 0; the first search loop returns each name; both deletes and the reinsert return 0; and the three later search loops find exactly the names still present |

## Left out

- Allocator callbacks, `malloc`/`free` and byte-level `memset`/`memcpy` are modelled as fresh Dafny arrays and element assignments. Allocation failure is not modelled, because a Dafny allocation cannot fail.
- `avl_set_destroy` (src/c-avl.c:227-242) only clears and deallocates, and deallocation has no counterpart here.
- The key destructor is a foreign call. The ghost sequence `released` records the keys it would receive, in order; whether a destructor is configured is not modelled.
- Links are slot indices (`Option<nat>`), where the source stores node addresses cast to `uintptr_t`. Address arithmetic (`nroot - s->_tree`) becomes the slot index. The `uint32_t` cast of the root index in `avl_set_insert` is not modelled: indices are unbounded.
- Stale links after growth: `__avl_set_reserve_one` copies node addresses into the new arena and then frees the old one (src/c-avl.c:259-265). The copied links therefore point into freed memory. With index links this cannot happen. The model uses the evidently intended meaning and does not represent the dangling addresses, so no Findings row can exhibit it.
- ArenaAvl.AvlSet.Delete: when the last key is deleted the source computes the root index from a NULL pointer (src/c-avl.c:646). The model sets it to 0, the value creation uses. Nothing reads the root index of an empty set.
- ArenaAvl.AvlSet.ClearAsWritten records only the non-NULL keys of slots 0..size-1. The source also hands the NULL key of an empty slot in that range to the destructor; the ghost log has no entry for a NULL key.
- The comparator must be a total preorder (`Comparator.IsComparator`). The source assumes this without checking.
- ArenaAvl.AvlSet.Search returns the stored key as an `Option`. The source's NULL-for-absent is conflated with a stored NULL key, and the model does not store NULL keys.
- The test's `printf` output, its custom allocator and the final `avl_set_destroy` call are not modelled.

## Findings

| source | as written | input that shows it | evidently intended | confidence | as-written member | corrected member |
|---|---|---|---|---|---|---|
| src/c-avl.c:212-217, 223 | `avl_set_clear` destructs the keys of slots 0..size-1 and empties the free stack | insert 1 and 2, then delete 1: key 2 lives in slot 1 and is never destructed; afterwards the next insertion's pop fails | destruct every live key and refill the free stack as creation does | not executed | Findings.ClearAsWrittenSkipsLiveKey | ArenaAvl.AvlSet.Clear |
| src/c-avl.c:283-287 | growth pushes `s->_slots->array[j]`, the words beyond the old stack | growing a full set of capacity 8 to 20: if those words read zero, live slot 0 is pushed twelve times and slots 8..19 never become free | push the new index `j` itself | not executed | Findings.GrowAsWrittenBreaksPartition | ArenaAvl.GrowStack |
| src/c-avl.c:498-509, 524-535 | deletion rebalancing does nothing when the taller child's balance factor is 0 | insert 2, 1, 4, 3, 5, then delete 1: the root is left with balance factor -2 | rotate once when the taller child is even (`>= 0` / `<= 0`) | not executed | Findings.DeleteAsWrittenUnbalances | Findings.DeleteCorrectedBalances |
