# Deterministic 1-2-3 skip list

A Dafny model of `DeterminSkipList`, the deterministic 1-2-3 skip list of
`include/determin_skip_list.h`, with proofs about it. The
`include/determin_skip_list.hpp` copy is the same code with `nullptr`
written for `NULL` (its lines are those of the `.h` file less 82 up to
`Insert`'s split, less 81 after it). The same model covers both files.

The list is a stack of levels. Every level is a row of nodes with
increasing keys and ends in a node keyed `Max`, followed by the shared
`tail` sentinel (key `Max_1`). The top level is `head` alone. Below the
lowest level sits the `bottom` sentinel. Every key of a level is repeated
on the level below it. The 1-2-3 rule says that every node of an upper
level has a gap of one to three nodes under it. The gap runs from the node
its down link points at up to the copy of its own key.

The model keeps the keys only. It stores the list as `levels:
seq<seq<int>>` (`Layout.DSkipList`), with `levels[0] == [max]` as the head
level and the last entry as the lowest level. Down links are not stored.
In every reachable state a node's down link designates the node just after
the copy of its left neighbour's key, or the first node of the level below
for the leftmost node. `Layout.Down` computes that index, and `Layout.Gap`
counts the gap. Every operation is a pure function of the list. Each
descent loop of the source is a recursive function over the level index.
The class invariant `Layout.Inv` says:

- the levels are sorted, non-empty, and end in `max`;
- each level's keys are repeated on the level below it;
- the head level is `[max]`;
- every gap holds one to three nodes.

Modules:

- `SortedSeq`: sorted sequences, the position of the first key `>=` or
  `>` a value, and insert, delete and rename at a position.
- `Layout`: the list, the derived down links, the invariant, `Init`,
  `LowerHeadRemoveHelp` and the walk along one level.
- `Gaps`: how gap sizes change when a key is inserted, deleted or replaced
  on either level of a pair.
- `Search`: `Search` and `SearchHelp`.
- `Insert`: `Insert`, with the split of full gaps on the way down and the
  growth of the height.
- `Fixes`: the four repairs that `Remove` makes above the lowest level,
  which borrow from or merge with the next or previous gap.
- `Remove`: `Remove`, `FindAndModifyRemoveHelp`, and the three endings on
  the lowest level (`visit_num` zero, one, or more).
- `Validity`: `IsValid` as a method with loops.
- `Balance`: the height bound the 1-2-3 rule gives. Every gap holds at least
  one node, so the height is at most log2 of one more than the element count.

## Model

| member | source | states |
|---|---|---|
| Layout.Init | include/determin_skip_list.h:110-121 | the new list obeys the class invariant, holds no element and has height 0 |
| Layout.Walk | include/determin_skip_list.h:163-164 | walking right while the sought key is larger stops at the first node whose key is `>=` it, and always before the tail, because every level ends in `Max` |
| Search.Descend | include/determin_skip_list.h:162-168 | the descent, entered on any level ahead of v, answers `bottom` exactly when v is not on the lowest level; otherwise it answers the lowest-level node holding v |
| Search.SearchHelp | include/determin_skip_list.h:155-170 | answers `bottom` iff v is not an element; otherwise a node of the lowest level whose key is v |
| Search.Search | include/determin_skip_list.h:149-153 | true iff v is an element |
| Insert.Split | include/determin_skip_list.h:198-203 | a split puts the promoted key at the cursor's index and the cursor's old key right after it, leaving the rest of the level in place |
| Insert.SplitTest | include/determin_skip_list.h:196-197 | the test `current->key > current->down->right->right->key` holds iff the gap under the cursor holds three nodes, and the split then leaves two gaps of one |
| Insert.SplitIfFull | include/determin_skip_list.h:194-204 | a gap of one or two nodes is left alone; a gap of three is split at its middle node, which leaves two gaps of one node; no other level changes |
| Insert.SplitPromotesMiddle | include/determin_skip_list.h:198-203 | the middle node of a full gap lies strictly between the cursor's left neighbour and the cursor; promoting it keeps every key repeated below and leaves gaps of one on both sides |
| Insert.MiddleKey | include/determin_skip_list.h:200-203 | in a gap of three, `down->right` is the middle node, and `down->right->right` is the node the new node's down link takes |
| Insert.Placed | include/determin_skip_list.h:196-203 | the lowest level after an insertion holds exactly its old keys and v, and stays sorted |
| Insert.InsertDescendKeepsRule | include/determin_skip_list.h:186-206 | the top-down pass keeps the levels sorted and nested and every gap within one to three; the head level splits at most once, and only when its one gap was full |
| Insert.InsertDescendLowest | include/determin_skip_list.h:186-206 | the pass reports whether v was absent; the lowest level gains v at its ordered position when v was absent and is unchanged otherwise |
| Insert.InsertLowestPlaces | include/determin_skip_list.h:187-203 | on the lowest level an existing v stops the pass with false; a new v is placed just before the first larger key |
| Insert.InsertLowestKeepsRule | include/determin_skip_list.h:196-203 | placing v on the lowest level keeps the 1-2-3 rule, because the gap the pass came down through held at most two nodes |
| Insert.Grow | include/determin_skip_list.h:207-214 | when `head->right != tail` a new head level is put on top, which restores the invariant and grows the height by exactly one; otherwise nothing changes |
| Insert.Insert | include/determin_skip_list.h:178-217 | keeps the class invariant; returns true iff v was not an element; the elements afterwards are the old ones plus v; the height grows by one iff the list was empty or the level under the head held three keys besides `Max` |
| Fixes.BorrowNextGaps | include/determin_skip_list.h:309-312 | borrowing from a next gap of two or more turns the cursor's gap of one into a gap of two, keeps the pair within the 1-2-3 rule, and changes only the cursor's key, to one strictly between its old key and the next |
| Fixes.MergeNextGaps | include/determin_skip_list.h:313-319 | merging two gaps of one removes one key and leaves one gap of three in their place |
| Fixes.BorrowPrevKey | include/determin_skip_list.hpp:242-245 | the one or two steps right of the previous node's down target land on the node just before that node's copy |
| Fixes.BorrowPrevGaps | include/determin_skip_list.h:322-328 | borrowing from a previous gap of two or more lowers the previous node's key and moves the cursor's down link one node left; the cursor's gap becomes two and the pair stays within the 1-2-3 rule |
| Fixes.MergePrevGaps | include/determin_skip_list.hpp:248-252 | merging the previous gap of one with the cursor's gap of one removes one key and leaves one gap of three |
| Fixes.FixNone | include/determin_skip_list.h:303 | the test `current->key == current->down->right->key` fails on a gap of two or more, and then the level is left as it is |
| Fixes.FixNext | include/determin_skip_list.h:305-319 | with `previous == NULL` and a gap of one, the next gap's test reads as "two or more"; the next gap then lends a node, or the two gaps merge |
| Fixes.FixPrev | include/determin_skip_list.h:321-334 | with `previous != NULL` and a gap of one, the previous gap's test reads as "two or more"; the previous gap then lends a node, or the two gaps merge |
| Fixes.FixLevelWidens | include/determin_skip_list.h:299-335 | after the repair step the gap that the pass descends into holds two or more nodes, the saved `next` link still lies inside it, the repaired level keeps the 1-2-3 rule over the level below, and v is on the repaired level only if it was there before |
| Fixes.FixLevelNarrows | include/determin_skip_list.h:299-335 | the repair step changes only the gap of the level above that the pass came through, and shrinks it by at most one node |
| Remove.LowerHeadRestores | include/determin_skip_list.h:233-242 | when the level under the head holds only `Max`, dropping it restores the class invariant and lowers the height by one; otherwise the list is unchanged and already valid; the lowest level is untouched |
| Remove.RenameAtWalk | include/determin_skip_list.h:225-228 | renaming the node where the walk stops renames every node of that level holding v |
| Remove.FindAndModify | include/determin_skip_list.h:218-232 | the walk-and-rename descent renames v to the other value on every level and changes nothing else |
| Remove.RemoveStep | include/determin_skip_list.h:257-336 | on every level above the lowest one the walk stops before the tail; if the cursor has not moved, a next node exists; the repair keeps the descent invariant for the next level, entered at the saved `next` link |
| Remove.TallHasPrevious | include/determin_skip_list.h:284-291 | when v was met on a higher level, the walk on the lowest level moves right before it reaches v, so `previous` is not NULL there |
| Remove.DeleteLowest | include/determin_skip_list.h:275-281 | unlinking the lowest-level node of a v held on no higher level keeps the 1-2-3 rule, because v sits in a widened gap |
| Remove.DeleteRenamed | include/determin_skip_list.h:291-293 | renaming v to its left neighbour's key and unlinking v's node leaves the lowest level that unlinking v alone leaves |
| Remove.TallIsRenamed | include/determin_skip_list.h:288-293 | the tall branch's walk-and-rename equals renaming v to the key before it on every level above the lowest one, plus unlinking v below |
| Remove.TallRenames | include/determin_skip_list.h:288-293 | on a list whose head is already lowered, renaming a tall key to its lowest-level predecessor on the upper levels and unlinking it below keeps the levels sorted and nested, the head level `Max` alone, and every gap within one to three |
| Remove.TallKeeps | include/determin_skip_list.h:284-295 | the `visit_num > 1` branch keeps the class invariant, unlinks v's node from the lowest level, and lowers the height by at most one |
| Remove.ShortKeeps | include/determin_skip_list.h:275-283 | the `visit_num == 1` branch keeps the class invariant, unlinks v's node from the lowest level, and lowers the height by at most one |
| Remove.MissKeeps | include/determin_skip_list.h:269-273 | the `visit_num == 0` branch keeps the class invariant and the lowest level |
| Remove.Unlinked | include/determin_skip_list.h:278-281 | the lowest level without v is still sorted and holds exactly the other keys |
| Remove.RemoveDescendKeeps | include/determin_skip_list.h:253-337 | from any state of the descent the pass ends with the class invariant, reports whether v was on the lowest level, unlinks exactly v, and lowers the height by at most one |
| Remove.HeadLevelMerges | include/determin_skip_list.h:299-335 | on the level under the head, entered at its first node, the repair leaves `Max` alone exactly when that level held one key besides `Max` over a level of four nodes, because only then are both gaps of one and merged |
| Remove.DescendHeight | include/determin_skip_list.h:253-297 | once the pass is below the level under the head it never changes that level, so the list loses a level exactly when `LowerHeadRemoveHelp` would drop it at that point, in all three endings |
| Remove.LowestHeight | include/determin_skip_list.h:268-297 | in each of the three endings on the lowest level, with that level not directly under the head, the number of levels is the one that `LowerHeadRemoveHelp` leaves |
| Remove.OnlyElement | include/determin_skip_list.h:268-283 | a list of height one holds v alone exactly when its lowest level is v followed by `Max` |
| Remove.SingleLevelHeight | include/determin_skip_list.h:268-283 | on a list of height one, a removal lowers the height exactly when v was the only element |
| Remove.StackedHeight | include/determin_skip_list.h:254-336 | on a list of height two or more, a removal loses a level exactly when the repair of the level under the head leaves `Max` alone on it |
| Remove.RemoveHeight | include/determin_skip_list.h:243-338 | the descent loses a level exactly when v was the only element of a list of height one, or when the level under the head held one key besides `Max` over a level of four nodes, whether or not v is present |
| Remove.Remove | include/determin_skip_list.h:243-338 | an empty list answers false. In every case the class invariant holds afterwards, and the answer is true iff v was an element. Every other element stays and v is gone. The height drops by one exactly when v was the only element of a list of height one, or when the level under the head held one key besides `Max` over a level of four nodes; otherwise it is unchanged |
| Validity.GapSize | include/determin_skip_list.h:350-355 | counting from the down target until the key repeats yields the gap under the node |
| Validity.IsValid | include/determin_skip_list.h:340-363 | on a sorted, nested list the answer is true iff every gap on every level above the lowest one holds one to three nodes |
| Balance.LevelDoubles | include/determin_skip_list.h:340-363 | a level whose every gap holds at least one node has at least twice as many nodes as the level above it |
| Balance.LevelsGrow | include/determin_skip_list.h:340-363 | in a list obeying the class invariant, level i, counting the head level as level 0, has at least 2^i nodes |
| Balance.HeightBound | include/determin_skip_list.h:340-363 | in a list obeying the class invariant, 2^height is at most one more than the number of elements, so the height is logarithmic in the element count |

## Left out

- `Clear`, `ClearHelp` and the destructor are left out. `Clear` frees every node on every level and leaves `head`, `bottom` and `tail` NULL, so the list holds no keys and cannot be used until it is set up again. The destructor calls `Clear`. The model has no memory to free and no state after destruction. `Print` is left out because it only prints.
- The demo program `src/main.cpp` and `include/utility.h` are left out. They are console I/O around the list.
- Allocation and deallocation are left out, and so is the failure of `new`. Nodes have no identity in the model. A node is a position on a level.
- The `visit_num == 1` branch copies the right neighbour's key into v's node and deletes the neighbour. The model deletes v's key from the lowest level directly. The two give the same keys. No down link points at the neighbour. A down link that pointed at v's node now reaches the node holding the neighbour's key, which is the node `Layout.Down` designates after the deletion.
- The key type is `int`, not a template parameter with `<`, `>` and `==`. `Max` and `Max_1` are parameters with `max < max1`.
- Every operation requires the key to be below `max`. The class comment makes that the client's duty.
- `Insert` sets `bottom->key` to the value, so that the split on the lowest level reads the value through `current->down->right`. The model splits the lowest level directly with the value.
- `SearchHelp` has a `return NULL` after its loop. The loop always returns from the lowest level first, so the model has no NULL result.
- Layout.LowerHead: its own contract restates the test on `head->down->right`. What it achieves is stated by `Remove.LowerHeadRestores`.
- Validity.IsValid: requires the levels to be sorted and nested. On other inputs the source's inner loop may never find the repeated key and runs off the level, which a terminating model cannot express.
- Insert.InsertDescend: states only that `max`, `max1` and the number of levels are kept. Its result is described by `Insert.InsertDescendKeepsRule` and `Insert.InsertDescendLowest`.
- Insert.PlaceLowest: states only that `max`, `max1` and the number of levels are kept. Its result is described by `Insert.InsertLowestPlaces` and `Insert.InsertLowestKeepsRule`.
- Remove.RemoveDescend: states only that `max` and `max1` are kept. Its result is described by `Remove.RemoveDescendKeeps`.
- Fixes.BorrowNext: carries no contract of its own. Its result is described by `Fixes.BorrowNextGaps` and `Fixes.FixNext`.
- Fixes.MergeNext: carries no contract of its own. Its result is described by `Fixes.MergeNextGaps` and `Fixes.FixNext`.
- Fixes.BorrowPrev: carries no contract of its own. Its result is described by `Fixes.BorrowPrevKey`, `Fixes.BorrowPrevGaps` and `Fixes.FixPrev`.
- Fixes.MergePrev: carries no contract of its own. Its result is described by `Fixes.MergePrevGaps` and `Fixes.FixPrev`.
- Fixes.FixLevel: carries no contract of its own. Which repair it runs is stated by `Fixes.FixNone`, `Fixes.FixNext` and `Fixes.FixPrev`, and what the repair achieves by `Fixes.FixLevelWidens` and `Fixes.FixLevelNarrows`.
- Remove.RemoveTall: states only that `max` and `max1` are kept. Its result is described by `Remove.TallHasPrevious`, `Remove.TallIsRenamed` and `Remove.TallKeeps`.
