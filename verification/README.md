# RleCollection, the cell range joiner and the interview exercises, in Dafny

This project models three parts of a C# code-samples repository and proves properties of the models.

**`RleCollection<T>` and `UndoableRleCollection<T>`.** This is the main part. The collection is a
fixed-length sequence of values stored as a list of runs `{Value, StartIndex, EndIndex}`.
- **State and invariants.** The model keeps the run list as `seq<Run<T>>` and the content as
  `Flatten(runs)`. `WellFormed` says the runs tile `[0, Length - 1]` in order. `Valid` adds that no two
  neighbouring runs hold the same value.
- **Operations.** Every public operation is a pure function on a `Collection` record:
  - the checks, the constructor and the getter and setter;
  - `GetRange` and both `SetRange` forms;
  - all three `Insert` forms and both `Remove` forms;
  - both `Count` forms, the value enumerator and the index enumerators.
- **Contracts.** Each operation validates first, then returns a `Result`. A rejected call yields the
  exception kind the C# code throws. An accepted call states:
  - the new content, as a function of the old content;
  - that the run invariant is kept.
- **Run internals.** The internals that edit the run list are modelled as their own functions, each
  with a lemma that ties its runs to the content:
  - `GetItemIndex`, using the MRU hint or binary search;
  - the four cases of `SetValue` and the two merges;
  - `CutIndexRange`, `InsertIndexRange`, `SetRangeCore` and `InsertRangeCore`.
- **History items.** The six history items of the undoable wrapper form the `Command` datatype.
  `Redo` and `Undo` are functions of the collection, and undo-after-redo and redo-after-undo are proved
  for every kind of item.

**The cell range joiner.** The joiner is modelled with these parts:
- a boolean grid, indexed row-major;
- `CellRect` and its comparison;
- the scanner, which cuts every row (or column) into maximal runs of set cells;
- the joiner, which merges runs of equal extent on successive lines and keeps the smaller of the two
  joins, sorted. The row join and the column join are one definition, `Merging.Joined`, read in a
  `Direction`: by rows a line is a row and a run starts at its left edge; by columns a line is a column
  and a run starts at its top edge.

The scans and joins are loops in the C# code. Each is a method here, proved equal to a function of the
grid (`Scanning.LineSpans`, `Directions.Scan`, `Merging.Joined`), so `Joiner.Join` can say which join it
returns.

**The interview exercises.** The model covers:
- both binary-search-tree checks;
- the 0/1 partition;
- linked-list reversal and removal of the last occurrence;
- the list-based queue and stack.

The object heap of the linked-list exercises is an explicit map from addresses to nodes. A list is
described by the sequence of addresses its `Next` chain visits.

## Model

| member | source | states |
|---|---|---|
| Store.CheckIndex | RleCollection/RleCollection.cs:50-53 | passes exactly for 0 <= index < Length, otherwise IndexOutOfRange |
| Store.CheckRangeIndexes | RleCollection/RleCollection.cs:60-65 | passes exactly for 0 <= start <= end < Length; either end out of range gives IndexOutOfRange, a reversed window with both ends in range gives Argument |
| Store.CheckIndexAndCount | RleCollection/RleCollection.cs:67-72 | passes exactly for count >= 1, index >= 0 and index + count <= Length; a count below 1 is refused first, then an index out of range, then a window past the end |
| Store.CheckIndexAndCountAsWritten | RleCollection/RleCollection.cs:67-72 | with the sum index + count wrapped to 32 bits: on 32-bit arguments it passes exactly for a valid count and index whose window fits or overflows int.MaxValue; without overflow it agrees with CheckIndexAndCount |
| Store.AsWrittenPassesOverflowingCount | RleCollection/RleCollection.cs:70 | on ten values, index 1 with count int.MaxValue passes the check as written and is refused by the corrected check |
| Store.New | RleCollection/RleCollection.cs:209-221 | a length below 1 is refused; otherwise the collection is valid and holds Length copies of the default value |
| Store.ItemIndex | RleCollection/RleCollection.cs:415-423 | the run it picks holds the index, whatever the MRU hint |
| Store.Get | RleCollection/RleCollection.cs:224-238 | succeeds exactly for an index in range whose value may be handed out (immutable values, null, or cloneable), returning the content at that index; an uncloneable value gives InvalidOperation |
| Store.SetItem | RleCollection/RleCollection.cs:239-242 | an index out of range is refused; otherwise exactly that index changes to the new value, the runs stay valid, and setting the value already there leaves the collection as it was |
| Store.GetRange | RleCollection/RleCollection.cs:258-273 | the check's error, or a collection of length end - start + 1 holding content[start..end], valid when the source is |
| Store.SetRangeValue | RleCollection/RleCollection.cs:275-280 | the window [start, end] holds the value throughout, nothing else changes, validity is kept |
| Store.SetRange | RleCollection/RleCollection.cs:282-290 | a null range gives ArgumentNull; a window past the end gives the check's error; otherwise the window holds the range's converted values and nothing else changes; validity is kept when the converter keeps the range's neighbouring runs distinct |
| Store.InsertOne | RleCollection/RleCollection.cs:294-296 | an index outside the collection gives IndexOutOfRange; otherwise one value goes in at the index, the rest shifts forward and the last value falls off; the length and the immutability flag stay, and a compressed collection stays compressed |
| Store.Insert | RleCollection/RleCollection.cs:298-303 | content becomes (content[..index] + block + content[index..])[..Length] with the block count copies of the value; validity is kept |
| Store.InsertRange | RleCollection/RleCollection.cs:305-313 | the same shift with the range's converted values as the block; null range and bad windows are refused as the checks say |
| Store.RemoveOne | RleCollection/RleCollection.cs:317-319 | an index outside the collection gives IndexOutOfRange; otherwise one value comes out at the index, the tail repeating the old last value; the length and the immutability flag stay, and a compressed collection stays compressed |
| Store.Remove | RleCollection/RleCollection.cs:321-337 | content becomes content[..index] + content[index + count..] followed by count copies of the old last value; validity is kept |
| Lookup.Compare | RleCollection/RleCollection.cs:93-99 | zero exactly when the run holds the index, positive when the index lies before the run, negative when after |
| Lookup.SearchFinds | RleCollection/RleCollection.cs:421 | on a run list that tiles a range, the binary search returns the one run holding the index |
| Lookup.LocateIgnoresHint | RleCollection/RleCollection.cs:415-423 | the MRU hit and the binary-search fallback give the same run |
| Lookup.LocateValue | RleCollection/RleCollection.cs:425-430 | the located run's value is the content at the index |
| PointSet.MergeWithPrevious | RleCollection/RleCollection.cs:394-403 | merges exactly when there is a previous run with the same value; the result is the two halves joined at that boundary |
| PointSet.MergeWithNext | RleCollection/RleCollection.cs:405-413 | merges exactly when there is a next run with the same value; otherwise the runs are unchanged |
| PointSet.MiddleBlock | RleCollection/RleCollection.cs:367-391 | the four cases of the point set (one-cell run, at the start, at the end, inside) replace the run by runs holding its old value with the index changed |
| PointSet.SetValueSpec | RleCollection/RleCollection.cs:361-392 | the runs still tile the range, the content changes at exactly the index, compression is kept, and an equal value leaves the runs untouched |
| RunAlgebra.JoinChain | RleCollection/RleCollection.cs:394-413 | joining two tilings at their common boundary, merging equal neighbours, tiles the union and flattens to the concatenation |
| RunAlgebra.JoinCompressed | RleCollection/RleCollection.cs:394-413 | joining two compressed lists with a merge at the seam gives a compressed list |
| Cutting.CutSpec | RleCollection/RleCollection.cs:459-495 | CutIndexRange leaves the runs before start, trimmed, followed by the runs after end, trimmed, and returns the insertion position |
| Cutting.CutHalves | RleCollection/RleCollection.cs:459-495 | the two halves left by the cut tile [0, start - 1] and [end + 1, Length - 1] and flatten to the content outside the window |
| Cutting.OpenGapShape | RleCollection/RleCollection.cs:517-534 | InsertIndexRange splits the run at the index and shifts the tail forward by count, dropping or clipping what passes the end |
| RunAlgebra.ShiftTailSpec | RleCollection/RleCollection.cs:526-533 | the shifted tail tiles [lo + count, Length - 1] and flattens to the old tail's content cut short by count, so what passes the end is lost |
| RangeOps.SetRangeCoreSpec | RleCollection/RleCollection.cs:439-457 | the runs tile [0, Length - 1] and flatten to the content overwritten from start by the converted block; compressed when the block stays distinct under the converter |
| RangeOps.InsertRangeCoreSpec | RleCollection/RleCollection.cs:497-515 | the runs tile [0, Length - 1] and flatten to the content with the converted block inserted and the overflow dropped |
| RangeOps.RemoveRunsSpec | RleCollection/RleCollection.cs:321-337 | the run edit of Remove tiles the range, flattens to the shifted content with the old last value repeated, and keeps compression |
| RangeOps.RefillSpec | RleCollection/RleCollection.cs:324-335 | the shifted tail extended to Length - 1 (or a new run of the last value) flattens to the rest of the content followed by count copies of the last value |
| RangeOps.WindowRunsSpec | RleCollection/RleCollection.cs:262-271 | the copied runs, clipped to the window and moved to start at 0, tile the window and flatten to its content |
| Enumeration.CountWhere | RleCollection/RleCollection.cs:350-357 | the sum of run lengths whose value matches is the number of matching indices |
| Enumeration.Count | RleCollection/RleCollection.cs:341-348 | the number of indices holding the value, at most Length |
| Enumeration.Values | RleCollection/RleCollection.cs:539-544 | the value enumerator yields exactly the content |
| Enumeration.MoveNextForward | RleCollection/RleCollection.cs:180-191 | finds the next matching index after the current one, skipping whole runs, or reports that none is left before the end |
| Enumeration.MoveNextBackward | RleCollection/RleCollection.cs:168-179 | the same walking down to the end index |
| Enumeration.IndexWalk | RleCollection/RleCollection.cs:564-590 | both bounds are checked eagerly (IndexOutOfRange); the walk yields exactly the matching indices between them, ascending when start <= end and descending otherwise |
| Enumeration.IndexWalkAll | RleCollection/RleCollection.cs:574-578 | over the whole collection: exactly the matching indices, in ascending or, reversed, descending order |
| Enumeration.ValueIndexWalk | RleCollection/RleCollection.cs:556-572 | with a value: exactly the indices between the bounds holding that value |
| Sequences.InsertUndone | RleCollection/RleCollection.cs:827-835 | on sequences: removing an inserted block and writing back the saved tail restores the content |
| Sequences.RemoveUndone | RleCollection/RleCollection.cs:880-888 | on sequences: inserting the saved window back at the index restores the content |
| Sequences.OverwriteUndone | RleCollection/RleCollection.cs:773-781 | on sequences: writing the saved window back over an overwrite restores the content |
| History.RedoSetValue | RleCollection/RleCollection.cs:751-754 | saves the old value through the getter and sets the new one |
| History.RedoSetRangeValue | RleCollection/RleCollection.cs:778-781 | saves the window, then fills it with the value |
| History.RedoSetRange | RleCollection/RleCollection.cs:805-808 | saves the window the range covers, then writes the converted range |
| History.RedoInsertValue | RleCollection/RleCollection.cs:832-835 | saves the last count values, then inserts |
| History.RedoInsertRange | RleCollection/RleCollection.cs:860-863 | saves the last values the range's length will push out, then inserts the converted range |
| History.RedoRemove | RleCollection/RleCollection.cs:885-888 | saves the removed window, then removes |
| History.UndoSetValue | RleCollection/RleCollection.cs:747-749 | writes the saved value back at the index |
| History.UndoSetRange | RleCollection/RleCollection.cs:773-776 | writes the saved window back at the start |
| History.UndoInsert | RleCollection/RleCollection.cs:827-831 | removes the inserted count and writes the saved values over the tail |
| History.UndoRemove | RleCollection/RleCollection.cs:880-883 | inserts the saved window back at the index |
| History.Execute | RleCollection/RleCollection.cs:610-688 | a wrapper mutator whose check fails reports the check's error; otherwise it runs the item's redo, which cannot then fail except through the point getter |
| History.SetValueRestored | RleCollection/RleCollection.cs:747-754 | undo after redo of a point set restores the content |
| History.SetRangeValueRestored | RleCollection/RleCollection.cs:773-781 | undo after redo of a scalar range set restores the content |
| History.SetRangeRestored | RleCollection/RleCollection.cs:800-808 | undo after redo of a range set restores the content |
| History.InsertValueRestored | RleCollection/RleCollection.cs:827-835 | undo after redo of a value insert restores the content |
| History.InsertRangeRestored | RleCollection/RleCollection.cs:854-863 | undo after redo of a range insert restores the content |
| History.RemoveRestored | RleCollection/RleCollection.cs:880-888 | undo after redo of a remove restores the content |
| History.UndoAfterRedo | RleCollection/RleCollection.cs:734-889 | for every kind of item, undo after a successful redo succeeds and restores the content |
| History.RedoAfterUndo | RleCollection/RleCollection.cs:734-889 | for every kind of item, redo after undo succeeds and gives the content the first redo gave |
| Grid.AllocatedCells | CellRangeJoiner/CellArray.cs:14 | the unchecked 32-bit product width * height, the grid's size whenever it fits in an int |
| Grid.AsWrittenShortArray | CellRangeJoiner/CellArray.cs:14-23 | a 65536 by 65537 grid as written gets 65536 cells, while cell (0, 1) passes the coordinate check at offset 65536; the modelled grid holds that cell |
| Grid.New | CellRangeJoiner/CellArray.cs:7-15 | width or height below 1 gives Argument; otherwise a grid of that size with every cell clear |
| Grid.CheckIndex | CellRangeJoiner/CellArray.cs:42-47 | x out of range is reported first, then y |
| Grid.OffsetInjective | CellRangeJoiner/CellArray.cs:23 | x + y * Width names each in-grid cell by a different offset |
| Grid.Get | CellRangeJoiner/CellArray.cs:21-24 | a cell outside the grid gives ArgumentOutOfRange; otherwise its value |
| Grid.Set | CellRangeJoiner/CellArray.cs:26-29 | a cell outside the grid gives ArgumentOutOfRange; otherwise Get then returns the new value and no other cell changes |
| Grid.SetRect | CellRangeJoiner/CellArray.cs:31-40 | only the two corners are checked; exactly the cells with left <= x <= right and top <= y <= bottom are set, so reversed bounds set nothing |
| Rects.Empty | CellRangeJoiner/CellRect.cs:5-10 | the default rectangle has all four coordinates zero |
| Rects.ProperSize | CellRangeJoiner/CellRect.cs:24-26 | Width and Height are at least 1 on a rectangle with left <= right and top <= bottom, and span exactly its cells |
| Rects.CompareTo | CellRangeJoiner/CellRect.cs:28-35 | null compares as -1; otherwise negative exactly when (left, top) comes first and zero exactly when left and top agree, right and bottom ignored |
| Rects.CompareAntisymmetric | CellRangeJoiner/CellRect.cs:28-35 | swapping the operands negates the comparison |
| Rects.CompareTransitive | CellRangeJoiner/CellRect.cs:28-35 | the comparison is transitive, so it can order a sort |
| Rects.DisjointDistinctKeys | CellRangeJoiner/CellRect.cs:28-35 | two disjoint non-empty rectangles never compare equal |
| Scanning.ScanLine | CellRangeJoiner/Scanner.cs:10-26 | the flag loop gives the walk LineSpans, and its spans are maximal runs of set cells, left to right with a gap between, covering every set cell |
| Scanning.ScanByRows | CellRangeJoiner/Scanner.cs:6-28 | the runs are RowsScanned, the row-by-row walk; every rectangle is a maximal one-row run of set cells, in order of row then column with gaps, and every set cell is covered |
| Scanning.ScanByColumns | CellRangeJoiner/Scanner.cs:30-52 | the transpose: the runs are ColumnsScanned, maximal one-column runs in order of column then row, covering every set cell |
| Buckets.Bucket | CellRangeJoiner/Joiner.cs:21-28 | the bucket for a start (a left edge when joining rows, a top edge when joining columns) holds exactly the runs with that start, and the rest exactly the others |
| Buckets.BucketSplit | CellRangeJoiner/Joiner.cs:21-28 | the bucket and the rest together are as long as the run list, so the buckets share the runs out without duplicates |
| Merging.MergeBucket | CellRangeJoiner/Joiner.cs:30-38 | the merge loop over one bucket (lines 55-63 are the same loop by columns) gives MergeRuns; its blocks keep the bucket's start, are stacked and cover the bucket's cells, and none continues another (same end, next line), so nothing mergeable is left |
| Merging.SettledWhenStacked | CellRangeJoiner/Joiner.cs:31-38 | when no block of a stacked bucket continues the one before it, no block continues any other |
| Merging.JoinBy | CellRangeJoiner/Joiner.cs:19-67 | in either direction: the scan's runs (maximal one-line runs in scanner order covering every set cell) and their join, which equals Joined; no more rectangles than runs, each a block, pairwise disjoint, covering exactly the set cells, and none continuing another with the same start |
| Joiner.Sort | CellRangeJoiner/Joiner.cs:15 | the sorted list is a permutation of its input, ordered by (left, top) |
| Joiner.SortedStrictly | CellRangeJoiner/Joiner.cs:15 | a sort of disjoint non-empty rectangles is strictly increasing in (left, top) |
| Joiner.Join | CellRangeJoiner/Joiner.cs:9-17 | the row join when it has fewer than two rectangles; otherwise Sort of the column join when it has strictly fewer rectangles, else of the row join; never more rectangles than either join; either way disjoint blocks, strictly sorted, covering exactly the set cells |
| Unchecked.Wrap | Interviews/IsBinarySearchTree.cs:25 | C#'s unchecked 32-bit result: in range, the identity inside the range, one period added or taken off just outside it |
| BinarySearchTree.ExactWithin | Interviews/IsBinarySearchTree.cs:20-26 | with exact bounds, the range check holds exactly for a search tree whose values lie in the range |
| BinarySearchTree.ExactIsBST | Interviews/IsBinarySearchTree.cs:14-26 | with exact bounds, IsBST accepts exactly the binary search trees (strict on both sides, so duplicates fail), the empty tree included |
| BinarySearchTree.AgreeWithoutExtremes | Interviews/IsBinarySearchTree.cs:25 | on trees without int.MinValue and int.MaxValue, the wrapped and the exact bounds give the same answer |
| BinarySearchTree.AsWrittenWithoutExtremes | Interviews/IsBinarySearchTree.cs:14-26 | the code as written is right on every tree that avoids the two extreme values |
| BinarySearchTree.AsWrittenAcceptsLeftAboveMin | Interviews/IsBinarySearchTree.cs:17-25 | as written, a root int.MinValue with left child 5 is accepted though it is not a search tree |
| BinarySearchTree.Replaced | Interviews/IsBinarySearchTree.cs:48-54 | replacing a popped in-range check by its children's checks keeps the conjunction of pending checks and shrinks the pending work |
| BinarySearchTree.IterativeIsBST | Interviews/IsBinarySearchTree.cs:42-57 | the stack-based solver terminates and returns the recursive solver's answer, under either arithmetic |
| Order01.Order | Interviews/Order01.cs:17-28 | the first (number of zeros) cells become 0, every later zero becomes 1, other values stay; on zeros and ones the result is sorted and a permutation of the input |
| Order01.SortedBits | Interviews/Order01.cs:1-2 | on zeros and ones that arrangement is sorted and holds the same multiset of values |
| Order01.ZerosCount | Interviews/Order01.cs:18-21 | the running zero count is the multiplicity of 0 |
| ReverseList.Reverse | Interviews/ReverseList.cs:25-34 | a null list gives null; the result visits the same nodes back to front and so the values in reverse; no node is added or dropped and nodes off the list are untouched |
| ReverseList.TurnOne | Interviews/ReverseList.cs:28-31 | one turn of the loop moves the current node from the rest onto the reversed prefix |
| RemoveLast.RemoveLast | Interviews/RemoveLast.cs:22-39 | null gives null; without the value nothing changes; otherwise the list and its values lose exactly the last occurrence (the head's successor is returned when that is the head); only the predecessor's Next is written |
| RemoveLast.FindPrecedingLast | Interviews/RemoveLast.cs:25-33 | the loop ends with the predecessor of the last node holding the value, null when that node is the head or absent |
| RemoveLast.Bypass | Interviews/RemoveLast.cs:34-35 | re-pointing the predecessor past the node removes that node and its value and nothing else |
| RemoveLast.HeadRemoved | Interviews/RemoveLast.cs:36-37 | returning the head's successor drops the head and its value |
| ListBasedQueue.Empty | Interviews/ListBasedQueue.cs:12-13 | a new queue holds nothing |
| ListBasedQueue.QueueEnds | Interviews/ListBasedQueue.cs:20-26 | head is null exactly when tail is, and the tail node links to null |
| ListBasedQueue.IsEmpty | Interviews/ListBasedQueue.cs:15 | true exactly when the queue holds no value |
| ListBasedQueue.Enqueue | Interviews/ListBasedQueue.cs:17-28 | the contents become the old contents followed by the value, at a fresh node; of the old nodes only the tail's Next changes |
| ListBasedQueue.Dequeue | Interviews/ListBasedQueue.cs:30-38 | an empty queue gives InvalidOperation; otherwise the front value comes back and the rest remains in order |
| ListBasedQueue.DequeueAfterEnqueue | Interviews/ListBasedQueue.cs:17-38 | first in, first out |
| ListBasedStack.Empty | Interviews/ListBasedStack.cs:12 | a new stack holds nothing |
| ListBasedStack.IsEmpty | Interviews/ListBasedStack.cs:14 | true exactly when the stack holds no value |
| ListBasedStack.Push | Interviews/ListBasedStack.cs:16-21 | the value goes on top at a fresh node; the old nodes are untouched |
| ListBasedStack.Pop | Interviews/ListBasedStack.cs:23-29 | an empty stack gives InvalidOperation; otherwise the top value comes back and the rest remains in order |
| ListBasedStack.PopAfterPush | Interviews/ListBasedStack.cs:16-29 | last in, first out: a pop right after a push returns the pushed value and the earlier contents |

## Left out

- The MRU cursor after a mutation is not tracked. Every operation's result is proved for any value of the
  cursor, and the cursor is kept as it was, since it only speeds up lookups.
- `Algorithms.BinarySearch` is not part of this model. It is modelled as a binary search over the run
  list that returns the run holding the index.
- `Guard.ArgumentPositive` and `Guard.ArgumentNotNull` are not part of this model. The first is taken to
  refuse values below 1 (error `NotPositive`); the second raises `ArgumentNull`.
- The document history is not part of this model: `DocumentHistory`, `HistoryItem`, `History.Add` and the
  undo stack. The items are a `Command` datatype with `Redo` and `Undo` functions. The wrapper adds an
  item to the history before running it, so a failing point set can leave an item behind; nothing here
  claims the history is untouched on error.
- Value identity is not modelled. This covers reflection on `ImmutableValues` at construction (it is a
  flag), cloning on read (a clone stands for an equal value) and reference sharing of values and of
  the ranges passed in. `AreEqual` is Dafny equality.
- Converters are pure functions `T -> T`.
- Store.SetRange and Store.InsertRange: with a converter, the C# code merges equal runs only at the two ends of the
  written window, so the run list stays compressed only when the converted range keeps neighbouring runs distinct
  (`DistinctUnder`). The contracts claim compression under that condition and the content always.
- Enumeration.ValueIndexWalk: states which indices are yielded, not their order. The order is the one proved for
  Enumeration.IndexWalk, which the value form calls with an equality predicate.
- History.UndoInsert: with no saved snapshot, the C# undo runs `Remove` first and only then throws
  `ArgumentNull` from `SetRange`, so the collection is left with the block removed. The model reports the
  error alone, with no new state. This path cannot follow a redo, which always saves a snapshot
  (`History.UndoAfterRedo` proves that undo succeeds). The function has no precondition excluding it.
- History.Execute: the point setter of the wrapper does not check its index before registering the
  item; the model reports the getter's or setter's error from the redo instead.
- C# `int` overflow is modelled in three places, each listed under "Findings": the bounds in `IsBST`,
  the sum `index + count` in `CheckIndexAndCount` (RleCollection/RleCollection.cs:70) and the product
  `width * height` in the grid's constructor (CellRangeJoiner/CellArray.cs:14). The rest of the model,
  including the operations that use those two checks, works on mathematical integers, which is the
  code's behaviour whenever neither overflows.
- Joiner buckets come out of a `Dictionary`, whose enumeration order is not specified. They are taken
  in first-appearance order, which is what `Merging.Joined` states; `Joiner.Join` sorts the chosen join
  by distinct keys, so its result does not depend on that order.
- Console output, `Main`, `Print` and the `Stopwatch` timing program are left out as I/O.
- Garbage nodes are not modelled. In the linked-list exercises a node unlinked by `RemoveLast` stays in
  the heap map, and nothing is ever freed.
- Order01.Order: the contract is stated for any integers, and sortedness and the permutation property
  are claimed only for zeros and ones, the input the procedure is written for. On other values the
  overwrite of position `lastZeroPosition` loses them, as the code does.

## Findings

| source | as written | input that shows it | evidently intended | confidence | as-written member | corrected member |
|---|---|---|---|---|---|---|
| Interviews/IsBinarySearchTree.cs:25 | the left child's upper bound is `node.Value - 1` and the right child's lower bound `node.Value + 1`, both in unchecked 32-bit arithmetic, so they wrap at `int.MinValue` and `int.MaxValue` | a root holding `int.MinValue` with left child 5: the bound wraps to `int.MaxValue` and the tree is accepted; the iterative solver (lines 52 and 54) does the same | a left subtree of a node holding `int.MinValue` must be empty (and a right subtree of `int.MaxValue`), so such trees are rejected | not executed | BinarySearchTree.AsWrittenAcceptsLeftAboveMin | BinarySearchTree.ExactIsBST |
| RleCollection/RleCollection.cs:70 | `index + count` is compared with `Length` as an unchecked 32-bit sum | on a collection of ten values, `Remove(1, int.MaxValue)`: the sum wraps to `int.MinValue`, the check passes and the removal goes on | a window running past the end is refused with `ArgumentException` | not executed | Store.AsWrittenPassesOverflowingCount | Store.CheckIndexAndCount |
| CellRangeJoiner/CellArray.cs:14 | the cell array gets `width * height` elements, the product taken as an unchecked 32-bit product | `new CellArray(65536, 65537)` allocates 65536 cells, so `Get(0, 1)` passes the coordinate check and then throws `IndexOutOfRangeException` at offset 65536 | an array of exactly width × height cells | not executed | Grid.AsWrittenShortArray | Grid.New |
