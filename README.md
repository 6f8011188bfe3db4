# Advent of Code 2022, days 1 and 5, in Dafny

This project models two small Go puzzle solvers and proves properties of the models.

**Day 1 ("Calorie Counting").** The input lists the calories each elf carries, one number per line. A blank line separates the elves. `run` sums each elf's group. It then answers with the total of the three largest sums. To find them it pushes every negated sum into a generic slice-backed binary min-heap and pops three times. The heap uses the "hole" technique in both directions:

- `siftDown(i, j)` carries the item at `j` toward the root, stopping at `i`;
- `siftUp(index)` first sinks the item at `index` to a leaf along the smaller children, then calls `siftDown` to carry it back up.

The names are inverted with respect to the usual convention, and the model keeps them.

**Day 5 ("Supply Stacks").** The input is a drawing of crate stacks, a blank line, and lines `move N from A to B`.

- `parseCrates` reads the drawing bottom-up in four-character cells. It drops the last line, which numbers the stacks.
- `parseMoves` and `trimNumber` turn each move line into a 0-based `move`. They reject a move whose two stack numbers are equal.
- `applyMoves` carries the moves out in place, one crate at a time. A block of crates therefore lands in reverse order.
- `run` cuts the input at its first blank line and dispatches to these three.

The project has five modules:

- `Results` (`results.dfy`) holds `Option` and `Result`. They stand for Go's `(value, ok)` pairs, nil pointers and `error` returns.
- `GoStrings` (`go_strings.dfy`) defines the parts of Go's `strings` and `strconv` packages that the solvers use, each with its specification: `Index`, `Split`, `Cut`, `TrimPrefix`, `TrimSpace` and `Atoi`. It also defines `Itoa` and `Join`. The solvers never call these two; they exist only to state the round trips `AtoiItoa`, `ParseFormat` and `SplitJoin`.
- `MinHeap` (`min_heap.dfy`) gives the heap as a class `Heap`. Its field `values: seq<int>` is the backing slice. `Push`, `Pop`, `SiftDown` and `SiftUp` update the field in place with loops. Their meaning is proved about the functions `SiftedDown`, `Descended`, `SiftedUp`, `Pushed` and `Popped`: heap order, permutation, which positions the sift-down and sift-up write (`DescendedFrame`, `SiftedUpFrame`), and that draining a heap yields sorted output.
- `CalorieCounting` (`calorie_counting.dfy`) models `run` of day 1. `GroupCalories` is its inner loop and `PushGroups` its outer loop. `PopTopThree` holds the three pops. The sums are specified by `LinesSum`, `GroupSums` and `Sums`.
- `SupplyStacks` (`supply_stacks.dfy`) models all of day 5:
  - `TrimNumber` and `ParseMove` are pure functions.
  - `ParseMoves`, `ParseCrates` (with its inner loop `StackRow`) and `Run` are methods proved against the specification functions `MovesOf`, `Crates` and `Outcome`.
  - `ApplyMoves` updates an `array<seq<string>>` in place and is proved against `Replay`.

Go's runtime panics become preconditions. They are:

- an out-of-range stack in a move, or a source stack with too few crates;
- a drawing row too short for the last column.

## Model

| member | source | states |
|---|---|---|
| GoStrings.OccursAt | day5/supply_stacks.go:72 | definition: `sep` occurs in the text at a given position, the notion `strings.Index` searches for; characterized by `IndexSpec` |
| GoStrings.IndexFrom | day5/supply_stacks.go:72 | the search from `start` returns -1 or a position from `start` on where `sep` still fits; characterized by `IndexFromSpec` |
| GoStrings.Index | day5/supply_stacks.go:72 | `strings.Index` returns -1 or a position where `sep` fits; characterized by `IndexSpec` |
| GoStrings.IndexFromSpec | day5/supply_stacks.go:72 | the search from `start` returns an occurrence of `sep` with none between `start` and it, or -1 when there is none from `start` on |
| GoStrings.IndexSpec | day5/supply_stacks.go:72 | `strings.Index` returns the first occurrence of `sep`, and -1 exactly when `sep` does not occur |
| GoStrings.Split | day1/calorie_counting.go:2335 | `strings.Split` returns at least one piece |
| GoStrings.SplitJoin | day1/calorie_counting.go:2335-2337 | joining the pieces of `strings.Split` with the separator gives back the original text |
| GoStrings.SplitPiecesAreFree | day5/supply_stacks.go:47 | no piece produced by `strings.Split` contains the separator |
| GoStrings.SplitFirstPiece | day5/supply_stacks.go:47 | `strings.Split` gives one piece, the whole text, exactly when the separator never occurs; otherwise the first piece ends at the first occurrence and the other pieces are the split of the text after it |
| GoStrings.Join | day1/calorie_counting.go:2335 | definition of `strings.Join`, used only as the inverse of `strings.Split` (the source never calls it); characterized by `SplitJoin` |
| GoStrings.Cut | day5/supply_stacks.go:96-99 | when found, the input is before + sep + after and the cut is at the first occurrence of `sep` (none starts inside `before`); when not found, `before` is the input, `after` is empty and `sep` occurs nowhere |
| GoStrings.TrimPrefix | day5/supply_stacks.go:48 | definition of `strings.TrimPrefix`; characterized by `TrimPrefixSpec` and `TrimPrefixOf` |
| GoStrings.TrimPrefixSpec | day5/supply_stacks.go:48 | `strings.TrimPrefix` removes the prefix when the text starts with it, and leaves the text unchanged otherwise |
| GoStrings.TrimPrefixOf | day5/supply_stacks.go:53 | trimming `prefix` from `prefix + rest` leaves `rest` |
| GoStrings.IsSpace | day5/supply_stacks.go:36 | definition of `unicode.IsSpace`, the white space `strings.TrimSpace` removes; characterized by `TrimLeft`, `TrimRight` and `TrimSpaceEmpty` |
| GoStrings.AllSpace | day5/supply_stacks.go:36 | definition: every character is white space; characterized by `TrimSpaceEmpty` |
| GoStrings.TrimLeft | day5/supply_stacks.go:36 | the result is a suffix of the input, everything dropped is white space, and the result does not start with white space |
| GoStrings.TrimRight | day5/supply_stacks.go:36 | the result is a prefix of the input, everything dropped is white space, and the result does not end with white space |
| GoStrings.TrimSpace | day5/supply_stacks.go:36 | definition of `strings.TrimSpace` as `TrimLeft` then `TrimRight`; characterized by the contracts of those two and by `TrimSpaceEmpty` |
| GoStrings.TrimSpaceEmpty | day5/supply_stacks.go:36 | `strings.TrimSpace(s) == ""` exactly when every character of `s` is white space |
| GoStrings.IsDigit | day1/calorie_counting.go:2338 | definition of a decimal digit character for `strconv.Atoi`; characterized by `Atoi` |
| GoStrings.AllDigits | day1/calorie_counting.go:2338 | definition: every character is a decimal digit; characterized by `Atoi` and `NatDigits` |
| GoStrings.DigitsValue | day1/calorie_counting.go:2338 | definition of the value of a string of decimal digits; characterized by `NatDigits` and `AtoiItoa` |
| GoStrings.IsDecimal | day1/calorie_counting.go:2338 | definition of the syntax `strconv.Atoi` accepts, an optional sign and at least one digit; characterized by `Atoi` and `AtoiItoa` |
| GoStrings.Atoi | day1/calorie_counting.go:2338-2341 | `strconv.Atoi` succeeds exactly on an optional sign followed by at least one decimal digit; the sign of the value follows the sign of the text |
| GoStrings.NatDigits | day5/supply_stacks.go:76 | the decimal spelling of `n` is a non-empty digit string whose value is `n`; it builds the inverse of the `strconv.Atoi` call on this line, which the source itself never calls, so that the round trip can be stated |
| GoStrings.DigitChar | day5/supply_stacks.go:76 | the digit character of a value below ten is a digit whose value is that value; a part of `Itoa`, the inverse of `strconv.Atoi` |
| GoStrings.Itoa | day5/supply_stacks.go:76 | the spelling of a number is non-empty and has no space; it is the inverse of the `strconv.Atoi` call on this line, used only to state `AtoiItoa` and `ParseFormat` (the source never calls it) |
| GoStrings.AtoiItoa | day5/supply_stacks.go:76 | `strconv.Atoi` reads back what `strconv.Itoa` writes |
| MinHeap.Parent | day1/calorie_counting.go:2298 | the parent `(j-1)>>1` of a position lies before it |
| MinHeap.IsHeap | day1/calorie_counting.go:2266-2269 | definition of heap order on the backing slice: no parent is greater than its child; characterized by `RootIsMin` and kept by `PushedSpec`, `PoppedSpec`, `Heap.Push` and `Heap.Pop` |
| MinHeap.AncestorOrSelf | day1/calorie_counting.go:2297-2302 | definition: a position lies on the chain of `(j-1)>>1` steps from `j` toward the root; characterized by `RootIsAncestor` and `ChildAncestor`, used by `SiftedDownFrame` |
| MinHeap.HeapExcept | day1/calorie_counting.go:2272-2274 | definition: heap order holds except between one position and its parent, the state after push appends; part of `RiseReady` |
| MinHeap.Bridged | day1/calorie_counting.go:2300-2302 | definition: the parent of a position is no greater than that position's children, so moving the parent down keeps order; part of `RiseReady` and `SinkReady` |
| MinHeap.RiseReady | day1/calorie_counting.go:2295-2308 | definition of the state from which siftDown toward the root restores heap order; required by `SiftedDownRestoresHeap` and established by `DescendedReady` |
| MinHeap.SinkReady | day1/calorie_counting.go:2317-2326 | definition of the state the descent of siftUp keeps at the hole; required by `DescendedReady` and `SiftedUpRestoresHeap` |
| MinHeap.RootIsAncestor | day1/calorie_counting.go:2298 | following `(j-1)>>1` from any position reaches the root |
| MinHeap.ChildAncestor | day1/calorie_counting.go:2317-2325 | every descendant of a child is a descendant of its parent |
| MinHeap.RootIsMin | day1/calorie_counting.go:2287-2290 | in a heap, the root is no greater than any element |
| MinHeap.SiftedDown | day1/calorie_counting.go:2295-2308 | siftDown keeps the length of the slice; characterized by `SiftedDownMultiset`, `SiftedDownFrame`, `SiftedDownStopsAtEqual` and `SiftedDownRestoresHeap` |
| MinHeap.SiftedDownMultiset | day1/calorie_counting.go:2295-2308 | siftDown only rearranges: the result holds exactly what the slice with the item in the hole held |
| MinHeap.SiftedDownFrame | day1/calorie_counting.go:2295-2308 | siftDown(i, j) writes only positions on the parent chain from `j` up to `i` |
| MinHeap.SiftedDownStopsAtEqual | day1/calorie_counting.go:2300-2305 | an item whose parent is no greater than it stays where it is, so equal keys are never exchanged |
| MinHeap.SiftedDownRestoresHeap | day1/calorie_counting.go:2295-2308 | carrying the item from `j` up to the root of a heap whose only flaw is at `j` gives a heap |
| MinHeap.SmallerChild | day1/calorie_counting.go:2318-2323 | the chosen child is no greater than either child, and it is the right child when the two are equal |
| MinHeap.Descended | day1/calorie_counting.go:2315-2327 | the descent ends at a leaf below `index` and writes the item there |
| MinHeap.DescendedMultiset | day1/calorie_counting.go:2315-2327 | the descent only rearranges the slice with the item in the hole |
| MinHeap.DescendedFrame | day1/calorie_counting.go:2315-2327 | the descent writes only `index` and its descendants |
| MinHeap.DescendedReady | day1/calorie_counting.go:2315-2327 | after the descent, heap order fails at most between the leaf reached and its parent |
| MinHeap.SiftedUp | day1/calorie_counting.go:2312-2331 | siftUp keeps the length of the slice; characterized by `SiftedUpMultiset`, `SiftedUpFrame` and `SiftedUpRestoresHeap` |
| MinHeap.SiftedUpMultiset | day1/calorie_counting.go:2312-2331 | siftUp only rearranges the slice |
| MinHeap.SiftedUpFrame | day1/calorie_counting.go:2312-2331 | siftUp writes only `index` and its descendants |
| MinHeap.SiftedUpRestoresHeap | day1/calorie_counting.go:2312-2331 | siftUp(0) on a slice whose root alone is out of place gives a heap |
| MinHeap.Pushed | day1/calorie_counting.go:2272-2275 | definition of push on the slice: append, then siftDown from the new last position to the root; characterized by `PushedSpec` |
| MinHeap.PushedSpec | day1/calorie_counting.go:2272-2275 | push grows the slice by one, adds exactly `x`, and keeps heap order |
| MinHeap.Popped | day1/calorie_counting.go:2278-2291 | pop on an empty slice returns nothing and changes nothing; otherwise it returns the old first element and the slice shrinks by one |
| MinHeap.PoppedSpec | day1/calorie_counting.go:2282-2290 | pop removes exactly the old root, which under heap order is no greater than anything left, and it keeps heap order |
| MinHeap.Sorted | day1/calorie_counting.go:2346-2357 | definition of non-decreasing order, what successive pops return; characterized by `DrainedSorted` |
| MinHeap.ConsSorted | day1/calorie_counting.go:2346-2357 | a value no greater than every element of a sorted sequence can be put in front of it |
| MinHeap.Drained | day1/calorie_counting.go:2346-2357 | definition of the values popped one after another until the heap is empty; characterized by `DrainedSorted` |
| MinHeap.DrainedSorted | day1/calorie_counting.go:2346-2357 | popping a heap until it is empty returns its elements, and in non-decreasing order |
| MinHeap.Heap.constructor | day1/calorie_counting.go:2334 | a new heap is empty |
| MinHeap.Heap.Push | day1/calorie_counting.go:2272-2275 | push grows `values` by one, adds exactly `x` to its contents, and keeps heap order |
| MinHeap.Heap.Pop | day1/calorie_counting.go:2278-2291 | pop on an empty heap returns None and changes nothing; otherwise it returns the old `values[0]`, removes exactly it, keeps heap order, and leaves nothing smaller |
| MinHeap.Heap.SiftDown | day1/calorie_counting.go:2295-2308 | the loop leaves `values` as `SiftedDown` describes |
| MinHeap.Heap.SiftUp | day1/calorie_counting.go:2312-2331 | the loop and the call to siftDown leave `values` as `SiftedUp` describes |
| CalorieCounting.LinesSum | day1/calorie_counting.go:2336-2343 | definition of one group's sum, None at a line that is not an integer; characterized by `LinesSumDefined` and `GroupCalories` |
| CalorieCounting.GroupSums | day1/calorie_counting.go:2335-2345 | definition of the sums of all groups, in order; characterized by `GroupSumsSpec` and `PushGroups` |
| CalorieCounting.Sums | day1/calorie_counting.go:2335 | definition: the group sums of the input split at blank lines; characterized by `GroupSumsSpec` and `Run` |
| CalorieCounting.LinesSumDefined | day1/calorie_counting.go:2337-2343 | a group has a sum exactly when every one of its lines parses as an integer |
| CalorieCounting.GroupSumsSpec | day1/calorie_counting.go:2335-2345 | the groups have sums exactly when every group has one, and then there is one sum per group, in order |
| CalorieCounting.GroupSumsSnoc | day1/calorie_counting.go:2335-2345 | one more group with a sum appends that sum to the sums of the groups before it |
| CalorieCounting.GroupSumsStop | day1/calorie_counting.go:2338-2341 | a group with a line that is not a number leaves the whole input without sums, as the early return does |
| CalorieCounting.Negated | day1/calorie_counting.go:2344 | the negated sums, `-calories` as pushed into the heap, one per sum; characterized by `NegatedSnoc`, `NegatedCount` and `NegatedPermutation` |
| CalorieCounting.NegatedSnoc | day1/calorie_counting.go:2344 | negating a sequence extended by `x` appends `-x` |
| CalorieCounting.NegatedCount | day1/calorie_counting.go:2344 | a value occurs in the negated sums as often as its negation occurs in the sums |
| CalorieCounting.NegatedPermutation | day1/calorie_counting.go:2344 | a permutation of the negated sums is the negation of a permutation of the sums |
| CalorieCounting.NegatedPush | day1/calorie_counting.go:2344 | pushing `-calories` of one more group keeps the heap's contents equal to the negated sums |
| CalorieCounting.IsTopThree | day1/calorie_counting.go:2346-2358 | definition: three values taken out of the sums with multiplicity, none smaller than a sum that is left; established by `PoppedTopThree` and `Run` |
| CalorieCounting.PopStep | day1/calorie_counting.go:2346-2357 | definition of what one pop does to the contents: the root comes out and is no greater than anything left; established in `PopTopThree` from the contract of `Heap.Pop`, and used by `PoppedTopThree` |
| CalorieCounting.PopBound | day1/calorie_counting.go:2346-2357 | a bound on every element of the slice bounds every member of its contents |
| CalorieCounting.ThreePops | day1/calorie_counting.go:2346-2357 | three pops in a row take the three roots out, and no root is greater than anything left |
| CalorieCounting.NegatedBound | day1/calorie_counting.go:2358 | negation turns a lower bound into an upper bound |
| CalorieCounting.NegatedRemoval | day1/calorie_counting.go:2358 | taking three values out of the negated sums takes their negations out of the sums |
| CalorieCounting.PoppedTopThree | day1/calorie_counting.go:2346-2358 | the negations of the three popped values are three of the sums, and no other sum exceeds any of them |
| CalorieCounting.GroupCalories | day1/calorie_counting.go:2336-2343 | the inner loop returns the group's sum, or fails at a line that is not an integer |
| CalorieCounting.PushGroups | day1/calorie_counting.go:2335-2345 | the outer loop succeeds exactly when every group has a sum, and then the heap holds exactly the negated sums in heap order |
| CalorieCounting.PopTopThree | day1/calorie_counting.go:2346-2358 | with fewer than three sums, the error names the pop that found the heap empty; otherwise the result is the total of three sums that no other sum exceeds |
| CalorieCounting.Run | day1/calorie_counting.go:2333-2359 | run fails when a line is not an integer or when there are fewer than three groups; otherwise it returns the total of the three largest group sums |
| SupplyStacks.NoSpace | day5/supply_stacks.go:72-76 | definition: a word without a space, the text trimNumber reads a number from; used by `WordEndSpec`, `TrimNumberOf` and `ParseLine` |
| SupplyStacks.SpaceAt | day5/supply_stacks.go:72 | the one-character separator `" "` occurs exactly where the text has a space |
| SupplyStacks.WordEnd | day5/supply_stacks.go:72-75 | the end of the first word lies within the string |
| SupplyStacks.WordEndSpec | day5/supply_stacks.go:72-75 | the first word has no space, and it ends at a space or at the end of the string |
| SupplyStacks.TrimNumber | day5/supply_stacks.go:71-82 | every failure of trimNumber is a number error |
| SupplyStacks.TrimNumberSpec | day5/supply_stacks.go:71-82 | trimNumber succeeds exactly when the first word is a decimal integer; it then returns that integer and the rest of the string, which is empty or starts with a space |
| SupplyStacks.TrimNumberOf | day5/supply_stacks.go:71-82 | trimNumber of a space-free word followed by text that is empty or starts with a space returns that text and the word's value, or fails when the word is not a number |
| SupplyStacks.Field | day5/supply_stacks.go:48-49 | definition of one field of a move line: trim the tag if present, then trimNumber; characterized by `FieldOf` and `FieldWithoutTag` |
| SupplyStacks.ParseMove | day5/supply_stacks.go:48-52 | definition of the first stage of a move line (`move ` and the crate count); characterized by `ParseLine`, `ParseFormat`, `ParseWithoutMove` and `ParseMoveDistinct` |
| SupplyStacks.ParseFrom | day5/supply_stacks.go:53-57 | definition of the second stage (` from ` and the source stack); characterized by `ParseLine` and `FieldWithoutTag` |
| SupplyStacks.ParseTo | day5/supply_stacks.go:58-66 | definition of the last stage (` to `, the target stack, the same-stack check and the 0-based move); characterized by `ParseLine` and `ParseMoveDistinct` |
| SupplyStacks.ParseMoveOf | day5/supply_stacks.go:48-52 | once the `move ` field has given the crate count, the line parses as the rest does from ` from ` on |
| SupplyStacks.ParseFromOf | day5/supply_stacks.go:53-57 | once the ` from ` field has given the source stack, the rest parses as it does from ` to ` on |
| SupplyStacks.ParseToOf | day5/supply_stacks.go:58-66 | once the ` to ` field has given the target stack, the result is SameStack when the two stack numbers are equal and the 0-based move otherwise |
| SupplyStacks.FieldOf | day5/supply_stacks.go:48-49 | a tag followed by a word and the rest gives the word's value and the rest |
| SupplyStacks.FieldWithoutTag | day5/supply_stacks.go:53-59 | after a number the text is empty or starts with a space, so when ` from ` or ` to ` is missing there the next field reads an empty word and fails as a bad number |
| SupplyStacks.ParseWithoutMove | day5/supply_stacks.go:48-49 | a line without the leading `move ` that starts with a number parses exactly as the same line with `move ` in front |
| SupplyStacks.FormatMove | day5/supply_stacks.go:45-69 | definition of the text `move N from A to B` of a move, the inverse of parseMoves for one line; characterized by `ParseFormat` |
| SupplyStacks.ParseLine | day5/supply_stacks.go:47-66 | a line `move N from A to B` with numeric fields parses to move(N, A-1, B-1), or is rejected when A equals B |
| SupplyStacks.ParseFormat | day5/supply_stacks.go:47-66 | parsing the text of a move gives the move back, unless its two stacks are equal |
| SupplyStacks.Collect | day5/supply_stacks.go:50-66 | definition of the early returns of parseMoves: the values in order, or the first error; characterized by `CollectOk`, `CollectErr` and `CollectErrPrefix` |
| SupplyStacks.CollectOk | day5/supply_stacks.go:47-68 | collecting per-line results succeeds exactly when every line succeeds, and then keeps one value per line in order |
| SupplyStacks.FirstError | day5/supply_stacks.go:49-65 | definition: a line fails and every line before it succeeds; used by `CollectErr` |
| SupplyStacks.CollectErr | day5/supply_stacks.go:49-65 | a failed collection reports the error of the first failing line |
| SupplyStacks.CollectErrPrefix | day5/supply_stacks.go:49-65 | once a prefix has failed, later lines do not change the outcome |
| SupplyStacks.ParsedLines | day5/supply_stacks.go:47 | there is one parse result per line |
| SupplyStacks.MovesOf | day5/supply_stacks.go:45-69 | definition of parseMoves' result on a list of lines; characterized by `MovesOfSpec` and `ParseMoves` |
| SupplyStacks.MovesOfSpec | day5/supply_stacks.go:45-69 | parseMoves succeeds exactly when every line parses, with one move per line in line order; otherwise it reports the error of the first line that does not parse |
| SupplyStacks.ParseMoves | day5/supply_stacks.go:45-69 | the loop returns what `MovesOf` describes for the lines of the text |
| SupplyStacks.ParseMoveDistinct | day5/supply_stacks.go:63-65 | a line that parses never names the same stack twice |
| SupplyStacks.ParsedMovesDistinct | day5/supply_stacks.go:63-66 | no parsed move names the same stack twice |
| SupplyStacks.StackCount | day5/supply_stacks.go:21-25 | definition: `(len(first line)+1)/4` stacks; characterized by `Crates` |
| SupplyStacks.Cell | day5/supply_stacks.go:31-35 | definition of column `k` of a row: four characters from `4k`, cut short at the end of the row; characterized by `ColumnCrates` |
| SupplyStacks.IsCrate | day5/supply_stacks.go:36 | definition: a cell holds a crate when `strings.TrimSpace` of it is not empty, that is when it is not all white space; characterized through `TrimSpaceEmpty` |
| SupplyStacks.RowCrate | day5/supply_stacks.go:35-38 | definition of what one row adds to a stack: its cell when that holds a crate, nothing otherwise; characterized by `StackRow` |
| SupplyStacks.RowsFit | day5/supply_stacks.go:30-35 | definition of the no-panic condition of `line[p:q]`: every row reaches the start of the last column; required by `Crates`, `ParseCrates` and `StackRow` |
| SupplyStacks.Column | day5/supply_stacks.go:27-40 | definition of one stack from the rows, bottom row first, blank cells skipped; characterized by `ColumnBelow` and `ColumnCrates` |
| SupplyStacks.Rows | day5/supply_stacks.go:17-26 | definition: the lines of the drawing without the label line; characterized by `ParseCrates` |
| SupplyStacks.CrateRows | day5/supply_stacks.go:36-38 | definition of the number of rows whose cell in a column holds a crate; characterized by `ColumnCrates` |
| SupplyStacks.ColumnBelow | day5/supply_stacks.go:27-41 | a row below the others puts its crate at the bottom of the stack |
| SupplyStacks.ColumnCrates | day5/supply_stacks.go:30-40 | every crate of a stack is a non-blank cell of its column, and the stack has one crate per row whose cell is not blank |
| SupplyStacks.CratesFit | day5/supply_stacks.go:17-35 | definition of the no-panic condition of parseCrates on a drawing; required by `Crates` and `ParseCrates` |
| SupplyStacks.Crates | day5/supply_stacks.go:21-26 | the drawing gives `(len(first line)+1)/4` stacks |
| SupplyStacks.StackRow | day5/supply_stacks.go:29-40 | one row puts its crate, if any, on top of each stack and leaves the number of stacks alone |
| SupplyStacks.ParseCrates | day5/supply_stacks.go:16-43 | the loops return the stacks `Crates` describes: one per column, bottom crate first, blank cells skipped, and nothing from the label line |
| SupplyStacks.Reversed | day5/supply_stacks.go:86-90 | reversing keeps the length |
| SupplyStacks.ReversedSpec | day5/supply_stacks.go:86-90 | reversing keeps the crates and mirrors their positions |
| SupplyStacks.MoveOne | day5/supply_stacks.go:87-89 | definition of one crane step: the top crate of `from` is appended to `to`, then `from` is truncated; characterized by `BlockMove`, `SameStackMove` and `MovedKeepsCrates` |
| SupplyStacks.Moved | day5/supply_stacks.go:86-90 | definition of one move as `numCrates` crane steps, None where Go would panic; characterized by `MovedSome`, `BlockMove`, `SameStackMove` and `MovedKeepsCrates` |
| SupplyStacks.MovedSome | day5/supply_stacks.go:86-90 | a move can be carried out without a panic exactly when `numCrates` ≤ 0, or both stacks exist and the source holds at least `numCrates` crates; the number of stacks does not change |
| SupplyStacks.BlockMove | day5/supply_stacks.go:86-90 | between two different stacks, the source loses its top `numCrates` crates, the target gains them in reverse order, and no other stack changes |
| SupplyStacks.SameStackMove | day5/supply_stacks.go:86-90 | a move from a stack to itself only drops its top `numCrates` crates |
| SupplyStacks.Total | day5/supply_stacks.go:84-93 | definition of all the crates of all the stacks, as a multiset; kept by `MovedKeepsCrates`, `ReplayKeeps` and `OutcomeKeepsCrates` |
| SupplyStacks.TotalUpdate | day5/supply_stacks.go:88-89 | replacing one stack changes the crates overall by exactly that stack's crates |
| SupplyStacks.TotalTake | day5/supply_stacks.go:89 | lifting crates off the top of a stack removes exactly those crates from the total |
| SupplyStacks.TotalPut | day5/supply_stacks.go:88 | putting crates on a stack adds exactly those crates to the total |
| SupplyStacks.BlockKeepsCrates | day5/supply_stacks.go:86-90 | taking a block off one stack and putting it, reversed, on another stack keeps the total |
| SupplyStacks.MovedKeepsCrates | day5/supply_stacks.go:86-90 | a move between two different stacks neither loses nor creates crates |
| SupplyStacks.Replay | day5/supply_stacks.go:85-91 | definition of the moves carried out in order, None where Go would panic; characterized by `ReplayPrefix`, `ReplayKeeps` and `ApplyMoves` |
| SupplyStacks.ReplayPrefix | day5/supply_stacks.go:85-91 | if all the moves can be carried out, so can each first part of them |
| SupplyStacks.ReplayKeeps | day5/supply_stacks.go:85-92 | the moves keep the number of stacks, and when no move names one stack twice they keep every crate |
| SupplyStacks.ApplyMoves | day5/supply_stacks.go:84-93 | the nested loops leave the array holding the stacks `Replay` describes |
| SupplyStacks.RunFits | day5/supply_stacks.go:95-111 | definition of the no-panic condition of run: when the moves parse, the drawing can be read and every move finds its crates; required by `Outcome` and `Run` |
| SupplyStacks.MoveLines | day5/supply_stacks.go:96-100 | definition: the lines after the first blank line, which parseMoves reads; characterized by `OutcomeErrors` |
| SupplyStacks.Outcome | day5/supply_stacks.go:95-111 | definition of run's result: cut, parse the moves, parse the crates, apply the moves; characterized by `OutcomeErrors`, `OutcomeKeepsCrates` and `Run` |
| SupplyStacks.OutcomeErrors | day5/supply_stacks.go:95-103 | run fails when the input has no blank line; otherwise it succeeds exactly when every line of moves parses, and it reports the first line that does not |
| SupplyStacks.OutcomeKeepsCrates | day5/supply_stacks.go:95-111 | when run succeeds, the final stacks are as many as the drawing has and hold exactly its crates |
| SupplyStacks.Run | day5/supply_stacks.go:95-116 | run returns the result `Outcome` describes: the error it reports, or the stacks it logs |

## Left out

- Reading the puzzle input, `main`, `init` and the logging are left out, and so are the embedded input texts. Day 5's `Run` returns the final stacks that the Go code logs.
- Error message text is left out. Errors are datatype constructors:
  - `NotANumber` and `TooFewGroups(k)` for day 1, where `k` says which of the three pops found the heap empty;
  - `BadNumber`, `SameStack(a)` and `NoSeparator` for day 5.
- Go's 64-bit `int` is modelled as an unbounded integer. Overflow of the calorie sums and `strconv.Atoi`'s range error are not modelled.
- The heap is modelled over `int` only. The Go type is generic over `constraints.Ordered`, but `run` uses only `heap[int]`.
- Strings are sequences of characters, while Go slices bytes. The two differ only for non-ASCII input.
- `strings.Split`, `Cut`, `Index` and `TrimPrefix` are specified for the non-empty separators the solvers pass. `strings.TrimSpace` treats as white space the Unicode White_Space characters listed in `GoStrings.IsSpace`.
- Go's runtime panics are not modelled as behaviour. Instead:
  - `SupplyStacks.ParseCrates` requires `CratesFit`: every drawing row reaches the start of the last column, so that `line[p:q]` is valid.
  - `SupplyStacks.ApplyMoves` requires that `Replay` succeeds: every move names existing stacks and finds enough crates on its source.
  - `SupplyStacks.Run` requires `RunFits`, which combines the two.
- The `len(lines) == 0` branch of `parseCrates` is left out. It cannot run, because `strings.Split` returns at least one piece.
- `SupplyStacks.TrimNumber`: on failure, Go returns `""` and `0` next to the error. The model returns only the error, since no caller reads those two values.
- `MinHeap.SiftedDownRestoresHeap`: heap order is proved only for `siftDown(0, j)`. Push calls it that way, and siftUp's descent reaches the same case through `SiftedUpRestoresHeap` for index 0. Both callers pass an ancestor as `i`, and pop only uses `siftUp(0)`.
- `MinHeap.Heap.Push` and `MinHeap.Heap.Pop` state the contents, the length and heap order, not the exact arrangement. `Pushed` and `Popped` give that arrangement, and the method bodies are proved equal to them.
- `SupplyStacks.Run` reads the drawing into a sequence and copies it into the array that `ApplyMoves` updates in place. In Go the slice of stacks is shared instead. The stacks never share backing storage, so no aliasing is lost.
- `CalorieCounting.GroupCalories`, `CalorieCounting.PushGroups` and `CalorieCounting.PopTopThree` are the loops and the three pops of day 1's `run`, split into separate methods.
- `SupplyStacks.StackRow` is likewise the inner loop of `parseCrates`.

## Where the description and the code differ

- A move line need not literally start with `move `: `strings.TrimPrefix` leaves the text unchanged when the prefix is absent, so `N from A to B` parses like `move N from A to B` (`SupplyStacks.ParseWithoutMove`). The ` from ` and ` to ` words are not optional in the same way: after a number the text is empty or starts with a space, so the next field then reads an empty word and the line is rejected as a bad number (`SupplyStacks.FieldWithoutTag`).
- A move from a stack to itself is rejected only after all three numbers have been read. `parseMoves` (`day5/supply_stacks.go:63-65`) compares the 1-based numbers. `SameStack` carries the 1-based stack number.
- `applyMoves` would drop crates on a move from a stack to itself (`SupplyStacks.SameStackMove`). `parseMoves` never produces such a move (`SupplyStacks.ParsedMovesDistinct`), so `run` keeps every crate (`SupplyStacks.OutcomeKeepsCrates`).
