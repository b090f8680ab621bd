# slicetricks in Dafny

This project models the Go package `slicetricks`. The package holds generic
helpers that work on Go slices in place, following the "SliceTricks" wiki page:

- removal: `Cut`, `Delete`, `DeleteUnordered`, `Pop`, `PopFront`;
- insertion: `Expand`, `Extend`, `Insert`, `InsertMany`, `Push`, `PushFront`;
- in-place compaction: `Filter`, `FilterZeroAllocNoGC`, `FilterZeroAlloc`;
- reversal in place: `Reverse`;
- partitioning: `Batches`, `SlidingWindow`;
- sorting, then removing adjacent duplicates: `SortAndDeduplicate`;
- a fresh duplicate: `Copy`.

The model is imperative, like the Go code:

- A Go slice `[]T` is the class `GoSlices.Slice`. It holds a backing `array`,
  an offset `off` and a length `len`, and `cap` runs from `off` to the end of
  the array. The offset is needed because `PopFront` reslices to `a[1:]`.
- An operation on `*[]T` is a method that updates the header fields and the
  backing array, with `modifies` clauses.
- The built-ins `make`, `copy` (memmove semantics, copying the minimum of the
  two lengths) and `append` (in place when the capacity suffices) are modelled
  in `GoSlices`.
- The loops of the source appear as loops with invariants. These are the
  clearing loop of `Cut` and `FilterZeroAlloc`, the compaction loops of the
  three filters, the swap loop of `Reverse`, the i/j loop of
  `SortAndDeduplicate`, and the append loops of `Batches` and `SlidingWindow`.
  The in-place loops work on the window of `len` slots from `off` in the
  backing array. The loops of `Batches` and `SlidingWindow` run over
  sequence values (see "Left out").
- Dafny cannot name the zero value of a type parameter, so the operations
  that write zero values take it as an explicit `zero` argument.

Most methods are proved against a reference function on plain sequences,
kept in `SeqSpec` and `Ordering`:

- `Removed` for Cut and Delete;
- `SwapRemove` for DeleteUnordered;
- `Inserted` for Insert, Expand, the reallocating branch of InsertMany, and
  both branches of `InsertManyFixed`, the corrected InsertMany;
- `ShiftedInsertAsWritten` for the in-place branch of InsertMany, as written
  (see "Findings");
- `Filtered` for the three filters;
- `Reversed` for Reverse;
- `Chunks` for Batches;
- `Sort` and `Dedup` for SortAndDeduplicate.

The others state their results directly in their contracts. These are Copy,
Extend, Push, PushFront, Pop, PopFront and SlidingWindow.

The method `DeleteIsCutOfOne` runs `Delete(a, i)` and `Cut(b, i, i+1)` on two
arrays with equal contents and proves that they leave equal arrays and
lengths: Delete is a cut of one element.

Lemmas about the reference functions state what the slice tricks promise:

- a cut of an empty range changes nothing;
- DeleteUnordered leaves a permutation of what Delete leaves;
- Extend is Expand at the end;
- reversing twice is the identity;
- filtering keeps exactly the accepted elements, in order, and is idempotent;
- the batches concatenate back to the input and have the promised sizes;
- the deduplicated sort is sorted, has no equal neighbours and holds the
  input's values.

Each method that works in place also states which backing slots it writes,
which of them it clears to zero, and that it leaves the other slots alone.
The methods built on `append` state this for both cases:

- when the new length fits the capacity, only the slots from the insertion
  point up to the new length change;
- otherwise the result lives in a fresh array and the old backing array
  keeps every element it held.

Where the documentation and the code disagree, the model follows the code.
The doc comment of `Expand` (slicetricks.go:46) says the zeros go "after the
i'th element", but the code puts them at index i, before the old `a[i]`.

## Model

| member | source | states |
|---|---|---|
| `GoSlices.Zeros` | slicetricks.go:53 | `make([]T, n)`: n elements, every one the zero value |
| `GoSlices.Slice.Make` | slicetricks.go:14 | `make([]T, len, cap)`: a fresh zero-filled array of cap slots, with the length asked for |
| `GoSlices.Slice.Sub` | slicetricks.go:141 | a reslice is a new header over the same backing array |
| `GoSlices.CopyElems` | slicetricks.go:21 | `copy` moves min(len(dst), len(src)) elements, reading all of them before writing (memmove), and touches no other slot |
| `GoSlices.CopyFrom` | slicetricks.go:84 | `copy` from a value sequence: the first min(len(dst), len(src)) slots take src's elements, and no other slot changes |
| `GoSlices.Append` | slicetricks.go:97 | `append` leaves old contents followed by xs; when they fit, it keeps the array and offset and changes only the slots past the old length; otherwise it uses a fresh array and leaves the old array as it was |
| `SliceTricks.Copy` | slicetricks.go:13-17 | a fresh slice with a's elements and capacity len(a) |
| `SliceTricks.ClearSlots` | slicetricks.go:22-25 | the slots from..to-1 become zero and the others are unchanged |
| `SliceTricks.CutCopy` | slicetricks.go:21 | on snapshots before and after `copy(a[start:], a[end:])`, the first len-(end-start) slots hold `a[:start] ++ a[end:]` |
| `SliceTricks.CutWindow` | slicetricks.go:21-25 | the window becomes `a[:start] ++ a[end:]`, the end-start slots it vacates are zero, and nothing outside changes |
| `SliceTricks.Cut` | slicetricks.go:20-27 | contents become `Removed(a, start, end)`, the length shrinks by end-start, the vacated backing slots are zero, and the same array is kept |
| `SliceTricks.DeleteWindow` | slicetricks.go:31-33 | the window becomes `a[:i] ++ a[i+1:]` and its old last slot becomes zero |
| `SliceTricks.Delete` | slicetricks.go:30-35 | contents become `a[:i] ++ a[i+1:]`, and the old last slot is zero |
| `SliceTricks.DeleteIsCutOfOne` | slicetricks.go:20-35 | Delete(a, i) and Cut(b, i, i+1) on two arrays with equal contents leave equal arrays, offsets and lengths |
| `SliceTricks.SwapRemoveWindow` | slicetricks.go:40-42 | slot i takes the last element, the last slot becomes zero, and nothing else changes |
| `SliceTricks.DeleteUnordered` | slicetricks.go:39-44 | contents become `SwapRemove(a, i)`, the old last slot is zero, and slots outside the slice are unchanged |
| `SliceTricks.Expand` | slicetricks.go:47-49 | contents become `a[:i] ++ n zeros ++ a[i:]`; when the capacity suffices the array is kept and only slots i..len+n-1 change, otherwise a fresh array is used and the old one is untouched |
| `SliceTricks.Extend` | slicetricks.go:52-54 | contents become `a ++ n zeros`; when the capacity suffices the array is kept and only the new slots change, otherwise a fresh array is used and the old one is untouched |
| `SliceTricks.FilterWindow` | slicetricks.go:58-65 | the compaction loop leaves exactly the accepted elements, in order, at the front of the window; no other slot changes |
| `SliceTricks.Filter` | slicetricks.go:57-66 | contents become `Filtered(a, keep)` in the same array; the slots past the new length are not cleared |
| `SliceTricks.ShiftIn` | slicetricks.go:72-73 | `copy(a[i+1:], a[i:])` followed by `a[i] = elem` turns the first len-1 slots into `Inserted(., i, [elem])`, and only slots i..len-1 change |
| `SliceTricks.Insert` | slicetricks.go:69-74 | contents become `a[:i] ++ [elem] ++ a[i:]`; when len < cap the array is kept and only slots i..len change, otherwise a fresh array is used and the old one is untouched |
| `SliceTricks.ShiftedInsertAsWritten` | slicetricks.go:81-85 | what the in-place branch of InsertMany leaves as written: len+k elements |
| `SliceTricks.ShiftedInsertAt` | slicetricks.go:83-84 | position by position, the as-written result holds the prefix, then elems, then the min(len-i, k+1) moved elements, then stale backing slots |
| `SliceTricks.ShiftedInsertAgrees` | slicetricks.go:83 | when len-i <= k+1, the as-written in-place branch does insert elems at i |
| `SliceTricks.ShiftedInsertLosesTail` | slicetricks.go:83 | a counterexample: backing [0,1,2,3,4,5,0], len 6, i 0, elems [9] gives [9,0,1,3,4,5,0] and not [9,0,1,2,3,4,5] |
| `SliceTricks.TwoCopies` | slicetricks.go:83-84 | the two copies as written, on snapshots of the array, produce `ShiftedInsertAsWritten` |
| `SliceTricks.ShiftManyAsWritten` | slicetricks.go:81-85 | the in-place branch as written leaves `ShiftedInsertAsWritten` of the old backing slots and changes only slots i..len+k-1 |
| `SliceTricks.ShiftedCopies` | slicetricks.go:83-84 | with the first copy reading all of `a[i:]`, the two copies produce `Inserted(a, i, elems)` |
| `SliceTricks.ShiftMany` | slicetricks.go:81-85 | the corrected in-place branch leaves `a[:i] ++ elems ++ a[i:]` and changes only slots i..len+k-1 |
| `SliceTricks.ThreeCopies` | slicetricks.go:88-91 | the three copies into the new array, on snapshots, produce `Inserted(a, i, elems)` |
| `SliceTricks.FillInserted` | slicetricks.go:88-91 | the reallocating branch fills a new array of exactly len+k slots with `a[:i] ++ elems ++ a[i:]` |
| `SliceTricks.InsertMany` | slicetricks.go:80-93 | as written: within capacity it keeps the array, leaves `ShiftedInsertAsWritten` and changes only slots i..len+k-1; otherwise it uses a fresh array of exactly len+k slots holding `a[:i] ++ elems ++ a[i:]` and leaves the old array untouched |
| `SliceTricks.InsertManyFixed` | slicetricks.go:80-93 | corrected: both branches leave `a[:i] ++ elems ++ a[i:]`; the in-place branch keeps the array and changes only slots i..len+k-1, the other allocates exactly len+k and leaves the old array untouched |
| `SliceTricks.Push` | slicetricks.go:96-98 | contents become `a ++ [elem]`; when len < cap the array is kept and only the new slot changes, otherwise a fresh array is used and the old one is untouched |
| `SliceTricks.PushFront` | slicetricks.go:101-103 | contents become `[elem] ++ a` in a fresh array |
| `SliceTricks.Pop` | slicetricks.go:106-110 | returns the last element and leaves `a[:len-1]` in the same array |
| `SliceTricks.PopFront` | slicetricks.go:113-117 | returns the first element and leaves `a[1:]`, moving the start one slot up the same array |
| `SliceTricks.PushThenPop` | slicetricks.go:96-110 | Pop after Push returns the pushed element and restores the contents |
| `SliceTricks.PushFrontThenPopFront` | slicetricks.go:101-117 | PopFront after PushFront returns the element and restores the contents |
| `SliceTricks.Batches` | slicetricks.go:123-136 | [] for empty input; otherwise `Chunks(a, batchSize)`: ceil(len/batchSize) batches that concatenate to a, all full except the last, which holds 1..batchSize elements |
| `SliceTricks.AppendKept` | slicetricks.go:141-146 | appending the accepted elements to `a[:0]` leaves `Filtered(a, keep)` in the same array and never reallocates |
| `SliceTricks.FilterZeroAllocNoGC` | slicetricks.go:140-148 | contents become `Filtered(a, keep)` in the same array; the slots past the new length are unchanged |
| `SliceTricks.FilterZeroAlloc` | slicetricks.go:151-163 | contents become `Filtered(a, keep)`, and the slots between the new and old length become zero |
| `SliceTricks.MirroredWindow` | slicetricks.go:166-169 | slots holding the mirrored elements of s are `Reversed(s)` |
| `SliceTricks.ReverseWindow` | slicetricks.go:166-169 | the swap loop leaves the window reversed and nothing outside changed |
| `SliceTricks.Reverse` | slicetricks.go:165-170 | contents become `Reversed(a)`, length unchanged |
| `SliceTricks.SlidingWindow` | slicetricks.go:174-191 | [] for empty input, [a] when len <= size, otherwise len-size+1 windows with window k = `a[k:k+size]` |
| `SliceTricks.DedupStep` | slicetricks.go:201-205 | one pass of the loop: a[i] is kept after a[j] exactly when it differs, which extends `Dedup` of the prefix by one element |
| `SliceTricks.DedupInPlace` | slicetricks.go:199-207 | the i/j loop leaves `Dedup(a)` at the front and returns a length 1..len; the slots past the new length keep their old elements, and no slot outside the window changes |
| `SliceTricks.DedupSortedWindow` | slicetricks.go:197-207 | writing the sorted elements and compacting leaves `Dedup(sorted)`, followed by the sorted elements that were not overwritten |
| `SliceTricks.DedupSorted` | slicetricks.go:199-207 | on the slice: contents become `Dedup(sorted)` in the same array, and the backing slots past the new length still hold `sorted`'s elements |
| `SliceTricks.SortAndDeduplicate` | slicetricks.go:194-208 | contents become `Dedup(Sort(a, less))` in the same array; the backing slots between the new and the old length are not cleared and still hold `Sort(a, less)`'s elements |
| `SeqSpec.Removed` | slicetricks.go:20-27 | a cut shortens the sequence by end-start |
| `SeqSpec.RemovedAt` | slicetricks.go:21 | after a cut, elements before start stay and later ones move down by end-start |
| `SeqSpec.RemovedEmptyRange` | slicetricks.go:20-27 | a cut with start == end changes nothing |
| `SeqSpec.Inserted` | slicetricks.go:69-74 | inserting xs lengthens the sequence by len(xs) |
| `SeqSpec.InsertedAt` | slicetricks.go:72-73 | after an insertion, the prefix stays, xs follows, and the rest moves up by len(xs) |
| `SeqSpec.InsertedAtEnd` | slicetricks.go:47-54 | inserting at len(a) appends, so Extend(n) is Expand(len(a), n) |
| `SeqSpec.InsertedNothing` | slicetricks.go:47-49 | inserting nothing (n = 0) changes nothing |
| `SeqSpec.SwapRemove` | slicetricks.go:39-44 | DeleteUnordered's result is one shorter |
| `SeqSpec.SwapRemoveAt` | slicetricks.go:40-42 | slot i holds the old last element and every other slot is unchanged |
| `SeqSpec.SwapRemoveIsPermutation` | slicetricks.go:37-44 | DeleteUnordered leaves a permutation (equal multisets) of what Delete leaves |
| `SeqSpec.Reversed` | slicetricks.go:165-170 | reversal keeps the length |
| `SeqSpec.ReversedAt` | slicetricks.go:166-169 | position k of the reverse holds element len-1-k |
| `SeqSpec.ReversedTwice` | slicetricks.go:165-170 | Reverse applied twice is the identity |
| `SeqSpec.Filtered` | slicetricks.go:57-66 | filtering never lengthens |
| `SeqSpec.FilteredPrefixStep` | slicetricks.go:59-64 | each element read is appended to the survivors exactly when keep accepts it |
| `SeqSpec.FilteredMembers` | slicetricks.go:56-66 | only accepted elements of the input survive |
| `SeqSpec.FilterAppend` | slicetricks.go:59-64 | filtering distributes over concatenation, so the order of survivors is the input order |
| `SeqSpec.FilterKeepsMatches` | slicetricks.go:56-66 | every accepted element survives |
| `SeqSpec.FilterAll` | slicetricks.go:56-66 | when keep accepts everything, the slice is unchanged |
| `SeqSpec.FilterNone` | slicetricks.go:56-66 | when keep accepts nothing, the slice becomes empty |
| `SeqSpec.FilterIdempotent` | slicetricks.go:56-66 | filtering twice is filtering once |
| `SeqSpec.ChunksFlatten` | slicetricks.go:121-136 | the batches concatenate back to the input |
| `SeqSpec.ChunksShape` | slicetricks.go:121-136 | there are ceil(len/size) batches (line 128's count), all full except the last, which holds 1..size |
| `Ordering.InsertSorted` | slicetricks.go:197 | one insertion step of the stand-in sort adds exactly x to the multiset |
| `Ordering.Sort` | slicetricks.go:197 | the stand-in for `sort.SliceStable` keeps the length and the multiset of elements |
| `Ordering.InsertSortedSorted` | slicetricks.go:197 | inserting into a sorted sequence keeps it sorted |
| `Ordering.SortSorted` | slicetricks.go:197 | the sort's result is sorted under a strict order and is a permutation of its input |
| `Ordering.Dedup` | slicetricks.go:199-207 | the result is non-empty, starts with a[0] and ends with the last element |
| `Ordering.DedupPrefixStep` | slicetricks.go:200-206 | extending the prefix by a[i] drops a[i] when it equals the last kept element and keeps it otherwise |
| `Ordering.DedupProperties` | slicetricks.go:199-207 | the compacted prefix has no equal neighbours and holds exactly the input's values |
| `Ordering.DedupSorted` | slicetricks.go:199-207 | compacting a sorted sequence keeps it sorted |
| `Ordering.StrictlyIncreasing` | slicetricks.go:194-208 | under a strict total order, a sorted sequence with no equal neighbours is strictly increasing, so its elements are distinct |
| `Ordering.SortDedupProperties` | slicetricks.go:194-208 | SortAndDeduplicate's result is sorted, has no equal neighbours, holds exactly the input's values and starts with a least one; under a total order its elements are distinct |

## Left out

- `GoSlices.Append`: Go's capacity growth policy is not modelled. When the
  elements do not fit, the model allocates an array of exactly the needed
  length. Expand, Extend, Insert, Push and PushFront therefore promise the
  resulting contents, and reuse of the array only when the old capacity
  suffices. They do not promise which capacity a reallocation picks.
- `Ordering.Sort`: `sort.SliceStable` is a library call, and its `less` takes
  indices into the slice being sorted. The model uses an insertion sort with
  a value comparator instead. Stability is not stated.
- `SliceTricks.SortAndDeduplicate`: it requires a non-empty slice. Line 207
  reslices to `[:1]` even for an empty slice, which panics when the capacity
  is 0 and otherwise exposes a stale backing slot. The distinctness of the
  result holds only when `less` is a strict total order.
- `SliceTricks.Batches` and `SliceTricks.SlidingWindow`: the input and the
  results are modelled as sequence values. The aliasing of the returned
  views with the input's backing array is not modelled. Neither is the
  three-index capacity limit `a[0:batchSize:batchSize]` at line 131.
- Runtime panics are preconditions, not modelled behaviour (Cut's
  start <= end, below, and SortAndDeduplicate's non-empty slice, above, are
  the preconditions that are not panics): out-of-range
  indices, Pop or PopFront on an empty slice, a batch size below 1 at
  line 128, and InsertMany's in-place branch reading past the capacity at
  line 83.
- `SliceTricks.Cut`: it requires start <= end. That case is not a panic in
  Go: with start > end, the copy at line 21 moves a[end:] up to a[start:],
  the loop at lines 22-25 clears nothing, and line 26 grows the slice by
  start - end over stale slots when the capacity allows. The model does not
  promise anything for that misuse.
- `SliceTricks.InsertMany`: `elems` is a value sequence. The case where the
  variadic argument shares the backing array of `a` is not modelled.
- `SliceTricks.Copy`: the difference between a nil slice and an empty one is
  not modelled.
- Go's `int` is modelled as an unbounded `nat`, and negative arguments
  panic, except that Batches and SlidingWindow return an empty result for
  an empty input whatever the size (lines 124-126, 175-177). The model's
  `nat` size cannot express a negative size there. For a non-empty input a
  negative size does panic, at `make` or at the first reslice. Lengths and indices of real slices stay far below 2^63. The one
  place where an argument can overflow is line 128 (see the Batches line
  below).
- `SliceTricks.Batches`: line 128 computes `(len(a)+batchSize-1)/batchSize`
  in 64-bit `int`. For len(a) >= 2 and batchSize > MaxInt - len(a) + 1 the
  sum wraps around to a negative number. Whenever the truncated quotient is
  then negative (len(a) = 2 and batchSize = MaxInt, for example), `make`
  panics. The model computes with unbounded integers, so it returns `[a]`
  for such a batchSize instead of panicking.
- `Any`, `All`, `None` and `ContainsComparable` are not defined in
  slicetricks.go, so they are not part of this model.

## Findings

| source | as written | input that shows it | evidently intended | confidence | as-written member | corrected member |
|---|---|---|---|---|---|---|
| slicetricks.go:83 | `copy((*a)[i+len(elems):], (*a)[i:i+len(elems)+1])` moves only min(len-i, k+1) of the elements from `a[i]` on, and it panics when i+k+1 > cap | a with backing [0,1,2,3,4,5,0] (len 6, cap 7), i = 0, elems = [9]: the result is [9,0,1,3,4,5,0] instead of [9,0,1,2,3,4,5] | copy from `(*a)[i:len]`, so the in-place branch leaves `a[:i] ++ elems ++ a[i:]` like the reallocating branch | not executed | `SliceTricks.InsertMany` (with `SliceTricks.ShiftedInsertLosesTail`) | `SliceTricks.InsertManyFixed` |
