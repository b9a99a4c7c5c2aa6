# Compaction block selectors (Tempo `tempodb`)

This project models the part of Tempo's storage layer that decides which
stored blocks a compactor merges next. It covers
`tempodb/compaction_block_selector.go` and proves properties of that model
in Dafny.

- **Simple selector** (`SimpleSelector`). It runs a first-fit sliding window
  over the block list. A persistent `cursor` field marks where the scan
  resumes. The selector returns the first `inputBlocks` consecutive blocks
  whose span is below `MaxCompactionRange`, measured as the last block's end
  minus the first block's start. The key is the first block's tenant. The
  cursor moves just past the returned blocks.
- **Time-window selector** (`TimeWindowSelector`). From the cursor, it
  collects the maximal run of blocks whose start time falls in the same time
  window. A run of at least `inputBlocks` blocks is pushed into a
  `BlockMetaHeap`. The blocks with the most objects are popped until
  `inputBlocks` remain. What is left is returned with the key
  `"<tenant>-<window>"`. Shorter runs are skipped by moving the cursor to
  their end. A successful call leaves the cursor at the start of the
  returned run.
- **`BlockMetaHeap`** (`BlockHeap`). This is the slice type adapted to Go's
  `container/heap`. Its `Less` is inverted, so the root holds a block with
  the most objects. The library's `heap.Push`, `heap.Pop`, `up` and `down`
  are modelled as the textbook binary-heap algorithms. They are built only
  from the type's own `Len`, `Less`, `Swap`, `Push` and `Pop`.
- **Shared definitions** (`Blocks`). This module holds the four block fields
  the selectors read, and the time arithmetic:
  - `Time.Unix` is floor division by 10^9;
  - Go's truncating `int64` division is `TruncDiv`;
  - `%v` of an integer is `Decimal`.

Both selectors are classes. Each has a mutable `cursor`, and its block list,
range and `inputBlocks` are constant fields. `BlocksToCompact` is a method
with loop invariants. Its postcondition ties the returned blocks, the key and
the new cursor to a pure step function of the old cursor: `SimpleStep` or
`TimeWindowStep`. The properties of each selector are proved as lemmas about
its step function.

Two inner loops of the time-window selector are separate methods:
- lines 79-92, the scan of one window, are `CollectWindow`;
- lines 97-99, the popping, are `BlockMetaHeap.Trim`.

Times are integer nanoseconds since the epoch. Go's `nil` result is the
empty sequence with key `""`. `BlockMetaHeap.Len` and `BlockMetaHeap.Less`
are functions on the heap's contents. `Up` and `Down` call `Less`, and
`HeapPush` and `HeapPop` call `Len`.

Two behaviours of the cursor are easy to miss:
- A successful time-window call does not move the cursor past the run it
  returns. Line 101 returns before line 105 runs, so the cursor stays at the
  start of the returned run, and a second call returns the same group
  (`RepeatedCallSameStep`).
- A simple-selector call that finds nothing leaves the cursor at
  `max(cursor, len - inputBlocks + 1)`, because the loop at line 32 stops
  there (`SimpleStepSpec`).

## Model

| member | source | states |
|---|---|---|
| Blocks.TruncDiv | tempodb/compaction_block_selector.go:111 | Go's `/` on `int64`: the quotient's magnitude is the floor of the operands' magnitudes, and it is negative only when the operands have opposite signs. |
| Blocks.WindowSeconds | tempodb/compaction_block_selector.go:111 | `int64(MaxCompactionRange / time.Second)` is zero exactly when the range is shorter than one second in magnitude, and positive exactly when the range is at least one second. |
| Blocks.WindowForBlock | tempodb/compaction_block_selector.go:110-112 | `windowForBlock` is the truncating quotient of the start second by the width: the start second minus the window id times the width is smaller than the width in magnitude, and it is zero or has the sign of the start second. |
| Blocks.Decimal | tempodb/compaction_block_selector.go:101 | `%v` of an integer is non-empty, starts with `-` exactly when the integer is negative, and is all digits after that sign. |
| Blocks.WindowKey | tempodb/compaction_block_selector.go:101 | The key starts with the tenant and a `-`, and the rest parses back to the window id. |
| Blocks.Unix | tempodb/compaction_block_selector.go:111 | `Time.Unix` rounds down: the result `s` satisfies `s * 10^9 <= t < (s + 1) * 10^9`. This also holds for times before the epoch. |
| Blocks.TruncDivSpec | tempodb/compaction_block_selector.go:111 | The remainder left by Go's `int64` division is smaller than the divisor in magnitude and never has the opposite sign of the dividend. This is the truncating quotient, not Dafny's Euclidean one. |
| Blocks.WindowBounds | tempodb/compaction_block_selector.go:110-112 | For a positive window width and a start at or after the epoch, window `w` is non-negative and covers the seconds `[w * width, (w + 1) * width)` that contain the block's start. |
| Blocks.WindowMonotone | tempodb/compaction_block_selector.go:110-112 | For a positive window width, the window id never decreases as the start time grows, before the epoch as well as after it. So in a list sorted by start time the blocks of one window are contiguous. |
| Blocks.NatDecimal | tempodb/compaction_block_selector.go:101 | `%v` of a natural number is a non-empty string of decimal digits with no leading zero. |
| Blocks.DecimalRoundTrip | tempodb/compaction_block_selector.go:101 | Parsing the `%v` text of an integer, negative or not, gives the integer back. |
| Blocks.WindowKeyInjective | tempodb/compaction_block_selector.go:101 | For one tenant, two keys `"<tenant>-<window>"` are equal only when the windows are equal. |
| SimpleSelector.SpanFits | tempodb/compaction_block_selector.go:33-34 | A definition with no contract of its own: the test at line 34 on the candidate window starting at `p`. Its meaning is stated by the span clause of `SimpleStepSpec`: a returned slice ends less than the range after it starts. `FirstFit` states that every position the scan passes fails it. |
| SimpleSelector.SimpleStep | tempodb/compaction_block_selector.go:26-45 | One call returns either nothing, with key `""`, or exactly `inputBlocks` blocks. A cursor within the list stays within it. |
| SimpleSelector.FirstFit | tempodb/compaction_block_selector.go:32-41 | The position the scan stops at is the least position at or after the cursor whose window of `inputBlocks` blocks spans less than the range. Every earlier position fails the test. `None` means no position fits. |
| SimpleSelector.SimpleStepSpec | tempodb/compaction_block_selector.go:32-44 | A non-empty result is exactly `blocklist[p : p + inputBlocks]` with `inputBlocks` blocks, where `p` is the first fitting position at or after the old cursor. The last block's end minus the first block's start is below the range, the key is `blocklist[p]`'s tenant, and the cursor becomes `p + inputBlocks`. An empty result has key `""`, means no position fits, and leaves the cursor at `max(old cursor, len - inputBlocks + 1)`. |
| SimpleSelector.ShortListSelectsNothing | tempodb/compaction_block_selector.go:27-30 | With more `inputBlocks` than blocks, the result is `(nil, "")` and the cursor is unchanged. |
| SimpleSelector.ExhaustedStaysExhausted | tempodb/compaction_block_selector.go:32-44 | After an empty result, the next call also returns `(nil, "")` and leaves the cursor where it is. |
| SimpleSelector.CursorMonotone | tempodb/compaction_block_selector.go:32-41 | The cursor never moves back, and it moves strictly forward on every non-empty result. |
| SimpleSelector.GroupStarts | tempodb/compaction_block_selector.go:32-41 | Across the calls until the first empty result, the returned windows each pass the span test. They lie at or after the starting cursor, never overlap and come in list order. |
| SimpleSelector.GroupStartsFollowSteps | tempodb/compaction_block_selector.go:32-44 | `GroupStarts` is what successive calls return. A call comes back empty exactly when there are no starts. Otherwise it returns the window at the first start and leaves the cursor just past it, where the remaining starts are taken from. |
| SimpleSelector.GroupsComplete | tempodb/compaction_block_selector.go:32-44 | Calling the selector until it returns nothing misses no fitting window: every position that passes the span test lies inside one of the returned windows. |
| SimpleSelector.SimpleBlockSelector.constructor | tempodb/compaction_block_selector.go:18-22 | A new selector has cursor 0 and the given block list, range and `inputBlocks`. |
| SimpleSelector.SimpleBlockSelector.BlocksToCompact | tempodb/compaction_block_selector.go:26-45 | The returned blocks, the key and the new cursor are `SimpleStep` from the old cursor. The cursor stays within the list. |
| BlockHeap.Swapped | tempodb/compaction_block_selector.go:124-126 | After `Swap(i, j)`, slots `i` and `j` hold each other's blocks, every other slot is unchanged, and the length is the same. |
| BlockHeap.SwappedPerm | tempodb/compaction_block_selector.go:124-126 | A swap neither loses nor gains a block. |
| BlockHeap.RootIsMax | tempodb/compaction_block_selector.go:120-122 | Because `Less` is inverted, no block in a heap holds more objects than the root. |
| BlockHeap.BlockMetaHeap.Len | tempodb/compaction_block_selector.go:116-118 | A definition with no contract of its own: `len(h)`, the number of blocks. `HeapPush` and `HeapPop` use it to find the last slot, and their postconditions are where it is checked. |
| BlockHeap.BlockMetaHeap.Less | tempodb/compaction_block_selector.go:120-122 | A definition with no contract of its own: the inverted comparison on object counts. `LessIsStrictWeakOrder` proves it is the strict weak order `container/heap` needs. It makes the heap a max-heap, as proved by `Up` and `Down` being equal to `SiftUp` and `SiftDown`, together with `RootIsMax` and `PopHeapCorrect`. |
| BlockHeap.LessIsStrictWeakOrder | tempodb/compaction_block_selector.go:120-122 | `Less` is irreflexive and transitive, and incomparability is transitive too. That is the strict weak order `container/heap` requires of `Less`. |
| BlockHeap.SiftUp | tempodb/compaction_block_selector.go:120-126 | `up`, built from `Less` and `Swap`, keeps the length of the slice. |
| BlockHeap.SiftUpPerm | tempodb/compaction_block_selector.go:120-126 | `up` only reorders the slice. |
| BlockHeap.SiftUpRestores | tempodb/compaction_block_selector.go:120-126 | `up` repairs a heap whose only defect is at the sifted slot. |
| BlockHeap.PushHeap | tempodb/compaction_block_selector.go:90 | `heap.Push` adds one slot. |
| BlockHeap.PushHeapCorrect | tempodb/compaction_block_selector.go:128-131 | `heap.Push` (append through `Push`, then `up`) onto a max-heap gives a max-heap. |
| BlockHeap.PushHeapPerm | tempodb/compaction_block_selector.go:128-131 | `heap.Push` adds exactly the pushed block. |
| BlockHeap.SiftDown | tempodb/compaction_block_selector.go:120-126 | `down`, which swaps with the larger child, keeps the length of the slice. |
| BlockHeap.SiftDownPerm | tempodb/compaction_block_selector.go:120-126 | `down` only reorders the slice. |
| BlockHeap.SiftDownKeepsTail | tempodb/compaction_block_selector.go:120-126 | `down` over the first `n` slots leaves every slot from `n` on alone. |
| BlockHeap.SiftDownRestores | tempodb/compaction_block_selector.go:120-126 | `down` repairs a heap prefix whose only defect is at the sifted slot. |
| BlockHeap.HeapRest | tempodb/compaction_block_selector.go:133-140 | `heap.Pop` leaves one block fewer. |
| BlockHeap.PopHeapCorrect | tempodb/compaction_block_selector.go:133-140 | `heap.Pop` on a max-heap removes the root, a block with the most objects. What remains is a max-heap, and together with the root it is a permutation of the original. |
| BlockHeap.TrimHeap | tempodb/compaction_block_selector.go:97-99 | Popping while more than `n` blocks remain leaves `min(len, n)` blocks, and leaves a heap of at most `n` blocks untouched. |
| BlockHeap.BlockMetaHeap.constructor | tempodb/compaction_block_selector.go:75-76 | A fresh heap is empty. `heap.Init` has nothing to order. |
| BlockHeap.BlockMetaHeap.Swap | tempodb/compaction_block_selector.go:124-126 | The slice becomes `Swapped` of the old slice. |
| BlockHeap.BlockMetaHeap.Push | tempodb/compaction_block_selector.go:128-131 | The block is appended. |
| BlockHeap.BlockMetaHeap.Pop | tempodb/compaction_block_selector.go:133-140 | The last slot is removed and returned. |
| BlockHeap.BlockMetaHeap.Up | tempodb/compaction_block_selector.go:120-126 | The loop over `Less` and `Swap` computes `SiftUp` of the old slice. |
| BlockHeap.BlockMetaHeap.Down | tempodb/compaction_block_selector.go:120-126 | The loop over `Less` and `Swap` computes `SiftDown` of the old slice. |
| BlockHeap.BlockMetaHeap.HeapPush | tempodb/compaction_block_selector.go:90 | `heap.Push` leaves the slice as `PushHeap` of the old one. |
| BlockHeap.BlockMetaHeap.HeapPop | tempodb/compaction_block_selector.go:98 | `heap.Pop` returns the old root and leaves `HeapRest` of the old slice. |
| BlockHeap.BlockMetaHeap.Trim | tempodb/compaction_block_selector.go:97-99 | Popping while more than `n` blocks remain leaves `TrimHeap` of the old slice. |
| TimeWindowSelector.RunEndFrom | tempodb/compaction_block_selector.go:85-92 | The inner scan stops at the first block from its start on that lies in another window, or at the end of the list. Every block it passes lies in the current window. |
| TimeWindowSelector.RunEnd | tempodb/compaction_block_selector.go:79-92 | `cursorEnd` is one past the maximal run of blocks from the cursor on that share the cursor block's window. |
| TimeWindowSelector.NextWindowStart | tempodb/compaction_block_selector.go:74-106 | The outer loop settles at or after the cursor, either at the end of the list or at the start of a run with at least `inputBlocks` blocks. |
| TimeWindowSelector.HeapOf | tempodb/compaction_block_selector.go:83-92 | Pushing the blocks of a run gives a heap of the run's length. |
| TimeWindowSelector.HeapOfIsHeap | tempodb/compaction_block_selector.go:83-92 | The heap built from a run is a max-heap on object count. |
| TimeWindowSelector.HeapOfPerm | tempodb/compaction_block_selector.go:83-92 | The heap built from a run holds exactly the run's blocks, counted with multiplicity. |
| TimeWindowSelector.BagOfSlice | tempodb/compaction_block_selector.go:83-92 | Counting the run's blocks one by one gives the multiset of the slice `blocklist[cursor:cursorEnd]`. |
| TimeWindowSelector.TrimKeepsSmallest | tempodb/compaction_block_selector.go:95-99 | Popping a max-heap down to `n` blocks leaves `n` blocks, or all of them if there were fewer. The kept blocks are drawn from the heap, and every popped block holds at least as many objects as every kept one. |
| TimeWindowSelector.Group | tempodb/compaction_block_selector.go:79-101 | The group returned for a run holds `min(run length, inputBlocks)` blocks. |
| TimeWindowSelector.GroupSpec | tempodb/compaction_block_selector.go:79-101 | For a run of at least `inputBlocks` blocks, the returned group has exactly `inputBlocks` blocks. They are the run's blocks with the fewest objects, and all lie in the window of the run's first block. |
| TimeWindowSelector.TimeWindowStep | tempodb/compaction_block_selector.go:71-108 | One call never moves the cursor back or past the end. A call that reaches the end returns `(nil, "")`, and any other call returns exactly `inputBlocks` blocks. |
| TimeWindowSelector.TimeWindowStepSpec | tempodb/compaction_block_selector.go:74-107 | One call never moves the cursor back. The result is empty, with key `""`, exactly when the cursor reaches the end. Otherwise it returns `inputBlocks` blocks from the maximal same-window run starting at the new cursor: the run's blocks with the fewest objects, all in that window. The key is that run's first tenant, `-`, then the window id. |
| TimeWindowSelector.RepeatedCallSameStep | tempodb/compaction_block_selector.go:94-101 | A successful call leaves the cursor on the returned window, so calling again gives the same blocks, key and cursor. |
| TimeWindowSelector.SkippedRunsAreShort | tempodb/compaction_block_selector.go:104-105 | Every position a call skips lies in a same-window run with fewer than `inputBlocks` blocks. That run lies between the old and the new cursor, so no block of a short run is returned. |
| TimeWindowSelector.ExhaustedStaysExhausted | tempodb/compaction_block_selector.go:74-107 | With the cursor at the end of the list, a call returns `(nil, "")` and leaves the cursor there. |
| TimeWindowSelector.TimeWindowBlockSelector.constructor | tempodb/compaction_block_selector.go:62-69 | `newTimeWindowBlockSelector` starts with cursor 0 and the given block list and range. |
| TimeWindowSelector.TimeWindowBlockSelector.CollectWindow | tempodb/compaction_block_selector.go:75-92 | The scan returns a fresh heap that holds `HeapOf` of the run from the cursor, and `cursorEnd` equal to `RunEnd`. |
| TimeWindowSelector.TimeWindowBlockSelector.BlocksToCompact | tempodb/compaction_block_selector.go:71-108 | The returned blocks, the key and the new cursor are `TimeWindowStep` from the old cursor. The cursor stays within the list. |

## Left out

- Fixed-width integers. Times, durations and window ids are unbounded integers. The model ignores `int64` overflow, the saturation of `Time.Sub`, and the monotonic-clock reading carried by `time.Time`.
- TimeWindowSelector.TimeWindowBlockSelector.BlocksToCompact: requires the window width in whole seconds to be non-zero. That width is zero when the range is shorter than one second in magnitude. Go then panics with an integer divide by zero at line 111 once the loop body runs, that is, while the cursor is before the end. The model does not describe that panic. It also requires a non-zero width for a call whose cursor is already at the end, where Go returns `(nil, "")` without dividing.
- The `CompactionBlockSelector` interface and the assertions at lines 24 and 60. They are compile-time checks, and the two classes simply share the `BlocksToCompact` signature.
- `inputBlocks` is a package constant defined in another file, which is not part of this model. Each selector holds it as a constant field of at least 1.
- `backend.BlockMeta` is not part of this model beyond `TenantID`, `StartTime`, `EndTime` and `TotalObjects`. Blocks are values, so the model does not capture that the returned slices share storage with the block list in Go.
- `Pop` writes `nil` into the vacated slot at line 137 only to release memory. The model just shortens the slice.
- The boolean result of `container/heap`'s `down`, and `heap.Init` on a non-empty slice, are left out because the selector never uses them.
- The order of the returned heap slice and the breaking of ties between equal object counts are fixed by `TimeWindowStep`, because `SiftUp` and `SiftDown` follow `container/heap`'s `up` and `down` step by step. No lemma depends on that order: the lemmas speak of the returned blocks as a multiset.
- The `fmt.Sprintf("%v-%v", ...)` key is modelled as the tenant, `-`, and the decimal digits of the window id. That is what `%v` prints for a string and an `int64`.
- The callers of the selectors are not part of this model: the compactor loop, fetching the block list, merging and I/O.
