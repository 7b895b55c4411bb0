# Thesauros: verification of the algorithmic core

A Dafny model of the parts of the thesauros C++23 library that carry hard invariants, with proofs. One module per
component; `dafny verify dfyconfig.toml` checks all of them.

- **Concurrent dispatch.** `FixedThreadPool` is a step relation: every access to an atomic, to the task slot or to the
  stored exception is one step of one thread, and the steps interleave arbitrarily. `FixedThreadPoolSafety` proves an
  invariant of every run and what it means for the caller; `FixedThreadPoolExceptions` proves which exception a call
  rethrows; `FixedThreadPoolProgress` proves that nothing ever gets stuck and that every run is bounded, and
  `FixedThreadPoolSpinning` that threads spin before they park. `FixedStdThreadPool`, with a mutex and condition
  variables, and `InclusiveScan` (over `Monoids`), the parallel scan around a latch, are treated alike.
- **Permutations by arithmetic.** `RangeRandomizer` and `NarrowRandomizer` (over `Bits` and `Finite`), and `Lcg` (over
  `Divisibility`).
- **Raw storage.** `RawStorage` states the lifetime rules of C++ as preconditions on slots that are raw, live or moved
  from; `DynamicArray` obeys them and refines sequence splices. `PackedBytes` and `MultiByteIntegers` treat packed
  integers that are read and written through overlapping machine words.
- **Index arithmetic.** `Divisor`, `Segmentation`, `MixedRadix`, `IndexPositionWrapper`, `CartesianProduct`, and the
  tiled traversals `Tiling`, `TileFlags`, `TileCells`, `TiledForEach` and `TileOrder`.
- **Text and numbers.** `Utf8`, `StringEscape` and `Factorization`.

Objects that the code updates in place are classes here, and its loops are loops; what they compute is stated by
functions on values, about which the lemmas speak. Parameter packs over dimensions become sequences of any length.
Unsigned arithmetic wraps explicitly, at any width where the code is generic in it.

## Where the code falls short of what it promises

Nine promises hold only under a condition. For each there is a lemma with the exact condition.

- `push_back(array[i])` without spare capacity, and `push_back(std::move(array[i]))` too, reads an element that has
  already been moved away (`DynamicArray.PushIsAppendIff`).
- `erase(first, last)` on an empty range is a no-op only at the end; elsewhere it moves every following element onto
  itself, although its comment promises a no-op (`DynamicArray.EraseIsRemovalIff`).
- `insert_any` in place with `ins_size == 0` does the same (`DynamicArray.InsertAnyIsInsertionIff`). For trivially
  copyable elements, such as the bytes below `MultiByteIntegers`, a self-move changes nothing.
- The blocked segmenter multiplies before it saturates. For index types of at least 32 bits its segments partition the
  indices iff the end of the last block can be represented (`Segmentation.BlockedPartitionsIff`).
- The padded segmenter over a segmenter of `[A, B)` partitions `[A, B + n0 + n1)`, as its comment says, iff `A == 0`; its
  first segment starts at 0 in any case (`Segmentation.PaddedPartitionsIff`).
- `Divisor<u8>::is_divisible` is computed in `int`, so nothing is truncated and it recognizes no multiple but 0
  (`Divisor.IsDivisibleNarrow`).
- `for_each_tile` is documented to call `full_fun` for the tiles that are full in all dimensions, but the last one alone
  decides. The two agree on a box iff an axis is empty, the last one is shorter than a tile, or all others are fixed or
  multiples of their tile sizes (`TileFlags.FullInAllDimensionsIff`). The traversals built on it are right regardless.
- The difference of two iterators of an LCG is computed in `std::ptrdiff_t`. It is right for all pairs iff the size is
  below 2^63, and for one pair iff both positions or neither are (`Lcg.AllDifferencesAreExactIff`,
  `Lcg.ConstIterator.Sub`).
- `RangeRandomizer<u16>` multiplies in `int`, which overflows for some value iff the size exceeds 2^15
  (`NarrowRandomizer.NarrowIsExactIff`).

The test `d * d <= n` of `factorize` wraps for large `n`, in 32 and in 64 bits, but the result is right nevertheless
(`Factorization.Factorize`).

## Model

| member | source | states |
|---|---|---|
| FixedThreadPool.PackingIsExact | include/thesauros/execution/executor/fixed-thread-pool.hpp:156-157 | On words of any width from 16 bits on, as long as the thread number and the epoch fit, the bitwise masking and the adding on the packed state are exactly the update of epoch and participant count, and packed states are equal iff both parts are |
| FixedThreadPoolSafety.AlwaysPackable | include/thesauros/execution/executor/fixed-thread-pool.hpp:171-186 | No reachable dispatch state exceeds what the packing can hold, and there is one worker fewer than threads, or none |
| FixedThreadPoolSafety.InvAlways | include/thesauros/execution/executor/fixed-thread-pool.hpp:189-248 | The inductive invariant (task slot, completion counter, stored exception, history of invocations) holds in every state of every interleaving, spurious wake-ups and lagging workers included |
| FixedThreadPoolSafety.ExactlyOnce | include/thesauros/execution/executor/fixed-thread-pool.hpp:129-166 | Every index below `used` of every finished call ran its own task exactly once, no other index at all, and code and data were never mixed between calls |
| FixedThreadPoolSafety.SlotIsStable | include/thesauros/execution/executor/fixed-thread-pool.hpp:154-158 | While a worker that takes part has not decremented, its own region is the published one, the slot holds that region's task and the counter is positive |
| FixedThreadPoolSafety.ReturnsAfterAll | include/thesauros/execution/executor/fixed-thread-pool.hpp:223-238 | Outside the region no worker runs a task or is about to decrement, and every participant has handled the dispatch state |
| FixedThreadPoolSafety.OutcomesAreOwn | include/thesauros/execution/executor/fixed-thread-pool.hpp:163-165 | A call rethrows one of the exceptions of its own task iff its task threw, and none is left for the next call |
| FixedThreadPoolExceptions.FirstIsRethrown | include/thesauros/execution/executor/fixed-thread-pool.hpp:129-166 | Of all exceptions thrown in a call, the one whose thread was the first of the call to reach the exchange of the flag is rethrown |
| FixedThreadPoolExceptions.RethrownWasFirst | include/thesauros/execution/executor/fixed-thread-pool.hpp:163-165 | A call on several threads rethrows nothing else, and returns if no thread reached the exchange |
| FixedThreadPoolExceptions.FirstIsKept | include/thesauros/execution/executor/fixed-thread-pool.hpp:240-248 | From that exchange until the end of the call no other exception is ever stored, and once stored it stays |
| FixedThreadPoolSafety.CallerKeepsInv | include/thesauros/execution/executor/fixed-thread-pool.hpp:135-166 | Every step of `execute`, `await_completion` and the destructor keeps the invariant |
| FixedThreadPoolSafety.WorkerKeepsInv | include/thesauros/execution/executor/fixed-thread-pool.hpp:189-221 | Every step of the worker loop and `await_state` keeps the invariant |
| FixedThreadPoolSafety.SpuriousKeepsInv | include/thesauros/execution/executor/fixed-thread-pool.hpp:214-220 | So does waking up for no reason |
| FixedThreadPoolProgress.NoDeadlock | include/thesauros/execution/executor/fixed-thread-pool.hpp:189-238 | In every reachable state before the pool is gone some thread can step without a spurious wake-up, so no wake-up is lost |
| FixedThreadPoolProgress.SleeperIsWoken | include/thesauros/execution/executor/fixed-thread-pool.hpp:205-221 | In every reachable state with a worker parked on an outdated dispatch state, the caller's next step is the notification, and it wakes that worker |
| FixedThreadPoolProgress.RunsAreBounded | include/thesauros/execution/executor/fixed-thread-pool.hpp:189-238 | A run takes at most as many steps as an initial measure, plus three per spurious wake-up: every step decreases a measure |
| FixedThreadPoolProgress.EndOfRun | include/thesauros/execution/executor/fixed-thread-pool.hpp:119-123 | A run that can only go on spuriously has returned from all calls with their own outcomes, and all workers have left |
| FixedThreadPoolSpinning.ParksAfterSpinning | include/thesauros/execution/executor/fixed-thread-pool.hpp:205-221 | A parked worker has looked at the dispatch state exactly as often as the spin count says since it began to wait |
| FixedThreadPoolSpinning.CallerParksAfterSpinning | include/thesauros/execution/executor/fixed-thread-pool.hpp:223-238 | So has the parked caller at the completion counter |
| FixedStdThreadPool.InvAlways | include/thesauros/execution/executor/fixed-std-thread-pool.hpp:52-128 | The invariant of the pool with mutex and condition variables holds in every state of every interleaving, late notifications and spurious wake-ups included |
| FixedStdThreadPool.CallerKeepsInv | include/thesauros/execution/executor/fixed-std-thread-pool.hpp:99-128 | Every step of `execute` and the destructor keeps it |
| FixedStdThreadPool.WorkerKeepsInv | include/thesauros/execution/executor/fixed-std-thread-pool.hpp:52-73 | Every step of the worker loop keeps it |
| FixedStdThreadPool.ExactlyOnce | include/thesauros/execution/executor/fixed-std-thread-pool.hpp:66-68 | Every index that takes part in a finished call ran its task exactly once, and no other ever ran |
| FixedStdThreadPool.ReturnsAfterAll | include/thesauros/execution/executor/fixed-std-thread-pool.hpp:123-127 | A worker holding a task holds that of the call waiting for it, and `execute` returns only after all workers are done |
| FixedStdThreadPool.NoDeadlock | include/thesauros/execution/executor/fixed-std-thread-pool.hpp:56-72 | In every reachable state before the pool is gone some thread can step without a spurious wake-up |
| FixedStdThreadPool.RunsAreBounded | include/thesauros/execution/executor/fixed-std-thread-pool.hpp:52-128 | A run takes at most as many steps as an initial measure, plus two per spurious wake-up |
| FixedStdThreadPool.EndOfRun | include/thesauros/execution/executor/fixed-std-thread-pool.hpp:99-106 | A run that can only go on spuriously has returned from all calls, every index having run once, and the pool is gone |
| InclusiveScan.InvAlways | include/thesauros/algorithms/transform-inclusive-scan.hpp:37-57 | The invariant of the values in the two phases holds in every state of every interleaving, for any number of threads, any segmentation and any commutative monoid |
| InclusiveScan.ControlAlways | include/thesauros/algorithms/transform-inclusive-scan.hpp:37-57 | Its part about the latch, the partial sums written and the elements written holds whatever the operation is, floating-point addition included |
| InclusiveScan.ReadsOnlyWritten | include/thesauros/algorithms/transform-inclusive-scan.hpp:49-52 | Whenever a thread adds up partial sums, all those it reads have been written, whatever the operation |
| InclusiveScan.RunsAreBounded | include/thesauros/algorithms/transform-inclusive-scan.hpp:37-57 | Every run ends, whatever the operation |
| InclusiveScan.NoDeadlock | include/thesauros/algorithms/transform-inclusive-scan.hpp:49 | In every reachable state in which a thread is not done, some thread can step, whatever the operation |
| InclusiveScan.EndsDone | include/thesauros/algorithms/transform-inclusive-scan.hpp:37-57 | A run that cannot go on has finished all threads and written every output, whatever the operation |
| InclusiveScan.EndOfRun | include/thesauros/algorithms/transform-inclusive-scan.hpp:47-56 | A run that cannot go on has written the sequential inclusive scan, if the operation is a commutative monoid |
| InclusiveScan.ScanIsFold | include/thesauros/algorithms/transform-inclusive-scan.hpp:55-56 | Element `j` of the sequential scan is the fold of the first `j + 1` values |
| InclusiveScan.UniformBounds | include/thesauros/algorithms/transform-inclusive-scan.hpp:39-40 | The uniform segmenter yields bounds as the scan needs them |
| Monoids.ReductionIsFold | include/thesauros/algorithms/transform-inclusive-scan.hpp:47 | Any order and grouping of a reduction gives the fold |
| RangeRandomizer.Randomizer.TransformPermutes | include/thesauros/random/randomize-range.hpp:30-51 | `transform` is a bijection of `[0, size)` onto itself, for every width, size and offset, in arithmetic that wraps at that width |
| RangeRandomizer.Randomizer.PartIs | include/thesauros/random/randomize-range.hpp:31-38 | The last stage keeps all bits down to the first one where `size` and `y` differ and maps the bits below by the Gray code and the odd multiplier |
| RangeRandomizer.Randomizer.MixIs | include/thesauros/random/randomize-range.hpp:36 | The low bits become the product of their Gray code and the multiplier, cut off to as many bits |
| RangeRandomizer.Randomizer.PartInjective | include/thesauros/random/randomize-range.hpp:31-38 | The last stage has no collisions below `size` |
| RangeRandomizer.Randomizer.ToggleInvolutive | include/thesauros/random/randomize-range.hpp:44-45 | The conditional exclusive or stays below `size` and is its own inverse |
| RangeRandomizer.Randomizer.ToggleTests | include/thesauros/random/randomize-range.hpp:44-45 | It toggles the top bit iff the other bits are below `size` minus the top bit and their product with the multiplier has its middle bit set |
| RangeRandomizer.Randomizer.ShuffleInjective | include/thesauros/random/randomize-range.hpp:40-46 | The rotation and the reflections before it have no collisions either |
| NarrowRandomizer.NarrowIsExactIff | include/thesauros/random/randomize-range.hpp:30-51 | In 8 and 16 bits, whose operands are promoted, `transform` is that permutation iff the width is 8 or the size at most 2^15; otherwise some value makes a product overflow |
| NarrowRandomizer.NarrowFails | include/thesauros/random/randomize-range.hpp:36-45 | 1 in the range of 2^15 + 1 without an offset is an instance of the overflow |
| Lcg.Lcg.AddedIs | include/thesauros/random/lcg.hpp:63-66 | The guarded addition is addition modulo `size` and never overflows |
| Lcg.SkipStep | include/thesauros/random/lcg.hpp:68-81 | Doubling yields a step congruent to `diff * increment`, for either sign of `diff` |
| Lcg.ConstIterator.Begin | include/thesauros/random/lcg.hpp:97-99 | `begin()` yields the seed |
| Lcg.ConstIterator.End | include/thesauros/random/lcg.hpp:100-102 | `end()` is `size` positions further, where the seed comes round again |
| Lcg.Lcg.AtIsRecurrence | include/thesauros/random/lcg.hpp:40-43 | The values of the positions start with the seed and go on by the increment, modulo the size |
| Lcg.ConstIterator.Incr | include/thesauros/random/lcg.hpp:40-43 | The value becomes `(value + increment) mod size`, and stays that of the position |
| Lcg.ConstIterator.Decr | include/thesauros/random/lcg.hpp:44-47 | The value becomes `(value - increment) mod size`, also for `increment == 0` |
| Lcg.ConstIterator.Iadd | include/thesauros/random/lcg.hpp:48-51 | A jump makes it `(value + diff * increment) mod size`, so it ends where as many single steps do |
| Lcg.ConstIterator.Sub | include/thesauros/random/lcg.hpp:58-60 | The difference of the converted positions, if it can be represented; it is that of the positions iff both or neither are below 2^63 |
| Lcg.DifferenceIsExactIff | include/thesauros/random/lcg.hpp:58-60 | The same of any two positions of at most 64 bits |
| Lcg.AllDifferencesAreExactIff | include/thesauros/random/lcg.hpp:58-60 | All differences, and that of the end and the beginning, are right iff the size is below 2^63 |
| Lcg.DifferenceFails | include/thesauros/random/lcg.hpp:58-60 | With 2^63 elements, that of the end and the beginning is -2^63, and that of the end and the second element overflows |
| Lcg.Lcg.TraversalPermutes | include/thesauros/random/lcg.hpp:97-102 | The elements from `begin()` to `end()` are a permutation of `[0, size)` iff `increment` and `size` are coprime |
| RawStorage.MoveAssign | include/thesauros/containers/array/dynamic.hpp:273 | Assignment needs two elements; the source is left moved from, and so is an element moved onto itself |
| RawStorage.MoveForward | include/thesauros/containers/array/dynamic.hpp:285 | Where every element of an overlapping forward move ends up |
| RawStorage.MoveBackward | include/thesauros/containers/array/dynamic.hpp:313 | Where every element of an overlapping backward move ends up |
| RawStorage.UninitializedMove | include/thesauros/containers/array/dynamic.hpp:329 | Moving into new memory constructs there and leaves the source moved from |
| RawStorage.UninitializedMoveWithin | include/thesauros/containers/array/dynamic.hpp:312 | The same behind the end of the same memory |
| DynamicArray.GrownIsEnough | include/thesauros/containers/array/growth-policy.hpp:20-30 | What is allocated is the power of two that is larger than the requested size and at most twice as large, or everything from 2^63 on |
| DynamicArray.CapacityDoubles | include/thesauros/containers/array/growth-policy.hpp:20-30 | A full array whose capacity is a power of two at least doubles it for one more element |
| DynamicArray.AppendsAreLinear | include/thesauros/containers/array/dynamic.hpp:245-259 | Appending `n` elements one by one to an empty array moves fewer than `2 * n` elements between memories |
| DynamicArray.DynamicArray.constructor | include/thesauros/containers/array/dynamic.hpp:74-76 | A new array holds `size` elements of the initialization policy |
| DynamicArray.DynamicArray.AllocationExpand | include/thesauros/containers/array/dynamic.hpp:378-386 | Moving to new memory keeps all elements, constructs the new ones behind them, and gives back only memory whose elements have all been destroyed |
| DynamicArray.DynamicArray.Expand | include/thesauros/containers/array/dynamic.hpp:207-220 | Appends policy-created elements, in place or not |
| DynamicArray.DynamicArray.Shrink | include/thesauros/containers/array/dynamic.hpp:221-227 | Leaves the first elements and no live slot behind them |
| DynamicArray.DynamicArray.Resize | include/thesauros/containers/array/dynamic.hpp:228-235 | Truncates or appends |
| DynamicArray.DynamicArray.Reserve | include/thesauros/containers/array/dynamic.hpp:237-243 | Changes the capacity and nothing else |
| DynamicArray.DynamicArray.EmplaceBack | include/thesauros/containers/array/dynamic.hpp:246-265 | Appends the constructed element, which may be copied or moved from one of the array's own |
| DynamicArray.PushIsAppendIff | include/thesauros/containers/array/dynamic.hpp:246-265 | That is appending the argument iff it is no element of the array itself or there is spare capacity |
| DynamicArray.PushFails | include/thesauros/containers/array/dynamic.hpp:246-265 | The first element of a full array of one is an instance of the failure, copied or moved from |
| DynamicArray.DynamicArray.PopBack | include/thesauros/containers/array/dynamic.hpp:266-269 | Removes the last element |
| DynamicArray.DynamicArray.EraseAt | include/thesauros/containers/array/dynamic.hpp:271-276 | Removes one element and keeps the order of the others |
| DynamicArray.DynamicArray.Erase | include/thesauros/containers/array/dynamic.hpp:282-289 | The elements after erasing a range, empty or not |
| DynamicArray.EraseIsRemovalIff | include/thesauros/containers/array/dynamic.hpp:277-289 | That is the removal of the range iff it is not empty or lies at the end |
| DynamicArray.EraseFails | include/thesauros/containers/array/dynamic.hpp:277-289 | Erasing nothing before the only element loses its value |
| DynamicArray.DynamicArray.InsertAny | include/thesauros/containers/array/dynamic.hpp:296-338 | The elements after opening a gap and padding the end, in place or not, and by how much the capacity grows |
| DynamicArray.DynamicArray.OpenGap | include/thesauros/containers/array/dynamic.hpp:305-318 | The shift across the end of the live elements leaves exactly the gap raw |
| DynamicArray.InsertAnyIsInsertionIff | include/thesauros/containers/array/dynamic.hpp:291-338 | That is the insertion of policy-created elements iff the gap is not empty, lies at the end, or the array reallocates |
| DynamicArray.InsertAnyFails | include/thesauros/containers/array/dynamic.hpp:291-338 | So does inserting nothing before it |
| DynamicArray.DynamicArray.Insert | include/thesauros/containers/array/dynamic.hpp:340-375 | Splices one value in, in place or not |
| DynamicArray.DynamicArray.Clear | include/thesauros/containers/array/dynamic.hpp:197-200 | Removes all elements and keeps the memory |
| DynamicArray.DynamicArray.ClearMemory | include/thesauros/containers/array/dynamic.hpp:201-205 | Every slot is raw when the memory is given back |
| PackedBytes.LoadIsValue | include/thesauros/containers/multi-byte-integers.hpp:613-624 | A full-word load returns the value of the element's own bytes and depends on no other, in both byte orders |
| PackedBytes.StoredValue | include/thesauros/containers/multi-byte-integers.hpp:626-640 | The first bytes of what is stored hold the value, cut off to the element's width |
| PackedBytes.LoadOfStore | include/thesauros/containers/multi-byte-integers.hpp:613-640 | Loading returns what was stored, whatever follows it in memory |
| MultiByteIntegers.WriteAppendsElement | include/thesauros/containers/multi-byte-integers.hpp:745-753 | A full-word store behind the last element appends exactly its value |
| MultiByteIntegers.MultiByteIntegers.ElemsAreInRange | include/thesauros/containers/multi-byte-integers.hpp:613-624 | The elements are as many as the size says, all below `256^k` |
| MultiByteIntegers.MultiByteIntegers.Get | include/thesauros/containers/multi-byte-integers.hpp:556-564 | Reading returns the element, within the bounds of the padded bytes |
| MultiByteIntegers.MultiByteIntegers.Set | include/thesauros/containers/multi-byte-integers.hpp:176-183 | Assignment replaces one element and no other |
| MultiByteIntegers.MultiByteIntegers.PushBack | include/thesauros/containers/multi-byte-integers.hpp:745-753 | Appends one element |
| MultiByteIntegers.MultiByteIntegers.PopBack | include/thesauros/containers/multi-byte-integers.hpp:756-760 | Removes the last one |
| MultiByteIntegers.MultiByteIntegers.Resize | include/thesauros/containers/multi-byte-integers.hpp:788-801 | Truncates, or appends copies of the value |
| MultiByteIntegers.MultiByteIntegers.Grow | include/thesauros/containers/multi-byte-integers.hpp:793-800 | The ascending overlapping stores leave all old elements and every new one right |
| MultiByteIntegers.MultiByteIntegers.Clear | include/thesauros/containers/multi-byte-integers.hpp:804-809 | Removes all elements |
| MultiByteIntegers.MultiByteIntegers.Assign | include/thesauros/containers/multi-byte-integers.hpp:812-815 | Leaves copies of the value only |
| MultiByteIntegers.MultiByteIntegers.InsertAny | include/thesauros/containers/multi-byte-integers.hpp:839-866 | Makes room before a position and at the end, with arbitrary elements there and all others kept in order |
| MultiByteIntegers.MultiByteIntegers.Insert | include/thesauros/containers/multi-byte-integers.hpp:890-894 | Splices one value in |
| MultiByteIntegers.MultiByteIntegers.InsertAll | include/thesauros/containers/multi-byte-integers.hpp:868-914 | Splices a sequence of values in |
| MultiByteIntegers.MultiByteIntegers.Erase | include/thesauros/containers/multi-byte-integers.hpp:924-939 | Removes a range; an empty one changes nothing |
| Divisor.DivIsExact | include/thesauros/math/divmod.hpp:73-75 | The multiply-shift quotient is the true one for every width, dividend and divisor, 1 included |
| Divisor.ModIsExact | include/thesauros/math/divmod.hpp:68-71 | So is the remainder |
| Divisor.DivModIsExact | include/thesauros/math/divmod.hpp:99-103 | So are both parts of `divmod` |
| Divisor.SplitIsWhole | include/thesauros/math/divmod.hpp:44-52 | The product in two parts neither overflows nor differs from the full product's upper bits |
| Divisor.IsDivisibleIsExact | include/thesauros/math/divmod.hpp:78-82 | Except in 8 bits, the test holds iff the remainder is 0 |
| Divisor.IsDivisibleNarrow | include/thesauros/math/divmod.hpp:78-82 | In 8 bits it holds iff the dividend is 0 and the divisor at least 2 |
| Divisor.IsDivisibleNarrowIff | include/thesauros/math/divmod.hpp:77-82 | So there it agrees with divisibility iff the dividend is no multiple, or 0 with a divisor of at least 2 |
| Divisor.IsDivisibleNarrowFails | include/thesauros/math/divmod.hpp:77-82 | 6 by 3 and 0 by 1 are instances of the failure |
| Segmentation.UniformSegmenter.UniformPartitions | include/thesauros/utility/index-segmentation.hpp:52-83 | The segments are contiguous, cover all indices, and `segment_of(i) == s` iff `i` lies in segment `s` |
| Segmentation.UniformSegmenter.Lengths | include/thesauros/utility/index-segmentation.hpp:57-65 | Lengths differ by at most one, longer ones first |
| Segmentation.UniformSegmenter.OfIsInside | include/thesauros/utility/index-segmentation.hpp:74-83 | `segment_of` yields an existing segment that the index lies in |
| Segmentation.OffsetPartitions | include/thesauros/utility/index-segmentation.hpp:115-138 | The partition law survives an offset, over any segmenter |
| Segmentation.OffsetLengths | include/thesauros/utility/index-segmentation.hpp:115-138 | Every segment is as long as that of the base |
| Segmentation.AffinePartitions | include/thesauros/utility/index-segmentation.hpp:152-176 | It survives an affine map, over any segmenter |
| Segmentation.AffineLengths | include/thesauros/utility/index-segmentation.hpp:152-176 | Every segment is `factor` times as long as that of the base |
| Segmentation.AffineUniformPartitions | include/thesauros/utility/index-segmentation.hpp:109-186 | Both hold of the uniform segmenter that the code extends |
| Segmentation.NoBlockIsSplit | include/thesauros/utility/index-segmentation.hpp:210-217 | Every boundary is a multiple of the block size or the end |
| Segmentation.BlockedLengths | include/thesauros/utility/index-segmentation.hpp:206-217 | A segment consists of as many whole blocks as that of the base, except that the last block ends with the indices |
| Segmentation.BlockedPartitionsIff | include/thesauros/utility/index-segmentation.hpp:206-229 | The blocked segmenter obeys the partition law iff the end of the last block can be represented, or the type is narrower than `int` |
| Segmentation.BlockedUniformPartitionsIff | include/thesauros/utility/index-segmentation.hpp:206-229 | The same of blocks that are distributed uniformly |
| Segmentation.BlockedCounterexample | include/thesauros/utility/index-segmentation.hpp:210-212 | 2^32 - 1 indices in blocks of 2^31 end where they begin |
| Segmentation.PaddedPartitions | include/thesauros/utility/index-segmentation.hpp:270-330 | The partition law survives padding of any segmenter that starts at 0 |
| Segmentation.PaddedLengths | include/thesauros/utility/index-segmentation.hpp:270-300 | The first segment is longer by `n0`, the last one by `n1`, and all others as long as those of the base |
| Segmentation.PaddedPartitionsIff | include/thesauros/utility/index-segmentation.hpp:252-262 | Over a segmenter of `[A, B)` it holds of `[A, B + n0 + n1)` iff `A == 0` |
| Segmentation.PaddedFails | include/thesauros/utility/index-segmentation.hpp:252-262 | Any segmenter moved to start at 1 is an instance of the failure |
| MixedRadix.IndexRoundTrip | include/thesauros/utility/multi-size.hpp:101-103 | `index_to_pos` lands in the box and `pos_to_index` undoes it |
| MixedRadix.PosRoundTrip | include/thesauros/utility/multi-size.hpp:74-76 | `pos_to_index` lands in the range and `index_to_pos` undoes it |
| MixedRadix.AxisIndexIsCoordinate | include/thesauros/utility/multi-size.hpp:105-115 | `index_to_axis_index` through the precomputed divisors is the coordinate in every dimension, the last with its divisor of 1 included, for dimensions known at run time and at compile time |
| MixedRadix.PositionToIndexIsFlat | include/thesauros/algorithms/static-ranges/position-to-index.hpp:22-27 | The dot product with the postfix products is the value in mixed radix |
| MixedRadix.FlatOfPosition | include/thesauros/algorithms/static-ranges/index-to-position.hpp:20-40 | The recursion over the dimensions yields digits of that value, coordinate 0 taking the rest |
| MixedRadix.PositionOfFlat | include/thesauros/algorithms/static-ranges/index-to-position.hpp:20-40 | They are the only digits of it |
| MixedRadix.DivisorsAreExact | include/thesauros/utility/multi-size.hpp:95-103 | With precomputed divisors the recursion yields the same position |
| IndexPositionWrapper.Wrapper.FromIndex | include/thesauros/utility/index-position-wrapper.hpp:125-128 | Starts with the position of the index |
| IndexPositionWrapper.Wrapper.FromPosition | include/thesauros/utility/index-position-wrapper.hpp:238-240 | Starts with the index of the position |
| IndexPositionWrapper.Wrapper.Increment | include/thesauros/utility/index-position-wrapper.hpp:130-145 | Any chain of carries, up to one past the end, keeps the position that of the index; every index moves by 1, modulo its width |
| IndexPositionWrapper.Wrapper.Decrement | include/thesauros/utility/index-position-wrapper.hpp:146-162 | Any chain of borrows does too, with wrapping coordinates in between; every index moves by -1 |
| IndexPositionWrapper.Wrapper.Jump | include/thesauros/utility/index-position-wrapper.hpp:164-179 | So do `+=` and `-=`, for both index managers; every index moves by the offset |
| IndexPositionWrapper.DifferenceIsKept | include/thesauros/utility/index-position-wrapper.hpp:82-97 | The two indices of the dual manager keep their difference as long as neither wraps |
| IndexPositionWrapper.ThereAndBack | include/thesauros/utility/index-position-wrapper.hpp:90-97 | After `+= off` and `-= off` every index is back, even if it has wrapped |
| CartesianProduct.Iterator.Next | include/thesauros/ranges/cartesian-product.hpp:235-245 | The next position, in the dimensions up to `N`, with those after it untouched |
| CartesianProduct.Iterator.Prev | include/thesauros/ranges/cartesian-product.hpp:248-258 | The previous one |
| CartesianProduct.Iterator.AdvanceFrom | include/thesauros/ranges/cartesian-product.hpp:261-293 | A jump by `delta` in the dimensions up to `N` stays normalized despite truncated division |
| CartesianProduct.Iterator.Advance | include/thesauros/ranges/cartesian-product.hpp:116-123 | `+= delta` reaches the position whose index is `delta` further on, and the distance between the two is `delta` |
| CartesianProduct.Iterator.Increment | include/thesauros/ranges/cartesian-product.hpp:79-83 | `++` reaches the next position |
| CartesianProduct.Iterator.Decrement | include/thesauros/ranges/cartesian-product.hpp:99-105 | `--` the previous one |
| CartesianProduct.JumpIsSteps | include/thesauros/ranges/cartesian-product.hpp:260-293 | A jump is as many single steps in the same direction |
| CartesianProduct.StaysValid | include/thesauros/ranges/cartesian-product.hpp:260-293 | Between valid positions a jump stays in the box |
| CartesianProduct.EndPosition | include/thesauros/ranges/cartesian-product.hpp:194-198 | A jump by what is left reaches the end: first coordinate at its end, all others at their beginning |
| CartesianProduct.DistanceIsDifference | include/thesauros/ranges/cartesian-product.hpp:306-319 | `distance_from` is the difference of the indices |
| CartesianProduct.ScaledSizeIsProduct | include/thesauros/ranges/cartesian-product.hpp:296-304 | `scaled_size` is the product of the sizes from `N` on |
| Tiling.Unroll | include/thesauros/algorithms/ranges/for-each-tile.hpp:108-128 | The backward loop visits exactly the pieces of the forward one, in reverse |
| Tiling.PiecesCoverOnce | include/thesauros/algorithms/ranges/for-each-tile.hpp:111-118 | The pieces cover the interval once, and are full iff they have the tile size |
| Tiling.ForEachTile | include/thesauros/algorithms/ranges/for-each-tile.hpp:150-185 | Over all dimensions too, backward is the exact reverse of forward |
| Tiling.TilesCoverOnce | include/thesauros/algorithms/ranges/for-each-tile.hpp:150-185 | Every position that has the given index on each fixed axis and lies in the range on every other one is in exactly one tile, every other position in none |
| TileOrder.PieceAt | include/thesauros/algorithms/ranges/for-each-tile.hpp:108-128 | Piece `k` begins `k` tile sizes after the beginning of the interval and ends with its tile size or the interval |
| TileOrder.TilesOnGrid | include/thesauros/algorithms/ranges/for-each-tile.hpp:130-181 | Every tile consists of one range per axis: the fixed index, or a step of the grid that begins with the range of the axis |
| TileOrder.TilesInOrder | include/thesauros/algorithms/ranges/for-each-tile.hpp:150-185 | Forward, the tiles come in the lexicographic order of their first positions |
| TileFlags.FullInAllDimensionsIff | include/thesauros/algorithms/ranges/for-each-tile.hpp:130-181 | The tiles called full are those full in all dimensions iff an axis is empty, the last one is shorter than a tile, or all others divide evenly |
| TileFlags.FullInAllDimensionsFails | include/thesauros/algorithms/ranges/for-each-tile.hpp:136-137 | One row of two cells in tiles of two by two is called full |
| TileCells.TileForEach | include/thesauros/algorithms/ranges/for-each-tile.hpp:252-286 | The scalar traversal of one tile, backward the exact reverse of forward |
| TileCells.CellsOnce | include/thesauros/algorithms/ranges/for-each-tile.hpp:259-285 | It visits every cell of the tile once and no other |
| TileCells.CellsIndexed | include/thesauros/algorithms/ranges/for-each-tile.hpp:264-270 | The index passed along is the dot product of the position with the strides |
| TileOrder.CellsInOrder | include/thesauros/algorithms/ranges/for-each-tile.hpp:238-286 | Forward, the cells of a tile come in lexicographic order |
| TileOrder.CellsInLinearOrder | include/thesauros/algorithms/ranges/for-each-tile.hpp:238-286 | With `after_size` as strides, a tile within the sizes is visited in the order of the flat index, as promised |
| TileCells.DotIsPositionToIndex | include/thesauros/utility/multi-size.hpp:62-76 | With `after_size` as strides that is `pos_to_index` |
| TileCells.VecRow | include/thesauros/algorithms/ranges/for-each-tile.hpp:323-369 | One row in vectors and tail, backward the exact reverse, without a tail where none is expected |
| TileCells.TileForEachVec | include/thesauros/algorithms/ranges/for-each-tile.hpp:305-374 | The vectorized traversal of one tile |
| TileCells.VectorsCoverCells | include/thesauros/algorithms/ranges/for-each-tile.hpp:305-374 | Its vectors and tails, taken apart, are the cells of the scalar traversal in the same order |
| TiledForEach.Scalar | include/thesauros/algorithms/ranges/for-each-tile.hpp:391-398 | The scalar tiled traversal, backward the exact reverse of forward, visits every position of the box once, the fixed indices included, and no other |
| TiledForEach.VisitsEveryCellOnce | include/thesauros/algorithms/ranges/for-each-tile.hpp:391-398 | In both directions it visits every position that has the fixed indices and lies in the other ranges once, every other position never, each with its flat index |
| TiledForEach.NoTail | include/thesauros/algorithms/ranges/for-each-tile.hpp:336 | In a full tile the divisibility assertion holds |
| TiledForEach.Vectorized | include/thesauros/algorithms/ranges/for-each-tile.hpp:421-439 | The vectorized tiled traversal satisfies the assertions on its way, and its vectors and tails, of the right lengths, cover every position of the box once and no other |
| TiledForEach.VectorsCoverTheBox | include/thesauros/algorithms/ranges/for-each-tile.hpp:421-439 | Its vectors and tails cover the cells of the scalar one in the same order |
| TiledForEach.VectorsVisitOnce | include/thesauros/algorithms/ranges/for-each-tile.hpp:421-439 | The same in both directions, as a statement about the positions of the box |
| TiledForEach.VectorsAreSized | include/thesauros/algorithms/ranges/for-each-tile.hpp:421-439 | Over the whole box full visits have exactly the vector size, tails at least one cell and fewer |
| Utf8.RejectionAbsorbs | include/thesauros/charconv/unicode.hpp:57-67 | Nothing leads out of the rejecting state |
| Utf8.CodePointFits | include/thesauros/charconv/unicode.hpp:34-75 | The code point stays a 32-bit number, whatever the bytes are |
| Utf8.RunWellFormed | include/thesauros/charconv/unicode.hpp:34-75 | A well-formed sequence of section 4 of RFC 3629 leads back to accepting and completes exactly its code point |
| Utf8.AcceptedIsEncoded | include/thesauros/charconv/unicode.hpp:34-75 | An accepted text is the encoding of the code points produced, which are scalar values |
| Utf8.EncodedIsAccepted | include/thesauros/charconv/unicode.hpp:34-75 | The encoding of scalar values is accepted and produces them |
| Utf8.AcceptsIffEncoded | include/thesauros/charconv/unicode.hpp:34-75 | A byte string is accepted iff it encodes some sequence of scalar values |
| Utf8.UnicodeDecoder.Decode | include/thesauros/charconv/unicode.hpp:34-75 | One byte is one step of the automaton |
| Utf8.UnicodeDecoder.DecodeFirst | include/thesauros/charconv/unicode.hpp:78-93 | From any state the decoder has been left in, yields the first code point completed and the rest, and throws iff none is; between texts that is the code point the text begins with, and after a rejection it always throws |
| Utf8.DecodeAll | include/thesauros/charconv/unicode.hpp:113-131 | Iterating yields the code points the text encodes, and throws iff the text is not well-formed |
| StringEscape.EscapeString | include/thesauros/charconv/string-escape.hpp:42-86 | Throws iff the input is not well-formed; otherwise writes it with every byte replaced on its own, which is the encoding of the escaped code points |
| StringEscape.EscapedBytewise | include/thesauros/charconv/string-escape.hpp:42-86 | Escaping code point by code point and replacing byte by byte is the same |
| StringEscape.PlainIsUnchanged | include/thesauros/charconv/string-escape.hpp:66-78 | A text without control characters, quotes and backslashes is written as it is |
| StringEscape.ShortEscapes | include/thesauros/charconv/string-escape.hpp:27-38 | Wherever they stand, the seven characters of `escape_char` are written as a backslash and their letter |
| StringEscape.NumericEscapes | include/thesauros/charconv/string-escape.hpp:58-65 | Any other control character is written as `\u00` and two upper-case digits |
| StringEscape.OthersAreKept | include/thesauros/charconv/string-escape.hpp:66-78 | Every other byte is written as it is |
| StringEscape.AtMostSixfold | include/thesauros/charconv/string-escape.hpp:101-109 | The output is at most six times as long as the input |
| StringEscape.EncodedIsClean | include/thesauros/charconv/string-escape.hpp:89-96 | No control byte is left and every quote is escaped, as longer sequences contain no small bytes |
| StringEscape.UnescapeUndoes | include/thesauros/charconv/string-escape.hpp:27-38 | Unescaping by section 7 of RFC 8259 undoes the escaping |
| StringEscape.EscapedIsFaithful | include/thesauros/charconv/string-escape.hpp:42-96 | The output is well-formed, clean, at most sixfold, and stands for exactly the input |
| Factorization.Factorize | include/thesauros/math/factorization.hpp:77-104 | Emits prime powers of ascending primes whose product is the number, in spite of wrapping squares |
| Factorization.WheelStep | include/thesauros/math/factorization.hpp:92-94 | The wheel skips multiples of 2, 3 and 5 only |
| Factorization.StaysInRange | include/thesauros/math/factorization.hpp:94 | The candidate itself never wraps |
| Factorization.TestIsExact | include/thesauros/math/factorization.hpp:94 | As long as the square of the candidate can be represented, the loop goes on iff that does not exceed what is left |
| Factorization.NarrowSquaresFit | include/thesauros/math/factorization.hpp:94 | In 8 and 16 bits the squares, computed in `int`, never overflow it |
| Factorization.NotTheLast | include/thesauros/math/factorization.hpp:94 | At the one candidate after which it would, the loop divides nothing out and the rest is not 1 |
| Factorization.FactorizeFlat | include/thesauros/math/factorization.hpp:52-75 | The flat list is a non-descending list of primes whose product is the number |
| Factorization.FactorizeMap | include/thesauros/math/factorization.hpp:107-110 | The map holds exactly the multiplicities of the flat list |
| Factorization.EmplacedOnce | include/thesauros/math/factorization.hpp:32-36 | No key is emplaced twice |
| Factorization.FactorizationIsUnique | include/thesauros/math/factorization.hpp:77-104 | There is only one such list |

## Left out

- Weak memory orders: atomics are sequentially consistent, and a failed spin iteration or a park is one step.
- The wrap-around of the epoch after 2^48 regions, and task bodies that do not terminate.
- A critical section of `FixedStdThreadPool` is a single step, since the variables in it are never accessed outside the mutex; its tasks do not throw, as an exception would end the program.
- The OpenMP pool, whose behaviour is in code that is not part of this model.
- `execute_segmented` is modelled by the segments it hands out, one per thread.
- Input and output of the scan are distinct; scanning in place is not modelled.
- The exception safety of `DynamicArray`, allocation failure, allocators, copy and move of whole arrays, and the `NoInit` policy; an initialization policy creates elements of one given value.
- MultiByteIntegers.MultiByteIntegers.InsertAll: a source range inside the array itself is not modelled; its iterators are no longer valid once the gap is open.
- The byte array below `MultiByteIntegers` is a sequence of bytes, whose new bytes are arbitrary; its capacity, `reserve` and `shrink_to_fit`, sub-ranges, set_all and optional elements are left out.
- The overflow of scaled sizes and of distances in the cartesian product, whose `difference_type` is an unbounded integer here.
- The overflow of `i + tile_size` at the very end of the index type in the tiled traversals, and of the results of offset, affine and padded segmenters.
- Multi-bit integers, set algorithms, integer square roots and the box tessellation: further components of the same kind.
- CPU sets and affinities, files, formatting, JSON layout, static ranges and other metaprogramming: operating system, output, or code without run-time content.
