# Search and sort engine of SearchSortGUI

A Dafny model of the algorithm engine behind the "Search & Sort Analyzer" window
(`SearchSortGUI.java`). The user types a comma-separated list of integers, picks one of
twelve selector entries and presses "Run Algorithm". The engine then runs one of the
following on the parsed `int[]`:

- two searches: linear search, and binary search after a library sort;
- ten sorts, all in place (counting sort also returns the array it sorted):
  selection, insertion, merge, bubble, quick (Lomuto partition), shell, least-significant-digit
  radix, heap, "Nearly Sorted" (which is insertion sort again) and counting sort.

Every routine is an imperative Dafny method over `array<int>` that follows the Java loop for
loop. Helper methods carry the loops that Java nests. Each method is proved against a
specification:

- Every sort except radix sort leaves the array non-decreasing (`SortSpec.Sorted`) and a
  permutation of its input (`multiset`). Radix sort does so on non-negative input
  (`Radix.RadixSortsNonNegative`). On negative input it may throw or leave the array unsorted.
- Merge and quick sort leave everything outside the window they are given untouched.
- Merge writes exactly the stable merge `MergeSorting.Merged` of its two halves.
- One radix pass writes exactly the stable per-digit bucket order `Radix.ByDigit`. Radix
  sort as a whole writes `Radix.RadixResult`, a function that also records the Java
  exception that a negative element can raise.
- Counting sort writes exactly `Counting.CountingResult`, the runs of every value of
  `[min, max]`.

Lemmas about these specification functions state what the code promises: sorted,
permutation, stable, uniqueness of the sorted result, when radix sort throws, and what it
leaves alone.

Module layout:

- `SortSpec`: what sorted means, multiset facts, and Java's `max().orElse(0)` and
  `min().orElse(0)`.
- `Arith`: integer division facts.
- `Searches`, `SimpleSorts`, `MergeSorting`, `QuickSorting`, `Heaps`, `Radix` and
  `Counting`: one module per algorithm family.
- `Engine`: the selector and the dispatch of `actionPerformed`.

Java's `/` and `%` truncate toward zero. Radix sort computes digits of possibly negative
values, so the model writes them out (`Radix.JavaDiv`, `Radix.JavaRem`). The array index
Java would use is `Radix.Digit`.

## Model

| member | source | states |
|---|---|---|
| Searches.LinearSearch | SearchSortGUI.java:213-218 | The result is -1 or an index of `x` with no earlier occurrence. It is -1 exactly when `x` does not occur. |
| Searches.Midpoint | SearchSortGUI.java:223 | `l + (r - l) / 2` lies in `[l, r]`, splitting the window into halves that differ in length by at most one. |
| Searches.BinarySearch | SearchSortGUI.java:220-229 | A non-negative result is a position holding `x`. On a sorted array the result is -1 exactly when `x` is absent. |
| SimpleSorts.Swap | SearchSortGUI.java:237 | Exchanges two cells. Nothing else changes, and the multiset is kept. |
| SimpleSorts.SelectionSort | SearchSortGUI.java:231-239 | The array ends sorted and a permutation of its input. |
| SimpleSorts.BubblePass | SearchSortGUI.java:273-276 | After pass `i` the last `i + 1` cells are sorted, and none of them is below any earlier cell. The multiset is kept, and the `i` cells settled by earlier passes do not move. |
| SimpleSorts.BubbleStep | SearchSortGUI.java:274-275 | One comparison moves the largest element seen so far in the pass on to `j + 1`. The settled suffix stays settled, the multiset is kept, and only cells `j` and `j + 1` can change. |
| SimpleSorts.BubbleSort | SearchSortGUI.java:271-277 | The array ends sorted and a permutation of its input. |
| SimpleSorts.ShiftLarger | SearchSortGUI.java:244-248 | Every element of `a[j+1..i)` larger than the key moves up one cell, leaving a hole at `j + 1`. Any element below the hole is at most the key. |
| SimpleSorts.ShiftOne | SearchSortGUI.java:246-247 | One iteration of the shifting loop: an element larger than the key moves up into the hole, and the hole moves down one cell. |
| SimpleSorts.ShiftStep | SearchSortGUI.java:246 | Copying the cell below the hole into the hole moves the hole down one place and keeps the shifted-state invariant. |
| SimpleSorts.InsertedInOrder | SearchSortGUI.java:249 | Dropping the key into the hole makes `a[..i+1]` sorted and a permutation of the array before the step. The cells after `i` are untouched. |
| SimpleSorts.InsertKey | SearchSortGUI.java:243-249 | One outer step extends the sorted prefix by one cell and keeps the multiset. The cells after `i` do not change. |
| SimpleSorts.InsertionSort | SearchSortGUI.java:241-251 | The array ends sorted and a permutation of its input. |
| SimpleSorts.ShiftChain | SearchSortGUI.java:303-304 | On the chain `i, i - gap, …`, every element larger than `temp` moves up one step of the chain. Any chain element below the hole is at most `temp`. |
| SimpleSorts.GapShiftStep | SearchSortGUI.java:304 | One copy `arr[j] = arr[j - gap]` moves the hole down the chain and keeps the invariant. |
| SimpleSorts.GapInsertedInOrder | SearchSortGUI.java:305 | Dropping `temp` into the hole leaves every pair `gap` apart below `i + 1` in order, and keeps the multiset. The cells after `i` are untouched. |
| SimpleSorts.PairInOrder | SearchSortGUI.java:305 | The pair-by-pair case of the previous lemma: one pair `gap` apart is in order after the insertion. |
| SimpleSorts.GapInsert | SearchSortGUI.java:302-305 | Every pair `gap` apart below `i + 1` is in order, and the multiset is kept. The cells after `i` do not change. |
| SimpleSorts.GapPass | SearchSortGUI.java:301-306 | After a pass every pair `gap` apart is in order, and the multiset is kept. |
| SimpleSorts.ShellSort | SearchSortGUI.java:299-307 | The array ends sorted and a permutation of its input. The final `gap == 1` pass is what makes it sorted. |
| SortSpec.AdjacentSortedIsSorted | SearchSortGUI.java:300 | Adjacent pairs in order (a gap of 1) imply the whole prefix is sorted. This closes insertion and shell sort. |
| SortSpec.SortedUnique | SearchSortGUI.java:112 | Two sorted permutations of each other are equal. In particular the library sort before binary search yields the same array as the model's quick sort. |
| SortSpec.HeadIsLeast | SearchSortGUI.java:112 | The head of a sorted sequence is at most every element of any permutation of it. |
| SortSpec.WindowMultiset | SearchSortGUI.java:253-297 | If a change keeps the whole multiset and touches only a window, it keeps the window's multiset. |
| SortSpec.UpperBoundFromMultiset | SearchSortGUI.java:330-331 | A permutation of a sequence bounded above has the same bound. |
| SortSpec.BoundsFromMultiset | SearchSortGUI.java:309-312 | A permutation of a sequence bounded below and above has the same bounds. |
| SortSpec.MaxOrZero | SearchSortGUI.java:310 | Returns 0 on an empty array. Otherwise returns an element that is at least every element. |
| SortSpec.MinOrZero | SearchSortGUI.java:347 | Returns 0 on an empty array. Otherwise returns an element that is at most every element. |
| MergeSorting.Merged | SearchSortGUI.java:262-269 | Defines the merge the three loops compute: the smaller head first, the left one on ties, then the rest of the other side. The `Merged…` lemmas below state its properties. |
| MergeSorting.Origins | SearchSortGUI.java:266-268 | Defines which side each merged element comes from; `MergeSorting.MergedInterleaves` and `MergeSorting.MergedStable` use it. |
| MergeSorting.MergedPermutes | SearchSortGUI.java:262-269 | The merge of `L` and `R` is as long as `L` and `R` together, and its multiset is the union of theirs. |
| MergeSorting.MergedSorted | SearchSortGUI.java:262-269 | The merge of two sorted runs is sorted. |
| MergeSorting.HeadBelowMerged | SearchSortGUI.java:266 | A lower bound of both runs bounds their merge. |
| MergeSorting.MergedInterleaves | SearchSortGUI.java:266-268 | The merge is an interleaving. The elements it took from the left, in order, are exactly `L`, and those from the right are exactly `R`. |
| MergeSorting.AllOneSide | SearchSortGUI.java:267-268 | When only one side remains, that side is copied as it is. |
| MergeSorting.LeftOriginInLeft | SearchSortGUI.java:266 | An element recorded as taken from the left is an element of `L`. |
| MergeSorting.MergedStable | SearchSortGUI.java:266 | Stability (`L[i] <= R[j]` takes the left on ties): a right element is placed before a left element only when it is strictly smaller. |
| MergeSorting.MergeHeads | SearchSortGUI.java:265-266 | The first loop writes the merge's prefix until one run is used up. |
| MergeSorting.CopyLeftRest | SearchSortGUI.java:267 | The second loop copies the rest of `L`, continuing the merge. |
| MergeSorting.CopyRightRest | SearchSortGUI.java:268 | The third loop copies the rest of `R`, completing the merge. |
| MergeSorting.WriteStep | SearchSortGUI.java:266-268 | One `arr[k++] = …` extends the written prefix of the merge. |
| MergeSorting.WrittenAll | SearchSortGUI.java:262-269 | Once every element is written, the window holds exactly the merge. |
| MergeSorting.TakeLeft | SearchSortGUI.java:266 | When `L[i] <= R[j]` or `R` is used up, the next merged element is `L[i]`. |
| MergeSorting.TakeRight | SearchSortGUI.java:266 | When `R[j] < L[i]` or `L` is used up, the next merged element is `R[j]`. |
| MergeSorting.Merge | SearchSortGUI.java:262-269 | `arr[l..r]` becomes exactly the stable merge of its two halves `[l, m]` and `[m+1, r]`. Nothing else changes. |
| MergeSorting.SplitMergeSorts | SearchSortGUI.java:253-260 | Sorting both halves and merging them sorts the window and keeps its multiset. |
| MergeSorting.MergeSort | SearchSortGUI.java:253-260 | The window `[l, r]` ends sorted and a permutation of what it held. Nothing outside changes. |
| QuickSorting.Partition | SearchSortGUI.java:287-297 | The returned index holds the old `arr[high]`. Everything before it in the window is strictly smaller, and everything after it is at least the pivot. The window keeps its multiset, and the rest is untouched. |
| QuickSorting.SortedAroundPivot | SearchSortGUI.java:279-285 | Sorting the two sides of a partitioned window sorts the window and keeps its multiset. |
| QuickSorting.QuickSort | SearchSortGUI.java:279-285 | The window `[low, high]` ends sorted and a permutation of what it held. Nothing outside changes. |
| Heaps.Heapify | SearchSortGUI.java:335-343 | Suppose the only heap-order defect at or below `lo` is at node `i`. After the call, every edge from `lo` on is in heap order. Only cells of `[i, n)` move, and the multiset is kept. A node already at least its children is left as it is. |
| Heaps.NodeInOrder | SearchSortGUI.java:339 | When `largest == i`, the node closes the only gap, and the heap is restored. |
| Heaps.SwapDown | SearchSortGUI.java:340-341 | Swapping a node with its larger child fixes the node's edges and moves the only possible defect to the child. |
| Heaps.HeapRootIsMax | SearchSortGUI.java:329-330 | The root of a max-heap is at least every element of the heap. |
| Heaps.BuildHeap | SearchSortGUI.java:328 | After heapifying every inner node from `n/2 - 1` down to 0, the whole array is a max-heap. The multiset is kept. |
| Heaps.ExtractMax | SearchSortGUI.java:329-332 | Swapping the root behind the heap and re-heapifying shrinks the heap by one. The sorted suffix grows by one and stays above every heap element. |
| Heaps.HeapSort | SearchSortGUI.java:326-333 | The array ends sorted and a permutation of its input. |
| Arith.DivNonNegative | SearchSortGUI.java:311 | A non-negative value divided by a positive one is non-negative. |
| Arith.DivSmall | SearchSortGUI.java:311 | `v / e == 0` when `0 <= v < e`. |
| Arith.SmallMultipleIsZero | SearchSortGUI.java:317 | A multiple of `e` strictly between `-e` and `e` is 0. |
| Arith.DivModUnique | SearchSortGUI.java:317 | Quotient and remainder are determined by `v == q * e + r` with `0 <= r < e`. |
| Arith.ModMinusModulus | SearchSortGUI.java:303-305 | Subtracting the modulus does not change a remainder: a cell one `gap` below a chain link is on the same chain. |
| Arith.NoMultipleBetween | SearchSortGUI.java:303-305 | No multiple of `e` lies strictly between two consecutive multiples: no chain link lies strictly between two neighbouring links. |
| Arith.MulMonotone | SearchSortGUI.java:311 | Multiplying by a positive factor keeps `<=`. |
| Arith.DivPositive | SearchSortGUI.java:311 | `v / g > 0` when `0 < g <= v`, which is the radix loop's condition. |
| Radix.JavaDiv | SearchSortGUI.java:317 | Defines Java's `/`, rounding toward zero; `Radix.JavaDivision` states its meaning. |
| Radix.JavaRem | SearchSortGUI.java:317 | Defines Java's `%`, with the sign of the dividend; `Radix.JavaDivision` states its meaning. |
| Radix.JavaDivision | SearchSortGUI.java:317 | `x == (x / d) * d + x % d` in Java's arithmetic. The remainder lies in `[0, d)` for a non-negative dividend and in `(-d, 0]` for a negative one. |
| Radix.Digit | SearchSortGUI.java:317 | Java's `(value / exp) % 10` lies strictly between -10 and 10. |
| Radix.DigitOfSmall | SearchSortGUI.java:317 | For `value > -exp` the digit is a valid index (at least 0). For `value >= 0` it equals the mathematical `(v / exp) % 10`. |
| Radix.Bucket | SearchSortGUI.java:317-322 | Defines the elements whose digit is `d`, in input order. The `Bucket…` lemmas below state its properties. |
| Radix.Buckets | SearchSortGUI.java:318-322 | Defines buckets `0 .. D - 1` laid end to end. |
| Radix.ByDigit | SearchSortGUI.java:314-324 | Defines what one pass writes back: all ten buckets in digit order. `Radix.ByDigitStable`, `Radix.ByDigitPermutes` and `Radix.PassSortsNextDigit` state its properties. |
| Radix.BucketConcat | SearchSortGUI.java:317-322 | Bucket `d` of a concatenation is the concatenation of the buckets. |
| Radix.BucketOfBucket | SearchSortGUI.java:317-322 | Bucket `d` of bucket `e` is bucket `e` when `d == e`, and empty otherwise. |
| Radix.BucketMembers | SearchSortGUI.java:317-322 | Every element of bucket `d` has digit `d` and comes from the input. |
| Radix.BucketOfBuckets | SearchSortGUI.java:317-322 | Bucket `d` of the first `D` buckets laid end to end is bucket `d` of the input when `d < D`, and empty otherwise. |
| Radix.ByDigitStable | SearchSortGUI.java:319-322 | Per-digit stability: the elements with digit `d` appear in the pass's output in their input order. |
| Radix.BucketMultiset | SearchSortGUI.java:317 | How one more element changes a bucket's multiset. |
| Radix.BucketsCons | SearchSortGUI.java:317-322 | How one more element changes the multiset of the first `D` buckets. |
| Radix.BucketsOfEmpty | SearchSortGUI.java:315-316 | An empty array has empty buckets. |
| Radix.ByDigitPermutes | SearchSortGUI.java:314-324 | When every digit is a valid index, a pass yields a permutation of its input of the same length. |
| Radix.BucketsOrderedByDigit | SearchSortGUI.java:318-322 | The pass's output is ordered by digit. |
| Radix.LowPartSplit | SearchSortGUI.java:311-317 | For `v >= 0`: `v % (10 e) == digit * e + v % e`, with the digit in `[0, 10)`. |
| Radix.LowPartOrder | SearchSortGUI.java:311-317 | A smaller digit means a smaller low part `v % (10 e)`. Equal digits order the low parts as `v % e` orders them. |
| Radix.BucketSortedMod | SearchSortGUI.java:319-322 | A bucket keeps the order by `v % e` that its input had. |
| Radix.BucketsMembers | SearchSortGUI.java:319-322 | Every element of the laid-out buckets comes from the input. |
| Radix.BucketsSortedMod | SearchSortGUI.java:319-322 | Laid-out buckets of an input ordered by `v % e` are ordered by `v % (10 e)`. |
| Radix.PassSortsNextDigit | SearchSortGUI.java:311-324 | Each pass sorts one more digit: the input must be non-negative and ordered by `v % exp`, and the output is ordered by `v % (10 exp)`. |
| Radix.BucketSnoc | SearchSortGUI.java:317 | Bucket of `s + [x]`: the bucket of `s`, then `x` if its digit matches. |
| Radix.BucketCons | SearchSortGUI.java:319-322 | Bucket of `[x] + s`: `x` if its digit matches, then the bucket of `s`. |
| Radix.Starts | SearchSortGUI.java:318 | The offsets where each digit's bucket begins in the output. The last offset is the output length. |
| Radix.BucketsGrow | SearchSortGUI.java:318 | Taking more buckets never shortens the laid-out output. |
| Radix.StartsGrow | SearchSortGUI.java:318 | The offsets of the buckets are non-decreasing. |
| Radix.CountDigits | SearchSortGUI.java:317 | The tally fails (Java's `ArrayIndexOutOfBoundsException`) exactly when some digit is negative. Otherwise `count[d]` is the size of bucket `d`. |
| Radix.PrefixSums | SearchSortGUI.java:318 | `count[d]` becomes the end offset of bucket `d`. |
| Radix.PlaceInit | SearchSortGUI.java:319 | The backward placement invariant holds before the first step. |
| Radix.PlaceRoom | SearchSortGUI.java:320 | `count[digit] - 1` is a valid output index. |
| Radix.WriteBelow | SearchSortGUI.java:320 | Writing just below a filled range prepends to it. |
| Radix.WriteOutside | SearchSortGUI.java:320 | Writing outside a range leaves the range alone. |
| Radix.PlaceStepAt | SearchSortGUI.java:320-321 | One backward step keeps each digit's part of the placement invariant. |
| Radix.PlaceStep | SearchSortGUI.java:319-322 | One backward step keeps the placement invariant. |
| Radix.Assemble | SearchSortGUI.java:319-323 | Filled bucket ranges laid end to end are the laid-out buckets. |
| Radix.PlaceDone | SearchSortGUI.java:322-323 | When the backward loop ends, the output is exactly the stable per-digit order `ByDigit`. |
| Radix.PlaceOne | SearchSortGUI.java:320-321 | One iteration of the backward loop keeps the placement invariant with `i` one lower. |
| Radix.PlaceBackwards | SearchSortGUI.java:319-322 | The backward loop fills `output` with exactly `ByDigit(arr, exp)`. |
| Radix.CountingSortByDigit | SearchSortGUI.java:314-324 | Throws exactly when some digit is negative, and then leaves `arr` unchanged. Otherwise `arr` becomes exactly `ByDigit(arr, exp)`. |
| Radix.RadixFrom | SearchSortGUI.java:310-311 | Defines the passes from `exp` on, run while `max / exp > 0`, with `None` for a pass that throws. `Radix.RadixFromSorts` and `Radix.RadixFromPermutes` state its properties. |
| Radix.RadixResult | SearchSortGUI.java:309-312 | Defines what `radixSort` computes from the whole array, starting at `exp = 1`. |
| Radix.QuotientPositive | SearchSortGUI.java:311 | `max / exp > 0` implies `exp <= max`, so the loop terminates. |
| Radix.Pow10 | SearchSortGUI.java:311 | `exp` is always a positive power of ten. |
| Radix.Pow10Grows | SearchSortGUI.java:311 | Powers of ten grow strictly. |
| Radix.NextPowerBounded | SearchSortGUI.java:311 | A power of ten below `10^9` stays at most `10^9` after `exp *= 10`. |
| Radix.RadixSort | SearchSortGUI.java:309-312 | Returns normally exactly when `RadixResult` is defined, and then the array is that result. The multiset is kept either way. |
| Radix.SmallIsLowPart | SearchSortGUI.java:311 | Once `exp` exceeds every element, `v % exp == v`, so order by low part is full order. |
| Radix.RadixFromSorts | SearchSortGUI.java:309-312 | On non-negative input already ordered by `v % exp`, the remaining passes do not throw and end sorted, a permutation. |
| Radix.RadixSortsNonNegative | SearchSortGUI.java:309-312 | On non-negative input radix sort does not throw and yields a sorted permutation. |
| Radix.RadixFromPermutes | SearchSortGUI.java:309-312 | When the passes do not throw, they yield a permutation. |
| Radix.RadixNonPositiveMax | SearchSortGUI.java:310-311 | When the maximum is at most 0, or the array is empty, no pass runs and the array is unchanged. |
| Radix.RadixThrowsOnNegative | SearchSortGUI.java:311-317 | Suppose the maximum is positive and some element is negative with last digit not 0. Then the first pass throws. |
| Radix.RadixExampleThrows | SearchSortGUI.java:309-317 | `[-5, 10, 3]` throws. |
| Radix.LaterExampleFirstPass | SearchSortGUI.java:314-324 | The first pass over `[-10, 50]` finds digit 0 for both elements and keeps their order. |
| Radix.RadixLaterPassThrows | SearchSortGUI.java:309-317 | `[-10, 50]` throws in the second pass, where the digit of -10 is -1. |
| Radix.NegativeExamplePass | SearchSortGUI.java:314-324 | The single pass over `[-1000, 5, -2000]` finds only valid digits (0, 5, 0) and writes `[-1000, -2000, 5]`. |
| Radix.RadixNegativeUnsorted | SearchSortGUI.java:309-312 | `[-1000, 5, -2000]` does not throw: radix sort returns `[-1000, -2000, 5]`, which is not sorted. |
| Counting.Runs | SearchSortGUI.java:352-353 | Defines what the write-back loop produces for the values `lo .. hi - 1`: each value repeated as often as it occurs. The `Runs…` lemmas below state its properties. |
| Counting.CountingResult | SearchSortGUI.java:345-355 | Defines the array `countingSort` produces: the runs of the whole range `[min, max]`. `Counting.CountingSortSorts` and `Counting.CountingSortUnique` state its properties. |
| Counting.Repeat | SearchSortGUI.java:353 | `k` copies of `v`. |
| Counting.RepeatMultiset | SearchSortGUI.java:353 | A run of `k` copies of `v` holds `v` exactly `k` times. |
| Counting.RunsSplit | SearchSortGUI.java:352-353 | The runs of `[lo, hi)` are the runs of `[lo, mid)` followed by those of `[mid, hi)`. |
| Counting.RunsNext | SearchSortGUI.java:352-353 | The next value's run follows the runs so far and is taken from the runs still to come. |
| Counting.RunsSorted | SearchSortGUI.java:351-354 | The runs are non-decreasing and lie in `[lo, hi)`. |
| Counting.RunsMultiset | SearchSortGUI.java:350-354 | Each value of `[lo, hi)` occurs in the runs as often as it was counted, and no other value occurs. |
| Counting.RunsPermutes | SearchSortGUI.java:350-354 | When every element lies in `[lo, hi)`, the runs are a permutation of the input. |
| Counting.CountingSortSorts | SearchSortGUI.java:345-355 | The result is sorted, a permutation of the input, and within `[min, max]`. |
| Counting.CountingSortEmpty | SearchSortGUI.java:346-348 | An empty array stays empty: the range is `[0, 0]` with nothing counted. |
| Counting.CountingSortUnique | SearchSortGUI.java:345-355 | Counting sort computes the same array as any other sort of the engine. |
| Counting.RangeOfInput | SearchSortGUI.java:346-349 | `min <= max`, every element lies in `[min, min + range)`, and the runs of the range are as long as the input. |
| Counting.Tally | SearchSortGUI.java:350 | `count[v - min]` becomes the number of occurrences of `v`. |
| Counting.WriteRun | SearchSortGUI.java:353 | The inner loop writes `count[i]` copies of `i + min` from `idx` on. It leaves the cells after the run and the other counters alone. |
| Counting.WriteRuns | SearchSortGUI.java:351-354 | The outer loop overwrites the array with exactly the runs of the whole range. |
| Counting.CountingSort | SearchSortGUI.java:345-355 | Returns the same array object, which becomes exactly `CountingResult` of its input. |
| Engine.Label | SearchSortGUI.java:12-17 | Defines the selector text of each entry; `Engine.LabelsSelect` states its properties. |
| Engine.FromLabel | SearchSortGUI.java:96-97 | Defines the `switch` on the selected text, with `None` for a text no case matches; `Engine.LabelsSelect` states its properties. |
| Engine.LabelsSelect | SearchSortGUI.java:12-17 | Every selector text selects its entry, and only an entry's own text selects it. |
| Engine.SelectorComplete | SearchSortGUI.java:12-17 | The selector list `Engine.Algorithms` has twelve entries, in the order of lines 12-17, each listed exactly once. |
| Engine.RoutineOf | SearchSortGUI.java:96-206 | Only the two search entries run no sort routine. |
| Engine.RoutineShared | SearchSortGUI.java:135-139 | Two distinct sort entries share a routine only for "Insertion Sort" and "Nearly Sorted" (lines 191-193). |
| Engine.Search | SearchSortGUI.java:97-125 | Linear search leaves the array alone. Binary search sorts it first, even when the target is invalid. An unparsable target gives the error message. Otherwise the answer is -1 exactly when the target is absent, and else a position of it. |
| Engine.SortBy | SearchSortGUI.java:127-205 | Each sort entry other than radix sort shows its sorted permutation. Counting sort shows `CountingResult`. Radix sort shows `RadixResult`, or nothing when it throws. |
| Engine.Run | SearchSortGUI.java:96-206 | The dispatch of `actionPerformed`: each of the twelve entries with the guarantees of `Engine.Search` and `Engine.SortBy`, including linear search's first occurrence. |

## Left out

- Reading the text fields is not modelled: the empty-input message, the split on commas, `Integer.parseInt` and its error message. The model starts from the parsed array. An unparsable search target is `None`.
- Timing with `System.nanoTime`, the result texts, the complexity strings and the Swing window are not modelled. They do not affect what the algorithms compute.
- `Arrays.sort` before binary search is library code. It is modelled by the engine's verified quick sort. `SortSpec.SortedUnique` shows any correct sort gives the same array.
- Java's 32-bit `int` is not modelled in general: elements and indices are unbounded integers. Most sums and indices the routines form lie between -1 and the array length, or between two elements, so they fit in an `int`. The four exceptions are listed below.
- Radix.RadixSort: requires every element to be below `10^9`. Otherwise `exp *= 10` could overflow a Java `int` and loop with a wrapped exponent, which is not modelled.
- Counting.CountingSort: requires `max - min < 2^31 - 1`. Otherwise `range = max - min + 1` overflows, or the counter array cannot be allocated.
- MergeSorting.MergeSort: `m = (l + r) / 2` at line 255 overflows once `l + r` exceeds `2^31 - 1`, which needs an array longer than `2^30`. Java then computes a negative midpoint and throws. The model computes the exact midpoint and sorts arrays of every length.
- Heaps.Heapify: `2 * i + 1` and `2 * i + 2` at line 336 wrap to negative values once a sift reaches a node at or above `2^30 - 1`, which needs an array of at least `2^30` cells. Java then throws on `arr[l]` or `arr[r]`. The model, and with it Heaps.HeapSort and Engine.Run, sorts arrays of every length.
- Counting.WriteRun: Java's `while (count[i]-- > 0)` leaves each counter at -1 rather than 0. The counter array is local to the sort, so the model does not state its final contents.
- MergeSorting.MergeSort, QuickSorting.QuickSort and Heaps.Heapify require their index arguments to lie within the array. Every call in the source satisfies this. Java would throw on other arguments, which no call supplies.
- MergeSorting.Merge: the copies `L` and `R` of `Arrays.copyOfRange` are sequences, because they are never updated in place.
- When a later radix pass throws, Java leaves the array as the earlier passes made it. Radix.RadixSort states only that the multiset is kept in that case. Nothing is shown then, because the exception escapes `actionPerformed`.
- Radix sort on `[-5, 10, 3]` throws: the digit of -5 is -5, and that count index is out of bounds (`Radix.RadixExampleThrows`).
- Radix sort on negative input does not always throw. For example, in `[-1000, 5, -2000]` only the last digit is examined, and the negative elements have digit 0 there. The result `[-1000, -2000, 5]` is not sorted (`Radix.RadixNegativeUnsorted`). `Radix.RadixThrowsOnNegative` covers a throw in the first pass. A throw in a later pass follows from the definition of `Radix.RadixResult`, shown for `[-10, 50]` (`Radix.RadixLaterPassThrows`). The non-throwing case is stated only for the example above.
