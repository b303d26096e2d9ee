# linear-median, modelled in Dafny

This project models the `linear-median` library (`src/lib.rs`), which does order-statistic selection on slices of numbers:

- `quickselect` finds the element of rank `k`, the one that would sit at index `k` once the slice is sorted. It partitions the slice around a pivot into lows, pivots and highs and descends into the part that holds rank `k`. The pivot comes from a pluggable pivot function.
- `choose_random` is the random pivot function: a uniformly drawn element of the slice.
- `pick_pivot` is the deterministic median-of-medians pivot function. It sorts each complete chunk of five and takes index 2. It then computes the median of those chunk medians with `quickselect_median`, passing itself as the pivot function.
- `nlogn_median` is the reference median. It sorts a copy, then takes the middle element, or for an even length the average of the two middle elements, divided with the element type's `/`.
- `quickselect_median` computes the same median with one or two `quickselect` calls.

The model is purely functional, like the library: every operation is a Dafny function returning `Option<int>` (module `Wrappers`). The `:-` operator plays the part of Rust's `?`. Elements are specialised to `int`; `/` on integers truncates toward zero, as Rust's does (`Div2`).

Module `Sequences` holds the list facts the proofs need:

- `Sort` stands for the standard library's `sort_by`;
- a sorted permutation is unique (`SortIsUnique`), so the choice of sorting algorithm does not matter;
- `Min`, `Max` and `Filter`.

Module `LinearMedian` holds the library itself:

- **Pivot functions.** A pivot function is a parameter `pf` subject to `ValidPivot`: no pivot for the empty slice, and any pivot for a non-empty slice lies between its smallest and largest element. `Decisive` marks pivot functions that always answer on a non-empty slice. `ChooseRandom` and `PickPivot` are both proved to be valid and decisive.
- **Quickselect.** Under these conditions `Quickselect` terminates. When it answers, the answer is `Sort(a)[k]`, and a decisive pivot always gives an answer for `k < |a|`.
- **Medians.** `QuickselectMedian` equals `NlognMedian` whenever it answers, and always with a decisive pivot.
- **The mutual recursion.** `pick_pivot` → `quickselect_median` → `quickselect` → `pick_pivot` is modelled as its own recursive group: `QuickselectMoM`, `QuickselectMedianMoM` and `PickPivot`. A function cannot be passed as a value inside its own recursive group. `MedianOfMediansIsInstance` proves that the group agrees with the generic functions instantiated with `PickPivot`.

Module `UnitTests` restates the library's unit tests (`src/lib.rs:107-136`) as lemmas.

The usual termination argument for quickselect assumes that the pivot is an element of the slice. The library's `pick_pivot` does not always return one: below five elements it returns `nlogn_median`, which for two or four elements is an average, for example 2 for `[1, 4]` (`UnitTests.PivotOfPair`). The pivot contract of the model is therefore "between the smallest and the largest element", which is what termination and correctness need.

## Model

| member | source | states |
|---|---|---|
| Sequences.Sort | src/lib.rs:48-50 | the sorted copy is in ascending order, has the same elements with the same multiplicities, and has the same length |
| Sequences.InsertionSort | src/lib.rs:50 | insertion sort produces an ascending permutation of its input |
| Sequences.SortedUnique | src/lib.rs:50 | two ascending sequences with the same multiset of elements are equal |
| Sequences.SortIsUnique | src/lib.rs:50 | any ascending permutation of `a` is `Sort(a)`, so the result does not depend on the sorting algorithm |
| Sequences.SortWithinRange | src/lib.rs:50-57 | every entry of the sorted copy lies between the smallest and the largest element of the input |
| Sequences.Filter | src/lib.rs:30-32 | the filtered sequence is no longer than the input and every element satisfies the predicate |
| Sequences.FilterContents | src/lib.rs:30-32 | the filtered sequence holds every element of the input that satisfies the predicate, with its multiplicity, and no other element |
| LinearMedian.Div2 | src/lib.rs:55 | division by 2 truncating toward zero: the remainder is 0 or 1 with the sign of the dividend |
| LinearMedian.Div2Between | src/lib.rs:55 | the truncated average of `x <= y` lies in `[x, y]` |
| LinearMedian.ChooseRandom | src/lib.rs:10-17 | no value exactly for the empty slice; otherwise an element of the slice |
| LinearMedian.RandomPivotConforms | src/lib.rs:10-17 | for any assignment of draws to slices, the random pivot function built from it meets the pivot contract and always answers on a non-empty slice |
| LinearMedian.Lows | src/lib.rs:30 | every element of the lower part is below the pivot |
| LinearMedian.Highs | src/lib.rs:31 | every element of the upper part is above the pivot |
| LinearMedian.Pivots | src/lib.rs:32 | every element of the middle part equals the pivot |
| LinearMedian.PartitionCons | src/lib.rs:30-32 | each part of `[x] + t` is `x`'s contribution followed by the same part of `t` |
| LinearMedian.PartitionAccounting | src/lib.rs:30-32 | lows, pivots and highs together hold exactly the elements of the slice, and their lengths add up to its length |
| LinearMedian.PivotInRangeShrinks | src/lib.rs:29-40 | a pivot between the smallest and largest element makes lows and highs strictly shorter than the slice, so both recursive calls terminate |
| LinearMedian.SortedPartsBounded | src/lib.rs:30-31 | the sorted lows lie below the pivot and the sorted highs above it |
| LinearMedian.SortPartition | src/lib.rs:30-40 | the sorted slice is the sorted lows, then the pivots, then the sorted highs |
| LinearMedian.SelectionDescent | src/lib.rs:34-40 | rank `k` of the slice is rank `k` of lows when `k < len(lows)`; it is the pivot in the next `len(pivots)` ranks; otherwise it is rank `k - len(lows) - len(pivots)` of highs |
| LinearMedian.KthSmallestIsSortedAt | src/lib.rs:19-41 | a value of rank `k` (at most `k` elements below it, more than `k` elements at or below it) is the entry at index `k` of the sorted slice |
| LinearMedian.SortedAtIsKthSmallest | src/lib.rs:19-41 | the entry at index `k` of the sorted slice has rank `k` |
| LinearMedian.SortRank | src/lib.rs:19-41 | `x` has rank `k` if and only if `k < len` and `x` is the entry at index `k` of the sorted slice |
| LinearMedian.Quickselect | src/lib.rs:19-41 | terminates for every valid pivot function; an answer is always the entry at index `k` of the sorted slice; no answer when `k >= len`; always an answer for `k < len` with a decisive pivot function |
| LinearMedian.NlognMedian | src/lib.rs:43-59 | the sort-based median of a non-empty slice always exists and lies between its smallest and largest element |
| LinearMedian.NlognMedianMiddleOdd | src/lib.rs:52-57 | for an odd length the median is the middle entry of the sorted copy |
| LinearMedian.NlognMedianMiddleEven | src/lib.rs:52-55 | for an even length the median is the truncated average of the entries at indices `len/2 - 1` and `len/2` of the sorted copy |
| LinearMedian.NlognMedianOdd | src/lib.rs:52-57 | for an odd length the median is `x` if and only if `x` has rank `len/2` |
| LinearMedian.NlognMedianEven | src/lib.rs:52-55 | for an even length, with `lo` of rank `len/2 - 1` and `hi` of rank `len/2`: `lo <= hi` and the median is the truncated average of `lo` and `hi` |
| LinearMedian.QuickselectMedian | src/lib.rs:61-74 | for every valid pivot function the result is either none or the sort-based median; for a decisive one it is always the sort-based median |
| LinearMedian.ChunkMedians | src/lib.rs:87-99 | one value per complete chunk of five, `len/5` of them |
| LinearMedian.ChunkMediansAreElements | src/lib.rs:87-99 | every chunk median is an element of the slice |
| LinearMedian.ChunkMedianAt | src/lib.rs:88-97 | the `i`-th chunk median has rank 2 within elements `5i .. 5i+5` |
| LinearMedian.ChunkMediansOfPrefix | src/lib.rs:87-99 | the first `c` chunk medians depend only on the first `5c` elements |
| LinearMedian.ChunkMediansIgnoreTail | src/lib.rs:88 | the trailing `len % 5` elements do not change the chunk medians |
| LinearMedian.QuickselectMoM | src/lib.rs:19-41 | with the median-of-medians pivot, selection terminates and returns exactly the entry at index `k` of the sorted slice when `k < len`, and none otherwise |
| LinearMedian.QuickselectMedianMoM | src/lib.rs:61-74 | with the median-of-medians pivot, the quickselect median always equals the sort-based median |
| LinearMedian.PickPivot | src/lib.rs:76-101 | no pivot exactly for the empty slice; otherwise a pivot between the smallest and largest element |
| LinearMedian.PickPivotCases | src/lib.rs:80-100 | nothing for the empty slice; the sort-based median below five elements; otherwise the sort-based median of the chunk medians |
| LinearMedian.PickPivotConforms | src/lib.rs:76-101 | the median-of-medians pivot function meets the pivot contract and always answers on a non-empty slice |
| LinearMedian.MedianOfMediansIsInstance | src/lib.rs:100 | the median-of-medians recursive group agrees with the generic quickselect and quickselect median instantiated with `PickPivot` |
| UnitTests.SampleIsMember | src/lib.rs:107-112 | a random draw from `[1, 3, 4]` is one of its elements |
| UnitTests.QuickselectSingleton | src/lib.rs:115-117 | on a one-element slice, rank 0 is the element and any other rank gives none |
| UnitTests.QuickselectEmpty | src/lib.rs:119-121 | selection on the empty slice gives none |
| UnitTests.QuickselectMiddleOfFive | src/lib.rs:127-128 | rank 2 of `[1, 2, 3, 4, 5]` is 3 for every decisive pivot function |
| UnitTests.MedianOfNine | src/lib.rs:133-134 | the sort-based median of `[1, 3, 4, 5, 6, 6, 8, 2, 3]` is 4 |
| UnitTests.QuickselectMedianOfNine | src/lib.rs:131-136 | the quickselect median of the same slice is 4 with any decisive pivot function and with `PickPivot`, matching the sort-based median |
| UnitTests.MedianOfFour | src/lib.rs:52-55 | the even-length median of `[4, 1, 3, 2]` is the truncated average 2 |
| UnitTests.MedianOfFourMoM | src/lib.rs:61-74 | the median-of-medians quickselect median of `[4, 1, 3, 2]` is 2 |
| UnitTests.MedianOfPair | src/lib.rs:52-55 | the median of `[1, 4]` is 2 |
| UnitTests.PivotOfPair | src/lib.rs:83-84 | `pick_pivot([1, 4])` is 2, which is not an element of the slice |

## Left out

- Randomness: `thread_rng` is not modelled. `ChooseRandom` takes the drawn value `draw` as a parameter, and uniformity is not stated. RandomPivotConforms fixes one draw per slice, so two calls on the same slice draw alike; this is harmless, because the result of `Quickselect` does not depend on the pivot function.
- Floating point: elements are `int` with a total order. `partial_cmp(...).unwrap()` therefore never panics, and NaN cases do not arise.
- Overflow: `int` is unbounded. The sums `a[mid - 1] + a[mid]` (`src/lib.rs:55`) and `median_min1 + median_plus1` (`src/lib.rs:72`) and the `usize` index arithmetic never overflow in the model.
- `T::from(2)`: the model assumes it always succeeds, as it does for every integer type. Its `None` path is not modelled.
- Element types: the trait bounds `Copy + PartialOrd + Num + NumCast` are specialised to `int`.
- NlognMedian: requires a non-empty slice. On an empty slice the library panics at `a[mid - 1]`.
- QuickselectMedian: requires a non-empty slice. On an empty slice `a.len() / 2 - 1` underflows, which is a panic in a debug build.
- Quickselect: requires `ValidPivot`. A pivot function that returns a pivot for the empty slice, or one outside the range of a slice of two or more elements, can make the library recurse without end: a pivot below the minimum does so for every `k`, a pivot above the maximum for `k < len`. The contract also constrains the pivot on one-element slices, which the library never passes to the pivot function (`src/lib.rs:23-27`), so it excludes some pivot functions the library handles.
- Quickselect: states no answer for pivot functions that may refuse, only that any answer is correct. Both shipped pivot functions are decisive.
- Complexity: the worst-case linear running time of median-of-medians and the expected running time of random pivoting are not modelled. Only results and termination are.
- QuickselectMoM and QuickselectMedianMoM: these repeat the generic functions for the median-of-medians pivot, because a function cannot be passed as a value inside its own recursive group. `MedianOfMediansIsInstance` proves they agree.
- The unused imports (`Debug`, `read_to_string`) and the test on a float slice (`src/lib.rs:123-125`) are not modelled.
