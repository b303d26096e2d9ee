/**
 * Order-statistic selection (quickselect), the sort-based median, the
 * quickselect-based median, and the median-of-medians pivot strategy
 * (src/lib.rs), specialised to `int` with its total order.
 */
module LinearMedian {
  import opened Wrappers
  import opened Sequences

  // ---------------------------------------------------------------------
  // Arithmetic
  // ---------------------------------------------------------------------

  /** Integer division by 2 that truncates toward zero, as Rust's `/` does. */
  function Div2(x: int): (r: int)
    ensures x >= 0 ==> 0 <= x - 2 * r <= 1
    ensures x < 0 ==> 0 <= 2 * r - x <= 1
  {
    if x >= 0 then x / 2 else -((-x) / 2)
  }

  /** The truncated average of two values lies between them. */
  lemma Div2Between(x: int, y: int)
    requires x <= y
    ensures x <= Div2(x + y) <= y
  {
  }

  // ---------------------------------------------------------------------
  // Pivot strategies
  // ---------------------------------------------------------------------

  /**
   * The contract every pivot strategy must meet: no pivot for the empty
   * slice, and on a non-empty slice either no pivot or one between its
   * smallest and largest element.
   */
  ghost predicate ValidPivot(pf: seq<int> -> Option<int>) {
    && pf([]) == None
    && forall a: seq<int> :: |a| > 0 && pf(a).Some? ==> Min(a) <= pf(a).value <= Max(a)
  }

  /** A strategy that always proposes a pivot for a non-empty slice. */
  ghost predicate Decisive(pf: seq<int> -> Option<int>) {
    forall a: seq<int> :: |a| > 0 ==> pf(a).Some?
  }

  /**
   * The random strategy: `draw` stands for the value taken from the
   * thread-local random-number generator.
   */
  function ChooseRandom(a: seq<int>, draw: nat): (r: Option<int>)
    ensures r.None? <==> |a| == 0
    ensures r.Some? ==> r.value in a
  {
    if |a| == 0 then None else Some(a[draw % |a|])
  }

  /** For any assignment `rng` of draws to slices, the random strategy built from it meets the pivot contract. */
  lemma RandomPivotConforms(pf: seq<int> -> Option<int>, rng: seq<int> -> nat)
    requires forall a :: pf(a) == ChooseRandom(a, rng(a))
    ensures ValidPivot(pf)
    ensures Decisive(pf)
  {
  }

  // ---------------------------------------------------------------------
  // Partition around a pivot
  // ---------------------------------------------------------------------

  /** The elements strictly less than the pivot, in their original order. */
  function Lows(a: seq<int>, p: int): (r: seq<int>)
    ensures |r| <= |a|
    ensures forall i :: 0 <= i < |r| ==> r[i] < p
  {
    Filter(a, x => x < p)
  }

  /** The elements strictly greater than the pivot, in their original order. */
  function Highs(a: seq<int>, p: int): (r: seq<int>)
    ensures |r| <= |a|
    ensures forall i :: 0 <= i < |r| ==> r[i] > p
  {
    Filter(a, x => x > p)
  }

  /** The elements equal to the pivot. */
  function Pivots(a: seq<int>, p: int): (r: seq<int>)
    ensures |r| <= |a|
    ensures forall i :: 0 <= i < |r| ==> r[i] == p
  {
    Filter(a, x => x == p)
  }

  /** Partitioning a slice with one more element in front. */
  lemma PartitionCons(x: int, t: seq<int>, p: int)
    ensures Lows([x] + t, p) == (if x < p then [x] else []) + Lows(t, p)
    ensures Pivots([x] + t, p) == (if x == p then [x] else []) + Pivots(t, p)
    ensures Highs([x] + t, p) == (if x > p then [x] else []) + Highs(t, p)
  {
    assert ([x] + t)[1..] == t;
  }

  /**
   * Every element lands in exactly one of the three parts: their sizes add
   * up to the slice's and together they hold each value as often as it does.
   */
  lemma {:induction false} PartitionAccounting(a: seq<int>, p: int)
    ensures multiset(Lows(a, p)) + multiset(Pivots(a, p)) + multiset(Highs(a, p)) == multiset(a)
    ensures |Lows(a, p)| + |Pivots(a, p)| + |Highs(a, p)| == |a|
    decreases |a|
  {
    if a != [] {
      var x, t := a[0], a[1..];
      assert a == [x] + t;
      PartitionAccounting(t, p);
      PartitionCons(x, t, p);
    }
  }

  /**
   * A pivot between the smallest and the largest element leaves both the
   * lows and the highs strictly shorter than the slice.
   */
  lemma PivotInRangeShrinks(a: seq<int>, p: int)
    requires |a| > 0
    requires Min(a) <= p <= Max(a)
    ensures |Lows(a, p)| < |a|
    ensures |Highs(a, p)| < |a|
  {
    var lows, pivots, highs := Lows(a, p), Pivots(a, p), Highs(a, p);
    PartitionAccounting(a, p);
    var lo, hi := Min(a), Max(a);
    assert hi !in lows;
    assert multiset(pivots)[hi] + multiset(highs)[hi] == multiset(a)[hi] > 0;
    assert lo !in highs;
    assert multiset(lows)[lo] + multiset(pivots)[lo] == multiset(a)[lo] > 0;
  }

  /** Sorting the lows or the highs keeps them on their side of the pivot. */
  lemma SortedPartsBounded(a: seq<int>, p: int)
    ensures forall i :: 0 <= i < |Sort(Lows(a, p))| ==> Sort(Lows(a, p))[i] < p
    ensures forall i :: 0 <= i < |Sort(Highs(a, p))| ==> Sort(Highs(a, p))[i] > p
  {
    var lows, highs := Lows(a, p), Highs(a, p);
    var sl, sh := Sort(lows), Sort(highs);
    forall i | 0 <= i < |sl| ensures sl[i] < p {
      assert sl[i] in multiset(lows);
    }
    forall i | 0 <= i < |sh| ensures sh[i] > p {
      assert sh[i] in multiset(highs);
    }
  }

  /** Sorting commutes with the partition: sorted lows, then the pivots, then sorted highs. */
  lemma SortPartition(a: seq<int>, p: int)
    ensures Sort(a) == Sort(Lows(a, p)) + Pivots(a, p) + Sort(Highs(a, p))
  {
    var lows, pivots, highs := Lows(a, p), Pivots(a, p), Highs(a, p);
    var sl, sh := Sort(lows), Sort(highs);
    SortedPartsBounded(a, p);
    SortedAppend(sl, pivots);
    SortedAppend(sl + pivots, sh);
    PartitionAccounting(a, p);
    SortIsUnique(a, sl + pivots + sh);
  }

  /**
   * Where rank k of the slice is found after partitioning around `p`:
   * rank k of the lows, the pivot itself, or rank k - |lows| - |pivots| of
   * the highs.
   */
  lemma SelectionDescent(a: seq<int>, p: int, k: nat)
    ensures |Lows(a, p)| + |Pivots(a, p)| + |Highs(a, p)| == |a|
    ensures k < |Lows(a, p)| ==> Sort(a)[k] == Sort(Lows(a, p))[k] < p
    ensures |Lows(a, p)| <= k < |Lows(a, p)| + |Pivots(a, p)| ==> Sort(a)[k] == p
    ensures |Lows(a, p)| + |Pivots(a, p)| <= k < |a| ==>
      Sort(a)[k] == Sort(Highs(a, p))[k - |Lows(a, p)| - |Pivots(a, p)|] > p
  {
    var lows, pivots, highs := Lows(a, p), Pivots(a, p), Highs(a, p);
    var sl, sh := Sort(lows), Sort(highs);
    PartitionAccounting(a, p);
    SortPartition(a, p);
    SortedPartsBounded(a, p);
    var s := Sort(a);
    if k < |sl| {
      assert s[k] == sl[k];
    } else if k < |sl| + |pivots| {
      assert s[k] == pivots[k - |sl|];
    } else if k < |a| {
      assert s[k] == sh[k - |sl| - |pivots|];
    }
  }

  // ---------------------------------------------------------------------
  // Order statistics
  // ---------------------------------------------------------------------

  /**
   * `x` is the k-th smallest element of `a` (zero-based): at most k
   * elements are below it and more than k are at most it.
   */
  predicate IsKthSmallest(a: seq<int>, k: nat, x: int) {
    |Lows(a, x)| <= k < |Lows(a, x)| + |Pivots(a, x)|
  }

  /** An element whose rank brackets k sits at index k of the ascending copy. */
  lemma KthSmallestIsSortedAt(a: seq<int>, k: nat, x: int)
    requires IsKthSmallest(a, k, x)
    ensures k < |a| && Sort(a)[k] == x
  {
    SelectionDescent(a, x, k);
  }

  /** The element at index k of the ascending copy has rank k. */
  lemma SortedAtIsKthSmallest(a: seq<int>, k: nat)
    requires k < |a|
    ensures IsKthSmallest(a, k, Sort(a)[k])
  {
    SelectionDescent(a, Sort(a)[k], k);
  }

  /** The k-th smallest element is exactly the one at index k of the ascending copy. */
  lemma SortRank(a: seq<int>, k: nat, x: int)
    ensures IsKthSmallest(a, k, x) <==> k < |a| && x == Sort(a)[k]
  {
    if IsKthSmallest(a, k, x) {
      KthSmallestIsSortedAt(a, k, x);
    }
    if k < |a| && x == Sort(a)[k] {
      SortedAtIsKthSmallest(a, k);
    }
  }

  // ---------------------------------------------------------------------
  // Quickselect with a pluggable pivot strategy
  // ---------------------------------------------------------------------

  /**
   * The k-th smallest element of `a`, found by partitioning around the
   * pivot that `pf` proposes and descending into the part that holds rank k.
   */
  function Quickselect(a: seq<int>, k: nat, pf: seq<int> -> Option<int>): (r: Option<int>)
    requires ValidPivot(pf)
    ensures r.Some? ==> k < |a| && r.value == Sort(a)[k]
    ensures k >= |a| ==> r == None
    ensures Decisive(pf) && k < |a| ==> r.Some?
    decreases |a|
  {
    if |a| == 1 then
      SortIsUnique(a, a);
      if k == 0 then Some(a[0]) else None
    else
      var p :- pf(a);
      assert |a| > 0;
      PivotInRangeShrinks(a, p);
      SelectionDescent(a, p, k);
      var lows, pivots, highs := Lows(a, p), Pivots(a, p), Highs(a, p);
      if k < |lows| then
        Quickselect(lows, k, pf)
      else if k < |lows| + |pivots| then
        Some(pivots[0])
      else
        Quickselect(highs, k - |lows| - |pivots|, pf)
  }

  // ---------------------------------------------------------------------
  // Medians
  // ---------------------------------------------------------------------

  /**
   * The sort-based reference median: the middle element of the ascending
   * copy for an odd length, the truncated average of the two middle
   * elements for an even length.
   */
  function NlognMedian(a: seq<int>): (r: Option<int>)
    requires |a| > 0
    ensures r.Some?
    ensures Min(a) <= r.value <= Max(a)
  {
    var s := Sort(a);
    var mid := |s| / 2;
    SortWithinRange(a, mid);
    if |s| % 2 == 0 then
      SortWithinRange(a, mid - 1);
      Div2Between(s[mid - 1], s[mid]);
      Some(Div2(s[mid - 1] + s[mid]))
    else
      Some(s[mid])
  }

  /** The sort-based median read off the ascending copy. */
  lemma NlognMedianMiddleOdd(a: seq<int>)
    requires |a| % 2 == 1
    ensures NlognMedian(a) == Some(Sort(a)[|a| / 2])
  {
  }

  /** The sort-based median read off the ascending copy. */
  lemma NlognMedianMiddleEven(a: seq<int>, lower: int, upper: int)
    requires |a| > 0 && |a| % 2 == 0
    requires lower == Sort(a)[|a| / 2 - 1] && upper == Sort(a)[|a| / 2]
    ensures NlognMedian(a) == Some(Div2(lower + upper))
  {
  }

  /** For an odd length the sort-based median is the element of rank |a|/2, and only it. */
  lemma NlognMedianOdd(a: seq<int>, x: int)
    requires |a| % 2 == 1
    ensures NlognMedian(a) == Some(x) <==> IsKthSmallest(a, |a| / 2, x)
  {
    SortRank(a, |a| / 2, x);
  }

  /**
   * For an even length the sort-based median is the truncated average of
   * the elements of ranks |a|/2 - 1 and |a|/2.
   */
  lemma NlognMedianEven(a: seq<int>, lo: int, hi: int)
    requires |a| > 0 && |a| % 2 == 0
    requires IsKthSmallest(a, |a| / 2 - 1, lo)
    requires IsKthSmallest(a, |a| / 2, hi)
    ensures lo <= hi
    ensures NlognMedian(a) == Some(Div2(lo + hi))
  {
    KthSmallestIsSortedAt(a, |a| / 2 - 1, lo);
    KthSmallestIsSortedAt(a, |a| / 2, hi);
    NlognMedianMiddleEven(a, lo, hi);
  }

  /**
   * The median computed with one (odd length) or two (even length)
   * quickselect calls; no result when a selection gives none.
   */
  function QuickselectMedian(a: seq<int>, pf: seq<int> -> Option<int>): (r: Option<int>)
    requires |a| > 0
    requires ValidPivot(pf)
    ensures r.None? || r == NlognMedian(a)
    ensures Decisive(pf) ==> r == NlognMedian(a)
  {
    if |a| % 2 == 1 then
      NlognMedianMiddleOdd(a);
      Quickselect(a, |a| / 2, pf)
    else
      var lower :- Quickselect(a, |a| / 2 - 1, pf);
      var upper :- Quickselect(a, |a| / 2, pf);
      NlognMedianMiddleEven(a, lower, upper);
      Some(Div2(lower + upper))
  }

  // ---------------------------------------------------------------------
  // Median of medians
  // ---------------------------------------------------------------------

  /**
   * Index 2 of each ascending chunk of exactly five consecutive elements;
   * the trailing |a| % 5 elements belong to no chunk.
   */
  function ChunkMedians(a: seq<int>): (m: seq<int>)
    ensures |m| == |a| / 5
    decreases |a|
  {
    if |a| < 5 then []
    else
      [Sort(a[..5])[2]] + ChunkMedians(a[5..])
  }

  /** The first chunk's median followed by the medians of the rest. */
  lemma ChunkMediansCons(a: seq<int>)
    requires |a| >= 5
    ensures ChunkMedians(a) == [Sort(a[..5])[2]] + ChunkMedians(a[5..])
  {
  }

  /** Every chunk median is an element of the slice. */
  lemma {:induction false} ChunkMediansAreElements(a: seq<int>)
    ensures forall j :: 0 <= j < |ChunkMedians(a)| ==> ChunkMedians(a)[j] in a
    decreases |a|
  {
    if |a| >= 5 {
      var m, t := ChunkMedians(a), a[5..];
      ChunkMediansAreElements(t);
      ChunkMediansCons(a);
      assert m[0] in multiset(a[..5]);
      assert a == a[..5] + t;
      forall j | 1 <= j < |m| ensures m[j] in a {
        assert m[j] == ChunkMedians(t)[j - 1];
      }
    }
  }

  /** The i-th chunk median is the third smallest of the i-th chunk of five. */
  lemma {:induction false} ChunkMedianAt(a: seq<int>, i: nat)
    requires i < |a| / 5
    ensures IsKthSmallest(a[5 * i .. 5 * i + 5], 2, ChunkMedians(a)[i])
    decreases i
  {
    ChunkMediansCons(a);
    if i == 0 {
      SortedAtIsKthSmallest(a[..5], 2);
    } else {
      ChunkMedianAt(a[5..], i - 1);
      SliceOfSuffix(a, 5, 5 * i - 5, 5 * i);
    }
  }

  /** The first `c` chunk medians: the first chunk's median, then `c - 1` medians of the rest. */
  lemma FirstChunkMedians(a: seq<int>, c: nat)
    requires 0 < c && 5 * c <= |a|
    ensures ChunkMedians(a)[..c] == [Sort(a[..5])[2]] + ChunkMedians(a[5..])[..c - 1]
  {
    ChunkMediansCons(a);
    PrefixOfCons(Sort(a[..5])[2], ChunkMedians(a[5..]), c);
  }

  /** The chunk medians of the first `n` elements, for `n` at least 5. */
  lemma ChunkMediansOfTake(a: seq<int>, n: nat)
    requires 5 <= n <= |a|
    ensures ChunkMedians(a[..n]) == [Sort(a[..5])[2]] + ChunkMedians(a[5..][..n - 5])
  {
    PrefixOfPrefix(a, 5, n);
    SuffixOfPrefix(a, 5, n);
    ChunkMediansCons(a[..n]);
  }

  /** The first `c` chunk medians depend only on the first `n = 5c` elements. */
  lemma {:induction false} ChunkMediansOfPrefix(a: seq<int>, c: nat, n: nat)
    requires n == 5 * c <= |a|
    ensures ChunkMedians(a)[..c] == ChunkMedians(a[..n])
    decreases c
  {
    if c > 0 {
      ChunkMediansOfPrefix(a[5..], c - 1, n - 5);
      FirstChunkMedians(a, c);
      ChunkMediansOfTake(a, n);
    }
  }

  /** Dropping the trailing |a| % 5 elements does not change the chunk medians. */
  lemma ChunkMediansIgnoreTail(a: seq<int>)
    ensures ChunkMedians(a) == ChunkMedians(a[..|a| / 5 * 5])
  {
    ChunkMediansOfPrefix(a, |a| / 5, |a| / 5 * 5);
    assert ChunkMedians(a)[..|a| / 5] == ChunkMedians(a);
  }

  /*
   * `pick_pivot` hands itself to `quickselect_median` as the pivot
   * strategy, so the three functions below are one mutually recursive
   * group: quickselect and the quickselect median wired to the
   * median-of-medians pivot. A function cannot be passed as a value inside
   * its own recursive group, hence this copy of Quickselect and
   * QuickselectMedian; MedianOfMediansIsInstance shows they agree with the
   * generic ones given PickPivot. Each call either keeps the slice and
   * lowers the tag (median 2 > select 1 > pivot 0) or shrinks the slice.
   */

  /** Quickselect with the median-of-medians pivot. */
  function QuickselectMoM(a: seq<int>, k: nat): (r: Option<int>)
    ensures r == if k < |a| then Some(Sort(a)[k]) else None
    decreases |a|, 1
  {
    if |a| == 1 then
      SortIsUnique(a, a);
      if k == 0 then Some(a[0]) else None
    else
      var p :- PickPivot(a);
      PivotInRangeShrinks(a, p);
      SelectionDescent(a, p, k);
      var lows, pivots, highs := Lows(a, p), Pivots(a, p), Highs(a, p);
      if k < |lows| then
        QuickselectMoM(lows, k)
      else if k < |lows| + |pivots| then
        Some(pivots[0])
      else
        QuickselectMoM(highs, k - |lows| - |pivots|)
  }

  /** The quickselect median with the median-of-medians pivot. */
  function QuickselectMedianMoM(a: seq<int>): (r: Option<int>)
    requires |a| > 0
    ensures r == NlognMedian(a)
    decreases |a|, 2
  {
    if |a| % 2 == 1 then
      NlognMedianMiddleOdd(a);
      QuickselectMoM(a, |a| / 2)
    else
      match QuickselectMoM(a, |a| / 2 - 1)
      case None => None
      case Some(lower) =>
        match QuickselectMoM(a, |a| / 2)
        case None => None
        case Some(upper) =>
          NlognMedianMiddleEven(a, lower, upper);
          Some(Div2(lower + upper))
  }

  /**
   * The deterministic pivot: none for the empty slice, the sort-based
   * median below five elements, otherwise the median of the chunk medians.
   */
  function PickPivot(a: seq<int>): (r: Option<int>)
    ensures r.None? <==> |a| == 0
    ensures r.Some? ==> Min(a) <= r.value <= Max(a)
    decreases |a|, 0
  {
    if |a| == 0 then None
    else if |a| < 5 then NlognMedian(a)
    else
      var medians := ChunkMedians(a);
      ChunkMediansAreElements(a);
      assert Min(medians) in a && Max(medians) in a;
      QuickselectMedianMoM(medians)
  }

  /** What the pivot is, with the quickselect median replaced by the sort-based one. */
  lemma PickPivotCases(a: seq<int>)
    ensures |a| == 0 ==> PickPivot(a) == None
    ensures 0 < |a| < 5 ==> PickPivot(a) == NlognMedian(a)
    ensures |a| >= 5 ==> PickPivot(a) == NlognMedian(ChunkMedians(a))
  {
  }

  /** The median-of-medians strategy meets the pivot contract and always decides. */
  lemma PickPivotConforms()
    ensures ValidPivot(PickPivot)
    ensures Decisive(PickPivot)
  {
  }

  /** The specialised group computes what the generic functions compute with PickPivot. */
  lemma MedianOfMediansIsInstance(a: seq<int>, k: nat)
    ensures ValidPivot(PickPivot)
    ensures QuickselectMoM(a, k) == Quickselect(a, k, PickPivot)
    ensures |a| > 0 ==> QuickselectMedianMoM(a) == QuickselectMedian(a, PickPivot)
  {
    PickPivotConforms();
  }
}
