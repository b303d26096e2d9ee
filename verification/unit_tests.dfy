/** The library's own unit tests, restated as facts about the model. */
module UnitTests {
  import opened Wrappers
  import opened Sequences
  import opened LinearMedian

  /** A random draw from [1, 3, 4] is one of its elements. */
  lemma SampleIsMember(draw: nat)
    ensures ChooseRandom([1, 3, 4], draw).Some?
    ensures ChooseRandom([1, 3, 4], draw).value in {1, 3, 4}
  {
  }

  /** Selecting from a one-element slice: rank 0 is the element, any other rank nothing. */
  lemma QuickselectSingleton(x: int, k: nat, pf: seq<int> -> Option<int>)
    requires ValidPivot(pf)
    ensures Quickselect([x], k, pf) == if k == 0 then Some(x) else None
  {
  }

  /** Selecting from the empty slice gives nothing, whatever the rank. */
  lemma QuickselectEmpty(k: nat, pf: seq<int> -> Option<int>)
    requires ValidPivot(pf)
    ensures Quickselect([], k, pf) == None
  {
  }

  /** [1, 2, 3, 4, 5] is already in ascending order. */
  lemma SortFive(a: seq<int>)
    requires a == [1, 2, 3, 4, 5]
    ensures Sort(a) == a
  {
    SortedByNeighbours(a);
    SortIsUnique(a, a);
  }

  /** Rank 2 of [1, 2, 3, 4, 5] is 3 under any pivot strategy that always answers. */
  lemma QuickselectMiddleOfFive(a: seq<int>, pf: seq<int> -> Option<int>)
    requires a == [1, 2, 3, 4, 5]
    requires ValidPivot(pf) && Decisive(pf)
    ensures Quickselect(a, 2, pf) == Some(3)
  {
    SortFive(a);
  }

  /** How much one leading element adds to the lower part and to the pivot part. */
  lemma PartSizesCons(x: int, t: seq<int>, p: int)
    ensures |Lows([x] + t, p)| == (if x < p then 1 else 0) + |Lows(t, p)|
    ensures |Pivots([x] + t, p)| == (if x == p then 1 else 0) + |Pivots(t, p)|
  {
    PartitionCons(x, t, p);
  }

  /** In [1, 3, 4, 5, 6, 6, 8, 2, 3] four elements lie below 4 and one equals it. */
  lemma RankOfFourInNine(a: seq<int>)
    requires a == [1, 3, 4, 5, 6, 6, 8, 2, 3]
    ensures IsKthSmallest(a, 4, 4)
  {
    assert a == [1] + [3, 4, 5, 6, 6, 8, 2, 3];
    PartSizesCons(3, [], 4);
    PartSizesCons(2, [3], 4);
    PartSizesCons(8, [2, 3], 4);
    PartSizesCons(6, [8, 2, 3], 4);
    PartSizesCons(6, [6, 8, 2, 3], 4);
    PartSizesCons(5, [6, 6, 8, 2, 3], 4);
    PartSizesCons(4, [5, 6, 6, 8, 2, 3], 4);
    PartSizesCons(3, [4, 5, 6, 6, 8, 2, 3], 4);
    PartSizesCons(1, [3, 4, 5, 6, 6, 8, 2, 3], 4);
  }

  /** The sort-based median of [1, 3, 4, 5, 6, 6, 8, 2, 3] is 4. */
  lemma MedianOfNine(a: seq<int>)
    requires a == [1, 3, 4, 5, 6, 6, 8, 2, 3]
    ensures NlognMedian(a) == Some(4)
  {
    RankOfFourInNine(a);
    NlognMedianOdd(a, 4);
  }

  /**
   * The quickselect median of [1, 3, 4, 5, 6, 6, 8, 2, 3] agrees with the
   * sort-based one, both with an always-answering pivot strategy and with
   * the median-of-medians pivot.
   */
  lemma QuickselectMedianOfNine(a: seq<int>, pf: seq<int> -> Option<int>)
    requires a == [1, 3, 4, 5, 6, 6, 8, 2, 3]
    requires ValidPivot(pf) && Decisive(pf)
    ensures QuickselectMedian(a, pf) == Some(4)
    ensures QuickselectMedian(a, PickPivot) == Some(4)
  {
    MedianOfNine(a);
    PickPivotConforms();
  }

  /** In [4, 1, 3, 2] the elements of ranks 1 and 2 are 2 and 3. */
  lemma MiddlePairOfFour(a: seq<int>)
    requires a == [4, 1, 3, 2]
    ensures IsKthSmallest(a, 1, 2) && IsKthSmallest(a, 2, 3)
  {
    PartSizesCons(2, [], 2);
    PartSizesCons(3, [2], 2);
    PartSizesCons(1, [3, 2], 2);
    PartSizesCons(4, [1, 3, 2], 2);
    PartSizesCons(2, [], 3);
    PartSizesCons(3, [2], 3);
    PartSizesCons(1, [3, 2], 3);
    PartSizesCons(4, [1, 3, 2], 3);
  }

  /** For an even length the median is the truncated average of the middle pair. */
  lemma MedianOfFour(a: seq<int>)
    requires a == [4, 1, 3, 2]
    ensures NlognMedian(a) == Some(2)
  {
    MiddlePairOfFour(a);
    NlognMedianEven(a, 2, 3);
    HalfOfFive();
  }

  /** The truncated average of 2 and 3. */
  lemma HalfOfFive()
    ensures Div2(2 + 3) == 2
  {
  }

  /** The median-of-medians quickselect median of [4, 1, 3, 2] is 2 as well. */
  lemma MedianOfFourMoM(a: seq<int>)
    requires a == [4, 1, 3, 2]
    ensures QuickselectMedianMoM(a) == Some(2)
  {
    MedianOfFour(a);
  }

  /** The sort-based median of [1, 4] is the truncated average 2. */
  lemma MedianOfPair(a: seq<int>)
    requires a == [1, 4]
    ensures NlognMedian(a) == Some(2)
  {
    SortedByNeighbours(a);
    SortIsUnique(a, a);
    NlognMedianMiddleEven(a, 1, 4);
    HalfOfFive();
  }

  /** Below five elements the pivot is the sort-based median, here not an element of the input. */
  lemma PivotOfPair(a: seq<int>)
    requires a == [1, 4]
    ensures PickPivot(a) == Some(2)
    ensures 2 !in a
  {
    MedianOfPair(a);
    PickPivotCases(a);
  }
}
