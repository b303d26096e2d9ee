/**
 * Sequence facts the selection library relies on: ascending order, a sort
 * that stands for the standard library's `sort_by` on a private copy,
 * minimum and maximum, and the `filter` of an iterator.
 */
module Sequences {

  /** `s` is in ascending order. */
  ghost predicate Sorted(s: seq<int>) {
    forall i, j :: 0 <= i < j < |s| ==> s[i] <= s[j]
  }

  /** Inserts `x` into the ascending sequence `s`, keeping it ascending. */
  function Insert(x: int, s: seq<int>): (r: seq<int>)
    requires Sorted(s)
    ensures Sorted(r)
    ensures multiset(r) == multiset(s) + multiset{x}
    ensures |r| == |s| + 1
  {
    if s == [] then [x]
    else if x <= s[0] then
      SortedCons(x, s);
      [x] + s
    else
      var rest := Insert(x, s[1..]);
      assert s == [s[0]] + s[1..];
      assert forall y :: y in rest ==> s[0] <= y by {
        forall y | y in rest ensures s[0] <= y {
          assert y in multiset(rest);
        }
      }
      SortedCons(s[0], rest);
      [s[0]] + rest
  }

  /** Putting an element no larger than any of `t` in front of `t` keeps it ascending. */
  lemma SortedCons(h: int, t: seq<int>)
    requires Sorted(t)
    requires forall y :: y in t ==> h <= y
    ensures Sorted([h] + t)
  {
    var r := [h] + t;
    forall i, j | 0 <= i < j < |r| ensures r[i] <= r[j] {
      if i > 0 {
        assert r[i] == t[i - 1] && r[j] == t[j - 1];
      } else {
        assert r[j] == t[j - 1] && t[j - 1] in t;
      }
    }
  }

  /** Two ascending sequences, every element of `u` at most every element of `v`, concatenate to an ascending one. */
  lemma SortedAppend(u: seq<int>, v: seq<int>)
    requires Sorted(u) && Sorted(v)
    requires forall i, j :: 0 <= i < |u| && 0 <= j < |v| ==> u[i] <= v[j]
    ensures Sorted(u + v)
  {
    var r := u + v;
    forall i, j | 0 <= i < j < |r| ensures r[i] <= r[j] {
      if j < |u| {
        assert r[i] == u[i] && r[j] == u[j];
      } else if i >= |u| {
        assert r[i] == v[i - |u|] && r[j] == v[j - |u|];
      } else {
        assert r[i] == u[i] && r[j] == v[j - |u|];
      }
    }
  }

  /** A sequence whose every element is at most its successor is ascending. */
  lemma {:induction false} SortedByNeighbours(s: seq<int>)
    requires forall i :: 0 < i < |s| ==> s[i - 1] <= s[i]
    ensures Sorted(s)
    decreases |s|
  {
    if |s| > 1 {
      var t := s[1..];
      assert forall i :: 0 < i < |t| ==> t[i - 1] <= t[i] by {
        forall i | 0 < i < |t| ensures t[i - 1] <= t[i] {
          assert t[i - 1] == s[i] && t[i] == s[i + 1];
        }
      }
      SortedByNeighbours(t);
      forall i, j | 0 <= i < j < |s| ensures s[i] <= s[j] {
        if i > 0 {
          assert s[i] == t[i - 1] && s[j] == t[j - 1];
        } else if j > 1 {
          assert s[1] == t[0] && s[j] == t[j - 1];
        }
      }
    }
  }

  /** Insertion sort: the ascending rearrangement of `a`. */
  function InsertionSort(a: seq<int>): (r: seq<int>)
    ensures Sorted(r)
    ensures multiset(r) == multiset(a)
    ensures |r| == |a|
  {
    if a == [] then []
    else
      assert a == [a[0]] + a[1..];
      Insert(a[0], InsertionSort(a[1..]))
  }

  /**
   * The ascending copy of `a`, as the standard library's `sort_by` leaves
   * it: a sorted permutation. By SortIsUnique there is only one, so which
   * algorithm computes it does not matter.
   */
  function Sort(a: seq<int>): (r: seq<int>)
    ensures Sorted(r)
    ensures multiset(r) == multiset(a)
    ensures |r| == |a|
  {
    InsertionSort(a)
  }

  /** Two ascending sequences with the same elements are equal. */
  lemma {:induction false} SortedUnique(s: seq<int>, t: seq<int>)
    requires Sorted(s) && Sorted(t)
    requires multiset(s) == multiset(t)
    ensures s == t
    decreases |s|
  {
    assert |s| == |multiset(s)| == |multiset(t)| == |t|;
    if |s| > 0 {
      assert s[0] in multiset(t);
      assert t[0] in multiset(s);
      assert s[0] == t[0];
      assert s == [s[0]] + s[1..];
      assert t == [t[0]] + t[1..];
      assert multiset(s) == multiset{s[0]} + multiset(s[1..]);
      assert multiset(t) == multiset{t[0]} + multiset(t[1..]);
      assert multiset(s[1..]) == multiset(s) - multiset{s[0]};
      assert multiset(t[1..]) == multiset(t) - multiset{t[0]};
      SortedUnique(s[1..], t[1..]);
    }
  }

  /** Any sorted permutation of `a` is `Sort(a)`. */
  lemma SortIsUnique(a: seq<int>, s: seq<int>)
    requires Sorted(s) && multiset(s) == multiset(a)
    ensures s == Sort(a)
  {
    SortedUnique(s, Sort(a));
  }

  /** The smallest element of a non-empty sequence. */
  function Min(a: seq<int>): (m: int)
    requires |a| > 0
    ensures m in a
    ensures forall i :: 0 <= i < |a| ==> m <= a[i]
  {
    if |a| == 1 then a[0]
    else
      var m := Min(a[1..]);
      assert forall i :: 1 <= i < |a| ==> a[i] == a[1..][i - 1];
      if a[0] <= m then a[0] else m
  }

  /** The largest element of a non-empty sequence. */
  function Max(a: seq<int>): (m: int)
    requires |a| > 0
    ensures m in a
    ensures forall i :: 0 <= i < |a| ==> a[i] <= m
  {
    if |a| == 1 then a[0]
    else
      var m := Max(a[1..]);
      assert forall i :: 1 <= i < |a| ==> a[i] == a[1..][i - 1];
      if a[0] >= m then a[0] else m
  }

  /** Every entry of the ascending copy lies between the extremes of `a`. */
  lemma SortWithinRange(a: seq<int>, i: nat)
    requires i < |a|
    ensures Min(a) <= Sort(a)[i] <= Max(a)
  {
    var s := Sort(a);
    assert s[i] in multiset(s);
    assert s[i] in a;
  }

  /** A slice of the suffix from `d` is the slice of `a` shifted by `d`. */
  lemma SliceOfSuffix(a: seq<int>, d: nat, i: nat, j: nat)
    requires i <= j && d + j <= |a|
    ensures a[d..][i..j] == a[d + i .. d + j]
  {
  }

  /** A prefix of a prefix is a prefix. */
  lemma PrefixOfPrefix(a: seq<int>, i: nat, j: nat)
    requires i <= j <= |a|
    ensures a[..j][..i] == a[..i]
  {
  }

  /** Dropping `d` elements from the prefix of length `j` keeps `j - d` elements of the suffix. */
  lemma SuffixOfPrefix(a: seq<int>, d: nat, j: nat)
    requires d <= j <= |a|
    ensures a[..j][d..] == a[d..][..j - d]
  {
  }

  /** Taking `c` elements of `[x] + s` keeps `x` and `c - 1` elements of `s`. */
  lemma PrefixOfCons(x: int, s: seq<int>, c: nat)
    requires 0 < c <= |s| + 1
    ensures ([x] + s)[..c] == [x] + s[..c - 1]
  {
  }

  /** The elements of `a` that satisfy `keep`, in their original order. */
  function Filter(a: seq<int>, keep: int -> bool): (r: seq<int>)
    ensures |r| <= |a|
    ensures forall i :: 0 <= i < |r| ==> keep(r[i])
  {
    if a == [] then []
    else (if keep(a[0]) then [a[0]] else []) + Filter(a[1..], keep)
  }

  /** The filtered sequence holds every element of `a` that satisfies `keep`, as often as `a` does, and nothing else. */
  lemma {:induction false} FilterContents(a: seq<int>, keep: int -> bool)
    ensures forall x :: multiset(Filter(a, keep))[x] == if keep(x) then multiset(a)[x] else 0
    decreases |a|
  {
    if a != [] {
      FilterContents(a[1..], keep);
      assert a == [a[0]] + a[1..];
    }
  }
}
