/**
 * Shared vocabulary of the search and sort engine: what "sorted" and
 * "sorted between two indices" mean, and the facts about slices and
 * multisets that every in-place sort needs.
 */
module SortSpec {

  /** Non-decreasing order, the order every sort routine of the engine produces. */
  predicate Sorted(s: seq<int>) {
    forall i, j :: 0 <= i < j < |s| ==> s[i] <= s[j]
  }

  /** `s[lo..hi]` is non-decreasing (indices outside the window are not constrained). */
  predicate SortedBetween(s: seq<int>, lo: int, hi: int) {
    forall i, j :: lo <= i < j < hi && 0 <= i && j < |s| ==> s[i] <= s[j]
  }

  /** Every pair `gap` apart below `hi` is in order; `gap == 1` is adjacent order. */
  ghost predicate GapSorted(s: seq<int>, gap: nat, hi: int) {
    forall i, j :: 0 <= i < j < |s| && j < hi && j - i == gap ==> s[i] <= s[j]
  }

  /** Adjacent order on a prefix is full order on that prefix. */
  lemma {:induction false} AdjacentSortedIsSorted(s: seq<int>, hi: int)
    requires 0 <= hi <= |s|
    requires GapSorted(s, 1, hi)
    ensures SortedBetween(s, 0, hi)
  {
    if hi > 1 {
      AdjacentSortedIsSorted(s, hi - 1);
      forall i | 0 <= i < hi - 1
        ensures s[i] <= s[hi - 1]
      {
        assert s[i] <= s[hi - 2];
      }
    }
  }

  /**
   * A sorted sequence is determined by its multiset: two sorted
   * permutations of each other are equal. This is why every sort of the
   * engine computes the same result, and why sorting a sorted input
   * leaves it unchanged.
   */
  lemma {:induction false} SortedUnique(s: seq<int>, t: seq<int>)
    requires Sorted(s) && Sorted(t)
    requires multiset(s) == multiset(t)
    ensures s == t
    decreases |s|
  {
    assert |s| == |t| by {
      assert |s| == |multiset(s)| && |t| == |multiset(t)|;
    }
    if |s| > 0 {
      assert s[0] == t[0] by {
        HeadIsLeast(s, t);
        HeadIsLeast(t, s);
      }
      assert multiset(s[1..]) == multiset(t[1..]) by {
        assert s == [s[0]] + s[1..] && t == [t[0]] + t[1..];
        assert multiset(s[1..]) == multiset(s) - multiset{s[0]};
        assert multiset(t[1..]) == multiset(t) - multiset{t[0]};
      }
      SortedUnique(s[1..], t[1..]);
    }
  }

  /** The head of a sorted sequence is at most every element of a permutation of it. */
  lemma HeadIsLeast(s: seq<int>, t: seq<int>)
    requires Sorted(s) && |s| > 0
    requires multiset(s) == multiset(t)
    ensures forall k :: 0 <= k < |t| ==> s[0] <= t[k]
  {
    forall k | 0 <= k < |t|
      ensures s[0] <= t[k]
    {
      assert t[k] in multiset(s);
    }
  }

  /**
   * When a state change keeps the whole multiset and leaves everything
   * outside `[lo, hi)` alone, the window `[lo, hi)` keeps its multiset.
   */
  lemma WindowMultiset(s: seq<int>, t: seq<int>, lo: int, hi: int)
    requires 0 <= lo <= hi <= |s| == |t|
    requires multiset(s) == multiset(t)
    requires forall k :: 0 <= k < |s| && !(lo <= k < hi) ==> s[k] == t[k]
    ensures multiset(s[lo..hi]) == multiset(t[lo..hi])
  {
    assert s[..lo] == t[..lo];
    assert s[hi..] == t[hi..];
    assert s == s[..lo] + s[lo..hi] + s[hi..];
    assert t == t[..lo] + t[lo..hi] + t[hi..];
    var outside := multiset(s[..lo]) + multiset(s[hi..]);
    assert multiset(s[lo..hi]) == multiset(s) - outside;
    assert multiset(t[lo..hi]) == multiset(t) - outside;
  }

  /** A permutation of a sequence bounded above by `upper` is bounded above by `upper`. */
  lemma UpperBoundFromMultiset(s: seq<int>, t: seq<int>, upper: int)
    requires multiset(s) == multiset(t)
    requires forall k :: 0 <= k < |s| ==> s[k] <= upper
    ensures forall k :: 0 <= k < |t| ==> t[k] <= upper
  {
    forall k | 0 <= k < |t|
      ensures t[k] <= upper
    {
      assert t[k] in multiset(s);
    }
  }

  /** Elements of a window with the same multiset satisfy the same bounds. */
  lemma BoundsFromMultiset(s: seq<int>, t: seq<int>, lower: int, upper: int)
    requires multiset(s) == multiset(t)
    requires forall k :: 0 <= k < |s| ==> lower <= s[k] <= upper
    ensures forall k :: 0 <= k < |t| ==> lower <= t[k] <= upper
  {
    forall k | 0 <= k < |t|
      ensures lower <= t[k] <= upper
    {
      assert t[k] in multiset(s);
    }
  }

  /** A value that may be absent: a routine that throws yields `None`. */
  datatype Option<T> = None | Some(value: T)

  /**
   * The largest element, or 0 for an empty sequence: Java's
   * `Arrays.stream(arr).max().orElse(0)`.
   */
  function MaxOrZero(s: seq<int>): (m: int)
    ensures |s| == 0 ==> m == 0
    ensures |s| > 0 ==> m in s && forall k :: 0 <= k < |s| ==> s[k] <= m
  {
    if |s| == 0 then 0
    else if |s| == 1 || s[0] >= MaxOrZero(s[1..]) then s[0]
    else MaxOrZero(s[1..])
  }

  /** The smallest element, or 0 for an empty sequence: `Arrays.stream(arr).min().orElse(0)`. */
  function MinOrZero(s: seq<int>): (m: int)
    ensures |s| == 0 ==> m == 0
    ensures |s| > 0 ==> m in s && forall k :: 0 <= k < |s| ==> m <= s[k]
  {
    if |s| == 0 then 0
    else if |s| == 1 || s[0] <= MinOrZero(s[1..]) then s[0]
    else MinOrZero(s[1..])
  }
}
