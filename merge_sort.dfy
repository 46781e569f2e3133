/**
 * Top-down merge sort on the inclusive window `[l, r]` of an array. The
 * two halves are copied out and merged back, taking from the left half
 * on ties, so the sort is stable.
 */
module MergeSorting {
  import opened SortSpec

  /**
   * The merge of two sequences as the merge loop computes it: repeatedly
   * take the smaller head, the left one when the heads are equal; once one
   * side is exhausted, the rest of the other follows.
   */
  function Merged(x: seq<int>, y: seq<int>): seq<int>
    decreases |x| + |y|
  {
    if |x| == 0 then y
    else if |y| == 0 then x
    else if x[0] <= y[0] then [x[0]] + Merged(x[1..], y)
    else [y[0]] + Merged(x, y[1..])
  }

  /** Merging loses and invents nothing: the result is a permutation of both inputs together. */
  lemma {:induction false} MergedPermutes(x: seq<int>, y: seq<int>)
    ensures |Merged(x, y)| == |x| + |y|
    ensures multiset(Merged(x, y)) == multiset(x) + multiset(y)
    decreases |x| + |y|
  {
    if |x| > 0 && |y| > 0 {
      if x[0] <= y[0] {
        MergedPermutes(x[1..], y);
        assert x == [x[0]] + x[1..];
      } else {
        MergedPermutes(x, y[1..]);
        assert y == [y[0]] + y[1..];
      }
    }
  }

  /** Merging two sorted sequences gives a sorted sequence. */
  lemma {:induction false} MergedSorted(x: seq<int>, y: seq<int>)
    requires Sorted(x) && Sorted(y)
    ensures Sorted(Merged(x, y))
    decreases |x| + |y|
  {
    if |x| > 0 && |y| > 0 {
      if x[0] <= y[0] {
        MergedSorted(x[1..], y);
        HeadBelowMerged(x[0], x[1..], y);
      } else {
        MergedSorted(x, y[1..]);
        HeadBelowMerged(y[0], x, y[1..]);
      }
    }
  }

  /** A value at most every element of both inputs is at most every element of their merge. */
  lemma HeadBelowMerged(v: int, x: seq<int>, y: seq<int>)
    requires forall k :: 0 <= k < |x| ==> v <= x[k]
    requires forall k :: 0 <= k < |y| ==> v <= y[k]
    ensures forall k :: 0 <= k < |Merged(x, y)| ==> v <= Merged(x, y)[k]
  {
    MergedPermutes(x, y);
    forall k | 0 <= k < |Merged(x, y)|
      ensures v <= Merged(x, y)[k]
    {
      var e := Merged(x, y)[k];
      assert e in multiset(x) + multiset(y);
      if e in multiset(x) {
        assert e in x;
      } else {
        assert e in y;
      }
    }
  }

  /**
   * Where each element of `Merged(x, y)` comes from: `true` for the left
   * input, `false` for the right one.
   */
  function Origins(x: seq<int>, y: seq<int>): seq<bool>
    decreases |x| + |y|
  {
    if |x| == 0 then seq(|y|, _ => false)
    else if |y| == 0 then seq(|x|, _ => true)
    else if x[0] <= y[0] then [true] + Origins(x[1..], y)
    else [false] + Origins(x, y[1..])
  }

  /** The elements of `s` whose origin flag in `o` is `side`, in order. */
  function Pick(s: seq<int>, o: seq<bool>, side: bool): seq<int>
    requires |s| == |o|
  {
    if |s| == 0 then []
    else (if o[0] == side then [s[0]] else []) + Pick(s[1..], o[1..], side)
  }

  /**
   * The merge is an interleaving: the elements taken from the left input
   * are exactly `x`, in order, and those from the right input exactly `y`.
   */
  lemma {:induction false} MergedInterleaves(x: seq<int>, y: seq<int>)
    ensures |Origins(x, y)| == |Merged(x, y)|
    ensures Pick(Merged(x, y), Origins(x, y), true) == x
    ensures Pick(Merged(x, y), Origins(x, y), false) == y
    decreases |x| + |y|
  {
    if |x| == 0 {
      AllOneSide(y, false);
    } else if |y| == 0 {
      AllOneSide(x, true);
    } else if x[0] <= y[0] {
      MergedInterleaves(x[1..], y);
      var m, o := Merged(x, y), Origins(x, y);
      assert m[1..] == Merged(x[1..], y) && o[1..] == Origins(x[1..], y);
      assert x == [x[0]] + x[1..];
    } else {
      MergedInterleaves(x, y[1..]);
      var m, o := Merged(x, y), Origins(x, y);
      assert m[1..] == Merged(x, y[1..]) && o[1..] == Origins(x, y[1..]);
      assert y == [y[0]] + y[1..];
    }
  }

  /** Picking a side from a sequence whose flags all name that side gives the whole sequence, the other side nothing. */
  lemma {:induction false} AllOneSide(s: seq<int>, side: bool)
    ensures Pick(s, seq(|s|, _ => side), side) == s
    ensures Pick(s, seq(|s|, _ => side), !side) == []
    decreases |s|
  {
    if |s| > 0 {
      AllOneSide(s[1..], side);
      assert seq(|s|, _ => side)[1..] == seq(|s| - 1, _ => side);
      assert s == [s[0]] + s[1..];
    }
  }

  /** An element of the merge flagged as coming from the left input is an element of `x`. */
  lemma {:induction false} LeftOriginInLeft(x: seq<int>, y: seq<int>, q: int)
    requires 0 <= q < |Merged(x, y)| && |Origins(x, y)| == |Merged(x, y)|
    requires Origins(x, y)[q]
    ensures Merged(x, y)[q] in x
    decreases |x| + |y|
  {
    if |x| > 0 && |y| > 0 && q > 0 {
      MergedInterleaves(x[1..], y);
      MergedInterleaves(x, y[1..]);
      if x[0] <= y[0] {
        LeftOriginInLeft(x[1..], y, q - 1);
      } else {
        LeftOriginInLeft(x, y[1..], q - 1);
      }
    }
  }

  /**
   * Stability: when both inputs are sorted, an element from the right
   * input comes before an element from the left input only when it is
   * strictly smaller. Equal elements keep the left-before-right order.
   */
  lemma {:induction false} MergedStable(x: seq<int>, y: seq<int>)
    requires Sorted(x) && Sorted(y)
    ensures |Origins(x, y)| == |Merged(x, y)|
    ensures forall p, q :: 0 <= p < q < |Merged(x, y)| && !Origins(x, y)[p] && Origins(x, y)[q] ==>
              Merged(x, y)[p] < Merged(x, y)[q]
    decreases |x| + |y|
  {
    MergedInterleaves(x, y);
    if |x| > 0 && |y| > 0 {
      var m, o := Merged(x, y), Origins(x, y);
      if x[0] <= y[0] {
        MergedStable(x[1..], y);
        assert m[1..] == Merged(x[1..], y) && o[1..] == Origins(x[1..], y);
        forall p, q | 0 <= p < q < |m| && !o[p] && o[q]
          ensures m[p] < m[q]
        {
          assert m[p] == m[1..][p - 1] && m[q] == m[1..][q - 1];
        }
      } else {
        MergedStable(x, y[1..]);
        assert m[1..] == Merged(x, y[1..]) && o[1..] == Origins(x, y[1..]);
        forall p, q | 0 <= p < q < |m| && !o[p] && o[q]
          ensures m[p] < m[q]
        {
          if p == 0 {
            LeftOriginInLeft(x, y, q);
            assert m[q] >= x[0];
          } else {
            assert m[p] == m[1..][p - 1] && m[q] == m[1..][q - 1];
          }
        }
      }
    }
  }

  /**
   * Merges the sorted windows `a[l..m]` and `a[m+1..r]` (both inclusive) in
   * place. Afterwards `a[l..r]` is their merge, and nothing outside the
   * window has changed.
   */
  method Merge(a: array<int>, l: int, m: int, r: int)
    requires 0 <= l <= m + 1 <= r + 1 <= a.Length
    modifies a
    ensures a[l..r + 1] == Merged(old(a[l..m + 1]), old(a[m + 1..r + 1]))
    ensures forall k :: 0 <= k < a.Length && !(l <= k <= r) ==> a[k] == old(a[k])
  {
    var L, R := a[l..m + 1], a[m + 1..r + 1];
    ghost var a0 := a[..];
    ghost var merged := Merged(L, R);
    MergedPermutes(L, R);
    var i, j := MergeHeads(a, L, R, l, a0, merged);
    i := CopyLeftRest(a, L, R, l, i, j, a0, merged);
    j := CopyRightRest(a, L, R, l, i, j, a0, merged);
    WrittenAll(a[..], a0, l, r + 1, merged);
  }

  /**
   * The first loop of the merge: while both halves have elements left,
   * write the smaller head at the next position, the left one on ties.
   * It stops when one half is used up.
   */
  method MergeHeads(a: array<int>, L: seq<int>, R: seq<int>, l: int, ghost a0: seq<int>, ghost merged: seq<int>)
      returns (i: int, j: int)
    requires Remaining(L, R, 0, 0, merged) && Written(a[..], a0, l, l, merged)
    requires l + |L| + |R| <= a.Length
    modifies a
    ensures Remaining(L, R, i, j, merged) && Written(a[..], a0, l, l + i + j, merged)
    ensures i == |L| || j == |R|
  {
    i, j := 0, 0;
    var k := l;
    while i < |L| && j < |R|
      invariant k == l + i + j
      invariant Remaining(L, R, i, j, merged)
      invariant Written(a[..], a0, l, k, merged)
    {
      ghost var before := a[..];
      if L[i] <= R[j] {
        TakeLeft(L, R, i, j, merged);
        a[k] := L[i];
        i := i + 1;
      } else {
        TakeRight(L, R, i, j, merged);
        a[k] := R[j];
        j := j + 1;
      }
      WriteStep(before, a[..], a0, l, k, merged);
      k := k + 1;
    }
  }

  /** The second loop of the merge: copy what is left of the left half. */
  method CopyLeftRest(a: array<int>, L: seq<int>, R: seq<int>, l: int, i0: int, j: int, ghost a0: seq<int>, ghost merged: seq<int>)
      returns (i: int)
    requires Remaining(L, R, i0, j, merged) && Written(a[..], a0, l, l + i0 + j, merged)
    requires (i0 == |L| || j == |R|) && l + |L| + |R| <= a.Length
    modifies a
    ensures i == |L|
    ensures Remaining(L, R, i, j, merged) && Written(a[..], a0, l, l + i + j, merged)
  {
    i := i0;
    var k := l + i + j;
    while i < |L|
      invariant k == l + i + j && (i == |L| || j == |R|)
      invariant Remaining(L, R, i, j, merged)
      invariant Written(a[..], a0, l, k, merged)
    {
      ghost var before := a[..];
      TakeLeft(L, R, i, j, merged);
      a[k] := L[i];
      WriteStep(before, a[..], a0, l, k, merged);
      i, k := i + 1, k + 1;
    }
  }

  /** The third loop of the merge: copy what is left of the right half. */
  method CopyRightRest(a: array<int>, L: seq<int>, R: seq<int>, l: int, i: int, j0: int, ghost a0: seq<int>, ghost merged: seq<int>)
      returns (j: int)
    requires Remaining(L, R, i, j0, merged) && Written(a[..], a0, l, l + i + j0, merged)
    requires i == |L| && l + |L| + |R| <= a.Length
    modifies a
    ensures j == |R|
    ensures Remaining(L, R, i, j, merged) && Written(a[..], a0, l, l + i + j, merged)
  {
    j := j0;
    var k := l + i + j;
    while j < |R|
      invariant k == l + i + j
      invariant Remaining(L, R, i, j, merged)
      invariant Written(a[..], a0, l, k, merged)
    {
      ghost var before := a[..];
      TakeRight(L, R, i, j, merged);
      a[k] := R[j];
      WriteStep(before, a[..], a0, l, k, merged);
      j, k := j + 1, k + 1;
    }
  }

  /** What is still to be merged, `L[i..]` with `R[j..]`, is the rest of the merge. */
  ghost predicate Remaining(L: seq<int>, R: seq<int>, i: int, j: int, merged: seq<int>) {
    0 <= i <= |L| && 0 <= j <= |R| && |merged| == |L| + |R|
    && Merged(L[i..], R[j..]) == merged[i + j..]
  }

  /**
   * The array `s` holds the first `k - l` elements of the merge from index
   * `l` on, and agrees with the original `s0` everywhere else.
   */
  ghost predicate Written(s: seq<int>, s0: seq<int>, l: int, k: int, merged: seq<int>) {
    0 <= l <= k <= |s| == |s0| && k - l <= |merged|
    && (forall p :: l <= p < k ==> s[p] == merged[p - l])
    && (forall p :: 0 <= p < |s| && !(l <= p < k) ==> s[p] == s0[p])
  }

  /** Writing the next element of the merge at `k` extends the written part by one. */
  lemma WriteStep(s: seq<int>, t: seq<int>, s0: seq<int>, l: int, k: int, merged: seq<int>)
    requires Written(s, s0, l, k, merged)
    requires k < |s| && k - l < |merged| && t == s[k := merged[k - l]]
    ensures Written(t, s0, l, k + 1, merged)
  {
  }

  /** Once the whole merge is written, the window is the merge. */
  lemma WrittenAll(s: seq<int>, s0: seq<int>, l: int, k: int, merged: seq<int>)
    requires Written(s, s0, l, k, merged) && k - l == |merged|
    ensures s[l..k] == merged
  {
  }

  /**
   * Taking the left head `L[i]` (it is not larger than the right head)
   * writes the next element of the merge and leaves the merge of the rest.
   */
  lemma TakeLeft(L: seq<int>, R: seq<int>, i: int, j: int, merged: seq<int>)
    requires Remaining(L, R, i, j, merged) && i < |L| && (j == |R| || L[i] <= R[j])
    ensures i + j < |merged| && merged[i + j] == L[i]
    ensures Remaining(L, R, i + 1, j, merged)
  {
    assert L[i..][1..] == L[i + 1..];
    assert Merged(L[i..], R[j..]) == [L[i]] + Merged(L[i + 1..], R[j..]);
    assert merged[i + j + 1..] == merged[i + j..][1..];
  }

  /**
   * Taking the right head `R[j]` (it is smaller than the left head, or the
   * left half is used up) writes the next element of the merge.
   */
  lemma TakeRight(L: seq<int>, R: seq<int>, i: int, j: int, merged: seq<int>)
    requires Remaining(L, R, i, j, merged) && j < |R| && (i == |L| || R[j] < L[i])
    ensures i + j < |merged| && merged[i + j] == R[j]
    ensures Remaining(L, R, i, j + 1, merged)
  {
    assert R[j..][1..] == R[j + 1..];
    assert Merged(L[i..], R[j..]) == [R[j]] + Merged(L[i..], R[j + 1..]);
    assert merged[i + j + 1..] == merged[i + j..][1..];
  }

  /**
   * Sorts the inclusive window `a[l..r]`: split at the midpoint, sort both
   * halves, merge. The window ends up sorted and a permutation of what it
   * held; the rest of the array is untouched.
   */
  method MergeSort(a: array<int>, l: int, r: int)
    requires 0 <= l <= r + 1 <= a.Length
    modifies a
    ensures Sorted(a[l..r + 1])
    ensures multiset(a[l..r + 1]) == old(multiset(a[l..r + 1]))
    ensures forall k :: 0 <= k < a.Length && !(l <= k <= r) ==> a[k] == old(a[k])
    decreases r - l
  {
    if l < r {
      var m := (l + r) / 2;
      ghost var a0 := a[..];
      MergeSort(a, l, m);
      ghost var a1 := a[..];
      MergeSort(a, m + 1, r);
      ghost var a2 := a[..];
      Merge(a, l, m, r);
      SplitMergeSorts(a0, a1, a2, a[..], l, m, r);
    }
  }

  /**
   * One level of the recursion on sequences: sorting the left half
   * (`s0` to `s1`), then the right half (`s1` to `s2`), then merging them
   * (`s2` to `s3`) leaves `[l, r]` sorted and a permutation of what it held.
   */
  lemma SplitMergeSorts(s0: seq<int>, s1: seq<int>, s2: seq<int>, s3: seq<int>, l: int, m: int, r: int)
    requires 0 <= l <= m < r < |s0| == |s1| == |s2| == |s3|
    requires Sorted(s1[l..m + 1]) && multiset(s1[l..m + 1]) == multiset(s0[l..m + 1])
    requires forall k :: 0 <= k < |s0| && !(l <= k <= m) ==> s1[k] == s0[k]
    requires Sorted(s2[m + 1..r + 1]) && multiset(s2[m + 1..r + 1]) == multiset(s1[m + 1..r + 1])
    requires forall k :: 0 <= k < |s0| && !(m + 1 <= k <= r) ==> s2[k] == s1[k]
    requires s3[l..r + 1] == Merged(s2[l..m + 1], s2[m + 1..r + 1])
    ensures Sorted(s3[l..r + 1])
    ensures multiset(s3[l..r + 1]) == multiset(s0[l..r + 1])
  {
    assert s2[l..m + 1] == s1[l..m + 1];
    assert s1[m + 1..r + 1] == s0[m + 1..r + 1];
    MergedSorted(s2[l..m + 1], s2[m + 1..r + 1]);
    MergedPermutes(s2[l..m + 1], s2[m + 1..r + 1]);
    assert s0[l..r + 1] == s0[l..m + 1] + s0[m + 1..r + 1];
  }
}
