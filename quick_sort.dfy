/**
 * Quick sort with the Lomuto partition scheme: the last element of the
 * window is the pivot, smaller elements are swapped to the front, and the
 * pivot is finally swapped into the gap between the two parts.
 */
module QuickSorting {
  import opened SortSpec
  import opened SimpleSorts

  /**
   * Partitions the inclusive window `[low, high]` around the pivot
   * `a[high]`. The returned position holds the pivot, everything before it
   * in the window is strictly smaller, everything after it is at least the
   * pivot, and the rest of the array is untouched.
   */
  method Partition(a: array<int>, low: int, high: int) returns (p: int)
    requires 0 <= low <= high < a.Length
    modifies a
    ensures low <= p <= high
    ensures a[p] == old(a[high])
    ensures forall k :: low <= k < p ==> a[k] < a[p]
    ensures forall k :: p < k <= high ==> a[k] >= a[p]
    ensures forall k :: 0 <= k < a.Length && !(low <= k <= high) ==> a[k] == old(a[k])
    ensures multiset(a[low..high + 1]) == old(multiset(a[low..high + 1]))
  {
    ghost var a0 := a[..];
    var pivot := a[high];
    var i := low - 1;
    var j := low;
    while j < high
      invariant low - 1 <= i < j <= high
      invariant a[high] == pivot
      invariant forall k :: low <= k <= i ==> a[k] < pivot
      invariant forall k :: i < k < j ==> a[k] >= pivot
      invariant forall k :: 0 <= k < a.Length && !(low <= k <= high) ==> a[k] == a0[k]
      invariant multiset(a[..]) == multiset(a0)
    {
      if a[j] < pivot {
        i := i + 1;
        Swap(a, i, j);
      }
      j := j + 1;
    }
    Swap(a, i + 1, high);
    p := i + 1;
    WindowMultiset(a0, a[..], low, high + 1);
  }

  /**
   * Sorts the inclusive window `[low, high]`; an empty window
   * (`low == high + 1`) is left alone. The window ends up sorted and a
   * permutation of what it held; the rest of the array is untouched.
   */
  method QuickSort(a: array<int>, low: int, high: int)
    requires 0 <= low <= high + 1 <= a.Length
    modifies a
    ensures Sorted(a[low..high + 1])
    ensures multiset(a[low..high + 1]) == old(multiset(a[low..high + 1]))
    ensures forall k :: 0 <= k < a.Length && !(low <= k <= high) ==> a[k] == old(a[k])
    decreases high - low
  {
    if low < high {
      var p := Partition(a, low, high);
      ghost var a1 := a[..];
      QuickSort(a, low, p - 1);
      ghost var a2 := a[..];
      QuickSort(a, p + 1, high);
      SortedAroundPivot(a1, a2, a[..], low, p, high);
    }
  }

  /**
   * One level of the recursion on sequences: after a partition (`s1`),
   * sorting the part before the pivot (`s1` to `s2`) and then the part
   * after it (`s2` to `s3`) leaves `[low, high]` sorted and a permutation
   * of the partitioned window.
   */
  lemma SortedAroundPivot(s1: seq<int>, s2: seq<int>, s3: seq<int>, low: int, p: int, high: int)
    requires 0 <= low <= p <= high < |s1| == |s2| == |s3|
    requires forall k :: low <= k < p ==> s1[k] < s1[p]
    requires forall k :: p < k <= high ==> s1[k] >= s1[p]
    requires Sorted(s2[low..p]) && multiset(s2[low..p]) == multiset(s1[low..p])
    requires forall k :: 0 <= k < |s1| && !(low <= k < p) ==> s2[k] == s1[k]
    requires Sorted(s3[p + 1..high + 1]) && multiset(s3[p + 1..high + 1]) == multiset(s2[p + 1..high + 1])
    requires forall k :: 0 <= k < |s1| && !(p + 1 <= k <= high) ==> s3[k] == s2[k]
    ensures Sorted(s3[low..high + 1])
    ensures multiset(s3[low..high + 1]) == multiset(s1[low..high + 1])
  {
    assert s3[low..p] == s2[low..p];
    assert s2[p + 1..high + 1] == s1[p + 1..high + 1];
    forall k | low <= k < p
      ensures s3[k] < s1[p]
    {
      assert s3[k] == s3[low..p][k - low];
      assert s3[k] in multiset(s1[low..p]);
    }
    forall k | p < k <= high
      ensures s3[k] >= s1[p]
    {
      assert s3[k] == s3[p + 1..high + 1][k - p - 1];
      assert s3[k] in multiset(s1[p + 1..high + 1]);
    }
    assert s3[low..high + 1] == s3[low..p] + [s3[p]] + s3[p + 1..high + 1];
    assert s1[low..high + 1] == s1[low..p] + [s1[p]] + s1[p + 1..high + 1];
  }
}
