/**
 * The two search routines of the engine. Both only read the array and
 * answer with an index into it, or `-1` for "not found".
 */
module Searches {
  import opened SortSpec

  /**
   * Front-to-back scan: the first index holding `x`, or `-1` exactly when
   * `x` does not occur.
   */
  method LinearSearch(a: array<int>, x: int) returns (index: int)
    ensures -1 <= index < a.Length
    ensures index >= 0 ==> a[index] == x && forall k :: 0 <= k < index ==> a[k] != x
    ensures index == -1 <==> x !in a[..]
  {
    var i := 0;
    while i < a.Length
      invariant 0 <= i <= a.Length
      invariant x !in a[..i]
    {
      if a[i] == x {
        return i;
      }
      i := i + 1;
    }
    assert a[..i] == a[..];
    return -1;
  }

  /**
   * The overflow-safe midpoint of the search window: it never leaves
   * `[l, r]`, so the probe is always in bounds.
   */
  function Midpoint(l: int, r: int): (m: int)
    requires l <= r
    ensures l <= m <= r
    ensures m - l <= r - m <= m - l + 1
  {
    l + (r - l) / 2
  }

  /**
   * Classic bisection on the window `[l, r]`. A non-negative answer is
   * always a position of `x`, sorted or not; on a sorted array the answer
   * is `-1` exactly when `x` is absent. The index is the first match met
   * while narrowing, not necessarily the leftmost one.
   */
  method BinarySearch(a: array<int>, x: int) returns (index: int)
    ensures -1 <= index < a.Length
    ensures index >= 0 ==> a[index] == x
    ensures Sorted(a[..]) ==> (index == -1 <==> x !in a[..])
  {
    var l, r := 0, a.Length - 1;
    while l <= r
      invariant 0 <= l <= a.Length && -1 <= r < a.Length
      invariant Sorted(a[..]) ==> forall k :: 0 <= k < a.Length && (k < l || r < k) ==> a[k] != x
      decreases r - l
    {
      var m := Midpoint(l, r);
      if a[m] == x {
        return m;
      }
      if a[m] < x {
        l := m + 1;
      } else {
        r := m - 1;
      }
    }
    return -1;
  }
}
