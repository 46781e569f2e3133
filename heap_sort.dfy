/**
 * Heap sort over an implicit binary max-heap: the children of node `p`
 * are `2p+1` and `2p+2`. The heap is built bottom-up by sifting down every
 * inner node, then the maximum is repeatedly swapped to the end of the
 * shrinking heap and the new root is sifted down.
 */
module Heaps {
  import opened SortSpec
  import opened SimpleSorts

  /** `c` is a child of `p` in the implicit tree. */
  predicate IsChild(p: int, c: int) {
    c == 2 * p + 1 || c == 2 * p + 2
  }

  /** `v` is at least every child of node `i` inside the first `n` cells. */
  predicate AtLeastChildren(s: seq<int>, n: int, i: int, v: int)
    requires n <= |s|
  {
    (0 <= 2 * i + 1 < n ==> v >= s[2 * i + 1]) && (0 <= 2 * i + 2 < n ==> v >= s[2 * i + 2])
  }

  /**
   * Every parent-child edge inside the first `n` cells whose parent is at
   * least `lo` and is not `x` is in heap order (parent not smaller).
   */
  ghost predicate HeapExcept(s: seq<int>, lo: int, n: int, x: int) {
    forall p, c {:trigger IsChild(p, c)} :: 0 <= lo <= p < c < n && c < |s| && p != x && IsChild(p, c) ==> s[p] >= s[c]
  }

  /** The nodes from `lo` on of the first `n` cells form max-heaps with their subtrees. */
  ghost predicate Heap(s: seq<int>, lo: int, n: int) {
    HeapExcept(s, lo, n, -1)
  }

  /**
   * Sifts `a[i]` down inside the heap `a[..n]`. When every edge from a
   * node `>= lo` other than `i` is in heap order (and, when the parent of
   * `i` is `>= lo`, that parent is not below the children of `i`), every
   * edge from a node `>= lo` is afterwards. Only cells of `[i, n)` move;
   * on a tie the parent stays, so a node already at least its children is
   * left as it is.
   */
  method Heapify(a: array<int>, n: int, i: int, ghost lo: int)
    requires 0 <= lo <= i < n <= a.Length
    requires HeapExcept(a[..], lo, n, i)
    requires 0 < i && lo <= (i - 1) / 2 ==> AtLeastChildren(a[..], n, i, a[(i - 1) / 2])
    modifies a
    ensures Heap(a[..], lo, n)
    ensures multiset(a[..]) == old(multiset(a[..]))
    ensures forall k :: 0 <= k < a.Length && !(i <= k < n) ==> a[k] == old(a[k])
    ensures AtLeastChildren(old(a[..]), n, i, old(a[i])) ==> a[..] == old(a[..])
    decreases n - i
  {
    var largest, l, r := i, 2 * i + 1, 2 * i + 2;
    if l < n && a[l] > a[largest] {
      largest := l;
    }
    if r < n && a[r] > a[largest] {
      largest := r;
    }
    if largest != i {
      ghost var s0 := a[..];
      assert !AtLeastChildren(s0, n, i, s0[i]);
      Swap(a, i, largest);
      SwapDown(s0, a[..], lo, n, i, largest);
      Heapify(a, n, largest, lo);
    } else {
      NodeInOrder(a[..], lo, n, i);
    }
  }

  /** A node not below its children closes the only gap in the heap. */
  lemma NodeInOrder(s: seq<int>, lo: int, n: int, i: int)
    requires 0 <= lo <= i < n <= |s|
    requires HeapExcept(s, lo, n, i)
    requires AtLeastChildren(s, n, i, s[i])
    ensures Heap(s, lo, n)
  {
  }

  /**
   * Swapping a node with its larger child repairs the node's own edges and
   * moves the only possibly broken node down to the child's position.
   */
  lemma SwapDown(s: seq<int>, t: seq<int>, lo: int, n: int, i: int, m: int)
    requires 0 <= lo <= i < m < n <= |s| == |t| && IsChild(i, m)
    requires HeapExcept(s, lo, n, i)
    requires 0 < i && lo <= (i - 1) / 2 ==> AtLeastChildren(s, n, i, s[(i - 1) / 2])
    requires s[m] > s[i] && AtLeastChildren(s, n, i, s[m])
    requires t == s[i := s[m]][m := s[i]]
    ensures HeapExcept(t, lo, n, m)
    ensures AtLeastChildren(t, n, m, t[(m - 1) / 2])
  {
    assert (m - 1) / 2 == i;
    assert IsChild(m, 2 * m + 1) && IsChild(m, 2 * m + 2);
    forall p, c | 0 <= lo <= p < c < n && c < |t| && p != m && IsChild(p, c)
      ensures t[p] >= t[c]
    {
      if p == i {
        assert t[p] == s[m];
        assert c == m || t[c] == s[c];
      } else if c == i {
        assert p == (i - 1) / 2 && t[p] == s[p] && t[c] == s[m];
      } else {
        assert c != m;
        assert t[p] == s[p] && t[c] == s[c];
      }
    }
  }

  /** The root of a heap is its maximum. */
  lemma {:induction false} HeapRootIsMax(s: seq<int>, n: int, k: int)
    requires Heap(s, 0, n) && 0 <= k < n <= |s|
    ensures s[0] >= s[k]
    decreases k
  {
    if k > 0 {
      var p := (k - 1) / 2;
      HeapRootIsMax(s, n, p);
      assert IsChild(p, k);
    }
  }

  /**
   * Sorts the array: build a max-heap over the whole array, then swap its
   * root, the maximum, behind the shrinking heap and restore the heap.
   */
  method HeapSort(a: array<int>)
    modifies a
    ensures Sorted(a[..])
    ensures multiset(a[..]) == old(multiset(a[..]))
  {
    var n := a.Length;
    BuildHeap(a);
    var i := n - 1;
    while i > 0
      invariant -1 <= i < n && (n > 0 ==> i >= 0)
      invariant Heap(a[..], 0, i + 1)
      invariant SortedBetween(a[..], i + 1, n)
      invariant forall p, q :: 0 <= p <= i < q < n ==> a[p] <= a[q]
      invariant multiset(a[..]) == old(multiset(a[..]))
    {
      ExtractMax(a, i);
      i := i - 1;
    }
  }

  /** The build loop: heapify every inner node, from the last one up to the root. */
  method BuildHeap(a: array<int>)
    modifies a
    ensures Heap(a[..], 0, a.Length)
    ensures multiset(a[..]) == old(multiset(a[..]))
  {
    var n := a.Length;
    var i := n / 2 - 1;
    while i >= 0
      invariant -1 <= i < n
      invariant Heap(a[..], i + 1, n)
      invariant multiset(a[..]) == old(multiset(a[..]))
    {
      Heapify(a, n, i, i);
      i := i - 1;
    }
  }

  /**
   * One extraction step: the root of the heap `a[..i+1]`, its maximum,
   * goes to `a[i]`, and the heap shrinks to `a[..i]`. The sorted suffix
   * grows by one and stays above everything before it.
   */
  method ExtractMax(a: array<int>, i: int)
    requires 0 < i < a.Length
    requires Heap(a[..], 0, i + 1)
    requires SortedBetween(a[..], i + 1, a.Length)
    requires forall p, q :: 0 <= p <= i < q < a.Length ==> a[p] <= a[q]
    modifies a
    ensures Heap(a[..], 0, i)
    ensures SortedBetween(a[..], i, a.Length)
    ensures forall p, q :: 0 <= p < i <= q < a.Length ==> a[p] <= a[q]
    ensures multiset(a[..]) == old(multiset(a[..]))
  {
    forall k | 0 <= k <= i
      ensures a[0] >= a[k]
    {
      HeapRootIsMax(a[..], i + 1, k);
    }
    Swap(a, 0, i);
    ghost var swapped := a[..];
    Heapify(a, i, 0, 0);
    ghost var t := a[..];
    WindowMultiset(swapped, t, 0, i);
    forall q | i <= q < a.Length
      ensures forall p :: 0 <= p < i ==> t[p] <= t[q]
    {
      UpperBoundFromMultiset(swapped[..i], t[..i], t[q]);
      forall p | 0 <= p < i
        ensures t[p] <= t[q]
      {
        assert t[p] == t[..i][p];
      }
    }
  }
}
