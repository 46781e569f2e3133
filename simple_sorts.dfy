/**
 * The comparison sorts that work by nested loops over the array:
 * selection, insertion, bubble and shell sort. Each sorts the array in
 * place into non-decreasing order and leaves it a permutation of what it
 * was; on empty and one-element arrays the loops do not run.
 */
module SimpleSorts {
  import opened SortSpec
  import opened Arith

  /** Exchanges two cells, as the three-assignment swaps of the routines do. */
  method Swap(a: array<int>, i: int, j: int)
    requires 0 <= i < a.Length && 0 <= j < a.Length
    modifies a
    ensures a[i] == old(a[j]) && a[j] == old(a[i])
    ensures forall k :: 0 <= k < a.Length && k != i && k != j ==> a[k] == old(a[k])
    ensures multiset(a[..]) == old(multiset(a[..]))
  {
    var t := a[i];
    a[i] := a[j];
    a[j] := t;
  }

  /**
   * Each pass selects the minimum of the unsorted suffix and swaps it to
   * the front of that suffix.
   */
  method SelectionSort(a: array<int>)
    modifies a
    ensures Sorted(a[..])
    ensures multiset(a[..]) == old(multiset(a[..]))
  {
    var i := 0;
    while i < a.Length - 1
      invariant 0 <= i <= a.Length
      invariant a.Length > 0 ==> i <= a.Length - 1
      invariant SortedBetween(a[..], 0, i)
      invariant forall p, q :: 0 <= p < i <= q < a.Length ==> a[p] <= a[q]
      invariant multiset(a[..]) == old(multiset(a[..]))
    {
      var minIdx := i;
      var j := i + 1;
      while j < a.Length
        invariant i < j <= a.Length
        invariant i <= minIdx < j
        invariant forall k :: i <= k < j ==> a[minIdx] <= a[k]
      {
        if a[j] < a[minIdx] {
          minIdx := j;
        }
        j := j + 1;
      }
      Swap(a, i, minIdx);
      i := i + 1;
    }
  }

  /**
   * Repeated passes of adjacent exchanges; pass `i` carries the largest
   * element of `a[..n-i]` to position `n-i-1`. There is no early exit:
   * all passes run.
   */
  method BubbleSort(a: array<int>)
    modifies a
    ensures Sorted(a[..])
    ensures multiset(a[..]) == old(multiset(a[..]))
  {
    var i := 0;
    while i < a.Length - 1
      invariant 0 <= i && (a.Length > 0 ==> i <= a.Length - 1)
      invariant SettledFrom(a[..], a.Length - i)
      invariant multiset(a[..]) == old(multiset(a[..]))
    {
      BubblePass(a, i);
      i := i + 1;
    }
  }

  /** `s[m..]` is sorted and holds the largest elements: nothing before `m` exceeds anything from `m` on. */
  ghost predicate SettledFrom(s: seq<int>, m: int) {
    SortedBetween(s, m, |s|) &&
    forall p, q :: 0 <= p < m <= q < |s| ==> s[p] <= s[q]
  }

  /** Pass `i` of bubble sort: the largest of `a[..n-i]` bubbles up to `n-i-1`. */
  method BubblePass(a: array<int>, i: int)
    requires 0 <= i < a.Length - 1
    requires SettledFrom(a[..], a.Length - i)
    modifies a
    ensures SettledFrom(a[..], a.Length - i - 1)
    ensures multiset(a[..]) == old(multiset(a[..]))
    ensures forall k :: a.Length - i <= k < a.Length ==> a[k] == old(a[k])
  {
    var n := a.Length;
    var j := 0;
    while j < n - i - 1
      invariant 0 <= j <= n - i - 1
      invariant forall k :: 0 <= k <= j ==> a[k] <= a[j]
      invariant SettledFrom(a[..], n - i)
      invariant multiset(a[..]) == old(multiset(a[..]))
      invariant forall k :: n - i <= k < n ==> a[k] == old(a[k])
    {
      BubbleStep(a, i, j);
      j := j + 1;
    }
  }

  /**
   * One comparison of a bubble sort pass: the out-of-order pair at `j` is
   * swapped, so the largest element seen so far moves on to `j + 1`.
   */
  method BubbleStep(a: array<int>, i: int, j: int)
    requires 0 <= i && 0 <= j < a.Length - i - 1
    requires forall k :: 0 <= k <= j ==> a[k] <= a[j]
    requires SettledFrom(a[..], a.Length - i)
    modifies a
    ensures forall k :: 0 <= k <= j + 1 ==> a[k] <= a[j + 1]
    ensures SettledFrom(a[..], a.Length - i)
    ensures multiset(a[..]) == old(multiset(a[..]))
    ensures forall k :: 0 <= k < a.Length && k != j && k != j + 1 ==> a[k] == old(a[k])
  {
    if a[j] > a[j + 1] {
      Swap(a, j, j + 1);
    }
  }

  /**
   * Each element in turn is lifted out as `key`, larger predecessors are
   * shifted one place right, and `key` drops into the gap. The "Nearly
   * Sorted" selection runs this same routine.
   */
  method InsertionSort(a: array<int>)
    modifies a
    ensures Sorted(a[..])
    ensures multiset(a[..]) == old(multiset(a[..]))
  {
    var i := 1;
    while i < a.Length
      invariant 1 <= i && (a.Length > 0 ==> i <= a.Length)
      invariant GapSorted(a[..], 1, i)
      invariant multiset(a[..]) == old(multiset(a[..]))
    {
      InsertKey(a, i);
      i := i + 1;
    }
    AdjacentSortedIsSorted(a[..], a.Length);
  }

  /** One outer step of insertion sort: `a[..i]` is in order, afterwards `a[..i+1]` is. */
  method InsertKey(a: array<int>, i: int)
    requires 1 <= i < a.Length
    requires GapSorted(a[..], 1, i)
    modifies a
    ensures GapSorted(a[..], 1, i + 1)
    ensures multiset(a[..]) == old(multiset(a[..]))
    ensures a[i + 1..] == old(a[i + 1..])
  {
    ghost var b := a[..];
    var key := a[i];
    var j := ShiftLarger(a, i, key, b);
    ghost var before := a[..];
    a[j + 1] := key;
    InsertedInOrder(b, before, a[..], i, j + 1);
  }

  /**
   * The shifting loop of insertion sort: walking down from `i - 1`, every
   * element larger than `key` moves up one place. The hole it leaves,
   * `j + 1`, has only elements at most `key` below it.
   */
  method ShiftLarger(a: array<int>, i: int, key: int, ghost b: seq<int>) returns (j: int)
    requires 1 <= i < a.Length && b == a[..] && key == b[i]
    modifies a
    ensures -1 <= j < i && Shifted(b, a[..], i, j + 1)
    ensures j >= 0 ==> a[j] <= key
  {
    j := i - 1;
    while j >= 0 && a[j] > key
      invariant -1 <= j < i
      invariant Shifted(b, a[..], i, j + 1)
    {
      ShiftOne(a, i, j, b);
      j := j - 1;
    }
  }

  /** One iteration of the shifting loop: `a[j]` moves up into the hole at `j + 1`. */
  method ShiftOne(a: array<int>, i: int, j: int, ghost b: seq<int>)
    requires 0 <= j < i && Shifted(b, a[..], i, j + 1) && a[j] > b[i]
    modifies a
    ensures Shifted(b, a[..], i, j)
  {
    ghost var before := a[..];
    a[j + 1] := a[j];
    ShiftStep(b, before, a[..], i, j + 1);
  }

  /**
   * The state of the shifting loop of insertion sort, relative to the
   * array `b` it started from: `b[..h]` is untouched, `b[h..i]` has been
   * moved up one place (and is larger than the key `b[i]`), and the cell
   * `h` is the hole the key will fill.
   */
  ghost predicate Shifted(b: seq<int>, s: seq<int>, i: int, h: int)
  {
    0 <= h <= i < |b| == |s| &&
    (forall k {:trigger s[k]} :: 0 <= k < h ==> s[k] == b[k]) &&
    (forall k {:trigger s[k]} :: h < k <= i ==> s[k] == b[k - 1] && s[k] > b[i]) &&
    (forall k {:trigger s[k]} :: i < k < |s| ==> s[k] == b[k]) &&
    multiset(s[h := b[i]]) == multiset(b)
  }

  /** Copying the cell below the hole into it moves the hole down by one. */
  lemma ShiftStep(b: seq<int>, s: seq<int>, t: seq<int>, i: int, h: int)
    requires Shifted(b, s, i, h) && h > 0 && s[h - 1] > b[i]
    requires t == s[h := s[h - 1]]
    ensures Shifted(b, t, i, h - 1)
  {
    var u := s[h := b[i]];
    assert s[h := s[h - 1]][h - 1 := b[i]] == u[h - 1 := u[h]][h := u[h - 1]];
  }

  /** Dropping the key into the hole completes `b[..i+1]` in order, as a permutation of `b`. */
  lemma InsertedInOrder(b: seq<int>, s: seq<int>, t: seq<int>, i: int, h: int)
    requires Shifted(b, s, i, h)
    requires GapSorted(b, 1, i)
    requires h > 0 ==> s[h - 1] <= b[i]
    requires t == s[h := b[i]]
    ensures GapSorted(t, 1, i + 1)
    ensures multiset(t) == multiset(b)
    ensures t[i + 1..] == b[i + 1..]
  {
    forall k | 0 <= k && k + 1 < i + 1
      ensures t[k] <= t[k + 1]
    {
      if k + 1 < h {
        assert t[k] == b[k] && t[k + 1] == b[k + 1];
      } else if k > h {
        assert t[k] == b[k - 1] && t[k + 1] == b[k];
      }
    }
  }

  /**
   * Gapped insertion sort for the gaps `n/2, n/4, ..., 1`. Each pass leaves
   * every pair `gap` apart in order; the last pass, with gap 1, leaves the
   * whole array in order.
   */
  method ShellSort(a: array<int>)
    modifies a
    ensures Sorted(a[..])
    ensures multiset(a[..]) == old(multiset(a[..]))
  {
    var gap := a.Length / 2;
    while gap > 0
      invariant gap >= 0 && (gap == 0 ==> Sorted(a[..]))
      invariant multiset(a[..]) == old(multiset(a[..]))
    {
      GapPass(a, gap);
      if gap == 1 {
        AdjacentSortedIsSorted(a[..], a.Length);
      }
      gap := gap / 2;
    }
  }

  /** One round of shell sort: afterwards every pair `gap` apart is in order. */
  method GapPass(a: array<int>, gap: int)
    requires gap >= 1
    modifies a
    ensures GapSorted(a[..], gap, a.Length)
    ensures multiset(a[..]) == old(multiset(a[..]))
  {
    var i := gap;
    while i < a.Length
      invariant gap <= i && (i > a.Length ==> i == gap)
      invariant GapSorted(a[..], gap, i)
      invariant multiset(a[..]) == old(multiset(a[..]))
    {
      GapInsert(a, gap, i);
      i := i + 1;
    }
  }

  /**
   * One step of a shell sort round: `a[i]` is lifted out as `temp`, the
   * larger elements of its chain `i - gap, i - 2*gap, ...` move up one
   * link, and `temp` fills the hole.
   */
  method GapInsert(a: array<int>, gap: int, i: int)
    requires 1 <= gap <= i < a.Length
    requires GapSorted(a[..], gap, i)
    modifies a
    ensures GapSorted(a[..], gap, i + 1)
    ensures multiset(a[..]) == old(multiset(a[..]))
    ensures a[i + 1..] == old(a[i + 1..])
  {
    ghost var b := a[..];
    var temp := a[i];
    var j := ShiftChain(a, gap, i, temp, b);
    ghost var before := a[..];
    a[j] := temp;
    GapInsertedInOrder(b, before, a[..], gap, i, j);
  }

  /**
   * The shifting loop of a shell sort round: walking down the chain of
   * `i` in steps of `gap`, every link larger than `temp` moves up one link.
   * The hole `j` it leaves has a link at most `temp` below it, or none.
   */
  method ShiftChain(a: array<int>, gap: int, i: int, temp: int, ghost b: seq<int>) returns (j: int)
    requires 1 <= gap <= i < a.Length && b == a[..] && temp == b[i]
    modifies a
    ensures GapShifted(b, a[..], gap, i, j)
    ensures j >= gap ==> a[j - gap] <= temp
  {
    j := i;
    while j >= gap && a[j - gap] > temp
      invariant GapShifted(b, a[..], gap, i, j)
      decreases j
    {
      ghost var before := a[..];
      a[j] := a[j - gap];
      GapShiftStep(b, before, a[..], gap, i, j);
      j := j - gap;
    }
  }

  /** Position `k` is a link of the chain above the hole `h` that ends at `i`. */
  ghost predicate OnChain(k: int, h: int, i: int, gap: int)
    requires gap >= 1
  {
    h + gap <= k <= i && (i - k) % gap == 0
  }

  /**
   * The state of the shifting loop of a shell sort round, relative to the
   * array `b` it started from: the chain links above the hole `h` hold the
   * link below them (each larger than the lifted `b[i]`), every other cell
   * is untouched, and filling the hole with `b[i]` gives back the multiset.
   */
  ghost predicate GapShifted(b: seq<int>, s: seq<int>, gap: int, i: int, h: int)
  {
    gap >= 1 && 0 <= h <= i < |b| == |s| && (i - h) % gap == 0 &&
    (forall k {:trigger s[k]} :: 0 <= k < |s| && !OnChain(k, h, i, gap) ==> s[k] == b[k]) &&
    (forall k {:trigger s[k]} :: OnChain(k, h, i, gap) ==> s[k] == b[k - gap] && b[k - gap] > b[i]) &&
    multiset(s[h := b[i]]) == multiset(b)
  }

  /** Copying the link below the hole into it moves the hole one link down. */
  lemma GapShiftStep(b: seq<int>, s: seq<int>, t: seq<int>, gap: int, i: int, h: int)
    requires GapShifted(b, s, gap, i, h) && h >= gap && s[h - gap] > b[i]
    requires t == s[h := s[h - gap]]
    ensures GapShifted(b, t, gap, i, h - gap)
  {
    ModMinusModulus(i - h + gap, gap);
    assert !OnChain(h - gap, h, i, gap);
    forall k | 0 <= k < |t| && !OnChain(k, h - gap, i, gap)
      ensures t[k] == b[k]
    {
      if h < k < h + gap {
        NoMultipleBetween(i - h, k - h, gap);
      }
    }
    forall k | OnChain(k, h - gap, i, gap)
      ensures t[k] == b[k - gap] && b[k - gap] > b[i]
    {
      if h < k < h + gap {
        NoMultipleBetween(i - h, k - h, gap);
      }
    }
    var u := s[h := b[i]];
    assert t[h - gap := b[i]] == u[h - gap := u[h]][h := u[h - gap]];
  }

  /** Dropping `b[i]` into the hole completes the round's step, as a permutation of `b`. */
  lemma GapInsertedInOrder(b: seq<int>, s: seq<int>, t: seq<int>, gap: int, i: int, h: int)
    requires GapShifted(b, s, gap, i, h)
    requires GapSorted(b, gap, i)
    requires h >= gap ==> s[h - gap] <= b[i]
    requires t == s[h := b[i]]
    ensures GapSorted(t, gap, i + 1)
    ensures multiset(t) == multiset(b)
    ensures t[i + 1..] == b[i + 1..]
  {
    forall p, q | 0 <= p < q < |t| && q < i + 1 && q - p == gap
      ensures t[p] <= t[q]
    {
      PairInOrder(b, s, t, gap, i, h, p);
    }
  }

  /** The case analysis behind GapInsertedInOrder, for the pair `(p, p + gap)`. */
  lemma PairInOrder(b: seq<int>, s: seq<int>, t: seq<int>, gap: int, i: int, h: int, p: int)
    requires GapShifted(b, s, gap, i, h)
    requires GapSorted(b, gap, i)
    requires h >= gap ==> s[h - gap] <= b[i]
    requires t == s[h := b[i]]
    requires 0 <= p && p + gap <= i
    ensures t[p] <= t[p + gap]
  {
    var q := p + gap;
    ModMinusModulus(i - p, gap);
    if OnChain(q, h, i, gap) {
      if p == h {
        assert t[p] == b[i] && t[q] == b[h];
      } else {
        if p < h + gap {
          NoMultipleBetween(i - h, p - h, gap);
        }
        assert OnChain(p, h, i, gap);
        assert t[p] == b[p - gap] && t[q] == b[p];
      }
    } else if q == h {
      assert !OnChain(p, h, i, gap);
      assert t[p] == s[h - gap] && t[q] == b[i];
    } else {
      assert !OnChain(p, h, i, gap) && p != h;
      if h < i && i < h + gap {
        NoMultipleBetween(i - h, i - h, gap);
      }
      DivModUnique(0, gap, 0, 0);
      assert q < i;
      assert t[p] == b[p] && t[q] == b[q];
    }
  }
}
