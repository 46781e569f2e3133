/**
 * Counting sort over the value range `[min, max]`: tally how often each
 * value occurs, then overwrite the array with every value of the range,
 * in ascending order, as many times as it was counted.
 */
module Counting {
  import opened SortSpec

  /** `k` copies of `v`. */
  function Repeat(v: int, k: nat): (r: seq<int>)
    ensures |r| == k
    ensures forall j :: 0 <= j < k ==> r[j] == v
  {
    if k == 0 then [] else Repeat(v, k - 1) + [v]
  }

  /**
   * The values `lo, lo + 1, ..., hi - 1`, each repeated as often as it
   * occurs in `m`: what the write-back loop produces for that part of the
   * range.
   */
  ghost function Runs(m: multiset<int>, lo: int, hi: int): seq<int>
    decreases hi - lo
  {
    if hi <= lo then [] else Runs(m, lo, hi - 1) + Repeat(hi - 1, m[hi - 1])
  }

  /** The result of `countingSort` on `s`: the runs of the whole range `[min, max]`. */
  ghost function CountingResult(s: seq<int>): seq<int> {
    Runs(multiset(s), MinOrZero(s), MaxOrZero(s) + 1)
  }

  /** The multiset of a run. */
  lemma {:induction false} RepeatMultiset(v: int, k: nat)
    ensures multiset(Repeat(v, k)) == multiset{}[v := k]
  {
    if k > 0 {
      RepeatMultiset(v, k - 1);
    }
  }

  /** The runs of `[lo, hi)` are the runs of `[lo, mid)` followed by the runs of `[mid, hi)`. */
  lemma {:induction false} RunsSplit(m: multiset<int>, lo: int, mid: int, hi: int)
    requires lo <= mid <= hi
    ensures Runs(m, lo, hi) == Runs(m, lo, mid) + Runs(m, mid, hi)
    decreases hi - mid
  {
    if mid < hi {
      RunsSplit(m, lo, mid, hi - 1);
    }
  }

  /** One more value of the range: its run goes after the runs so far, and out of the runs still to come. */
  lemma RunsNext(m: multiset<int>, lo: int, v: int, hi: int)
    requires lo <= v < hi
    ensures Runs(m, lo, v + 1) == Runs(m, lo, v) + Repeat(v, m[v])
    ensures |Runs(m, v, hi)| == m[v] + |Runs(m, v + 1, hi)|
  {
    RunsSplit(m, v, v + 1, hi);
    assert Runs(m, v, v + 1) == Runs(m, v, v) + Repeat(v, m[v]);
  }

  /** The runs are non-decreasing and hold only values of `[lo, hi)`. */
  lemma {:induction false} RunsSorted(m: multiset<int>, lo: int, hi: int)
    ensures Sorted(Runs(m, lo, hi))
    ensures forall k :: 0 <= k < |Runs(m, lo, hi)| ==> lo <= Runs(m, lo, hi)[k] < hi
    decreases hi - lo
  {
    if lo < hi {
      RunsSorted(m, lo, hi - 1);
      var x, y := Runs(m, lo, hi - 1), Repeat(hi - 1, m[hi - 1]);
      forall k | 0 <= k < |x + y|
        ensures lo <= (x + y)[k] < hi
      {
        if k < |x| {
          assert (x + y)[k] == x[k];
        }
      }
      forall p, q | 0 <= p < q < |x + y|
        ensures (x + y)[p] <= (x + y)[q]
      {
        if q >= |x| {
          assert (x + y)[q] == hi - 1;
          if p < |x| {
            assert (x + y)[p] == x[p];
          }
        } else {
          assert (x + y)[p] == x[p] && (x + y)[q] == x[q];
        }
      }
    }
  }

  /** Each value of `[lo, hi)` occurs in the runs exactly as often as in `m`, and no other value occurs. */
  lemma {:induction false} RunsMultiset(m: multiset<int>, lo: int, hi: int)
    ensures forall v :: multiset(Runs(m, lo, hi))[v] == if lo <= v < hi then m[v] else 0
    decreases hi - lo
  {
    if lo < hi {
      RunsMultiset(m, lo, hi - 1);
      RepeatMultiset(hi - 1, m[hi - 1]);
    }
  }

  /** When every element of `s` lies in `[lo, hi)`, the runs are a permutation of `s`. */
  lemma RunsPermutes(s: seq<int>, lo: int, hi: int)
    requires forall k :: 0 <= k < |s| ==> lo <= s[k] < hi
    ensures multiset(Runs(multiset(s), lo, hi)) == multiset(s)
    ensures |Runs(multiset(s), lo, hi)| == |s|
  {
    var r := Runs(multiset(s), lo, hi);
    RunsMultiset(multiset(s), lo, hi);
    forall v
      ensures multiset(r)[v] == multiset(s)[v]
    {
      if !(lo <= v < hi) {
        assert v !in s;
      }
    }
    assert multiset(r) == multiset(s);
    assert |r| == |multiset(r)|;
    assert |s| == |multiset(s)|;
  }

  /**
   * Counting sort sorts: the result is non-decreasing, a permutation of the
   * input, and every value lies between the input's minimum and maximum.
   */
  lemma CountingSortSorts(s: seq<int>)
    ensures Sorted(CountingResult(s))
    ensures multiset(CountingResult(s)) == multiset(s)
    ensures forall k :: 0 <= k < |CountingResult(s)| ==>
              MinOrZero(s) <= CountingResult(s)[k] <= MaxOrZero(s)
  {
    RunsSorted(multiset(s), MinOrZero(s), MaxOrZero(s) + 1);
    RunsPermutes(s, MinOrZero(s), MaxOrZero(s) + 1);
  }

  /** Counting sort of an empty array leaves it empty. */
  lemma CountingSortEmpty()
    ensures CountingResult([]) == []
  {
    assert Runs(multiset{}, 0, 1) == Runs(multiset{}, 0, 0) + Repeat(0, 0);
  }

  /** Counting sort computes what every other sort of the engine computes: the sorted permutation. */
  lemma CountingSortUnique(s: seq<int>, t: seq<int>)
    requires Sorted(t) && multiset(t) == multiset(s)
    ensures CountingResult(s) == t
  {
    CountingSortSorts(s);
    SortedUnique(CountingResult(s), t);
  }

  /**
   * Every element lies in the range `[min, max]`, which is never empty, and
   * the runs of the range are exactly as long as the input.
   */
  lemma RangeOfInput(s: seq<int>)
    ensures MinOrZero(s) <= MaxOrZero(s)
    ensures forall k :: 0 <= k < |s| ==> MinOrZero(s) <= s[k] < MinOrZero(s) + (MaxOrZero(s) - MinOrZero(s) + 1)
    ensures |Runs(multiset(s), MinOrZero(s), MinOrZero(s) + (MaxOrZero(s) - MinOrZero(s) + 1))| == |s|
  {
    if |s| > 0 {
      assert MinOrZero(s) <= s[0] <= MaxOrZero(s);
    }
    RunsPermutes(s, MinOrZero(s), MaxOrZero(s) + 1);
  }

  /** The tally loop: `count[v - min]` becomes the number of occurrences of `v`. */
  method Tally(a: array<int>, min: int, count: array<int>)
    requires count != a
    requires forall k :: 0 <= k < a.Length ==> min <= a[k] < min + count.Length
    requires forall v :: 0 <= v < count.Length ==> count[v] == 0
    modifies count
    ensures forall v :: 0 <= v < count.Length ==> count[v] == multiset(a[..])[min + v]
  {
    var k := 0;
    while k < a.Length
      invariant 0 <= k <= a.Length
      invariant forall v :: 0 <= v < count.Length ==> count[v] == multiset(a[..k])[min + v]
    {
      assert a[..k + 1] == a[..k] + [a[k]];
      count[a[k] - min] := count[a[k] - min] + 1;
      k := k + 1;
    }
    assert a[..k] == a[..];
  }

  /**
   * One inner write loop: `count[i]` copies of `v` from `a[idx]` on.
   * Java's `while (count[i]-- > 0)` leaves `count[i]` at -1 rather than 0;
   * the table is local to the sort, so the difference is not observable.
   */
  method WriteRun(a: array<int>, count: array<int>, i: int, v: int, idx: int) returns (next: int)
    requires count != a && 0 <= i < count.Length
    requires 0 <= idx && 0 <= count[i] && idx + count[i] <= a.Length
    modifies a, count
    ensures next == idx + old(count[i])
    ensures a[..next] == old(a[..idx]) + Repeat(v, old(count[i]))
    ensures forall j :: 0 <= j < count.Length && j != i ==> count[j] == old(count[j])
    ensures forall k :: next <= k < a.Length ==> a[k] == old(a[k])
  {
    ghost var c0 := count[i];
    ghost var prefix := a[..idx];
    next := idx;
    while count[i] > 0
      invariant idx <= next <= a.Length && 0 <= count[i] && next - idx + count[i] == c0
      invariant a[..next] == prefix + Repeat(v, next - idx)
      invariant forall j :: 0 <= j < count.Length && j != i ==> count[j] == old(count[j])
      invariant forall k :: next <= k < a.Length ==> a[k] == old(a[k])
    {
      a[next] := v;
      assert a[..next + 1] == a[..next] + [v];
      next := next + 1;
      count[i] := count[i] - 1;
    }
  }

  /** The write-back loop: the runs of every value of `[min, min + count.Length)`, in ascending order. */
  method WriteRuns(a: array<int>, min: int, count: array<int>, ghost m: multiset<int>)
    requires count != a
    requires forall v :: 0 <= v < count.Length ==> count[v] == m[min + v]
    requires |Runs(m, min, min + count.Length)| == a.Length
    modifies a, count
    ensures a[..] == Runs(m, min, min + count.Length)
  {
    ghost var hi := min + count.Length;
    RunsSplit(m, min, min, hi);
    var idx := 0;
    var i := 0;
    while i < count.Length
      invariant 0 <= i <= count.Length
      invariant forall v :: i <= v < count.Length ==> count[v] == m[min + v]
      invariant idx == |Runs(m, min, min + i)| && idx + |Runs(m, min + i, hi)| == a.Length
      invariant a[..idx] == Runs(m, min, min + i)
    {
      var v := min + i;
      RunsNext(m, min, v, hi);
      var next := WriteRun(a, count, i, v, idx);
      idx := next;
      i := i + 1;
    }
    assert Runs(m, hi, hi) == [];
    assert a[..] == a[..idx];
  }

  /**
   * `countingSort`: sorts the array in place and returns that same array.
   * The range `max - min + 1` is computed in Java's `int`, so it must not
   * exceed `Integer.MAX_VALUE`.
   */
  method CountingSort(a: array<int>) returns (r: array<int>)
    requires MaxOrZero(a[..]) - MinOrZero(a[..]) < 0x7fff_ffff
    modifies a
    ensures r == a
    ensures a[..] == CountingResult(old(a[..]))
  {
    var max := MaxOrZero(a[..]);
    var min := MinOrZero(a[..]);
    ghost var s := a[..];
    RangeOfInput(s);
    var range := max - min + 1;
    var count := new int[range](_ => 0);
    Tally(a, min, count);
    WriteRuns(a, min, count, multiset(s));
    r := a;
  }
}
