/**
 * The dispatcher of the search and sort engine: the twelve entries of the
 * algorithm selector, what each entry runs on the parsed input array, and
 * what the result shows. Reading and parsing the text fields, timing and
 * formatting the result text are outside the model; a search target that
 * does not parse is modelled as an absent target.
 */
module Engine {
  import opened SortSpec
  import Searches
  import SimpleSorts
  import MergeSorting
  import QuickSorting
  import Heaps
  import Radix
  import Counting

  /** The entries of the algorithm selector. */
  datatype Algorithm =
    | LinearSearch | BinarySearch
    | SelectionSort | InsertionSort | MergeSort
    | BubbleSort | QuickSort | ShellSort
    | RadixSort | HeapSort | NearlySorted | CountingSort

  /** The selector's entries in the order the selector lists them. */
  const Algorithms: seq<Algorithm> := [
    LinearSearch, BinarySearch,
    SelectionSort, InsertionSort, MergeSort,
    BubbleSort, QuickSort, ShellSort,
    RadixSort, HeapSort, NearlySorted, CountingSort
  ]

  /** The text of a selector entry. */
  function Label(alg: Algorithm): string {
    match alg
    case LinearSearch => "Linear Search"
    case BinarySearch => "Binary Search"
    case SelectionSort => "Selection Sort"
    case InsertionSort => "Insertion Sort"
    case MergeSort => "Merge Sort"
    case BubbleSort => "Bubble Sort"
    case QuickSort => "Quick Sort"
    case ShellSort => "Shell Sort"
    case RadixSort => "Radix Sort"
    case HeapSort => "Heap Sort"
    case NearlySorted => "Nearly Sorted"
    case CountingSort => "Counting Sort"
  }

  /** The `switch` on the selected text: a text that names no entry matches no case. */
  function FromLabel(text: string): Option<Algorithm> {
    match text
    case "Linear Search" => Some(LinearSearch)
    case "Binary Search" => Some(BinarySearch)
    case "Selection Sort" => Some(SelectionSort)
    case "Insertion Sort" => Some(InsertionSort)
    case "Merge Sort" => Some(MergeSort)
    case "Bubble Sort" => Some(BubbleSort)
    case "Quick Sort" => Some(QuickSort)
    case "Shell Sort" => Some(ShellSort)
    case "Radix Sort" => Some(RadixSort)
    case "Heap Sort" => Some(HeapSort)
    case "Nearly Sorted" => Some(NearlySorted)
    case "Counting Sort" => Some(CountingSort)
    case _ => None
  }

  /** Every entry's text selects that entry, and only an entry's text selects anything. */
  lemma LabelsSelect(alg: Algorithm, text: string)
    ensures FromLabel(Label(alg)) == Some(alg)
    ensures FromLabel(text) == Some(alg) <==> text == Label(alg)
  {
  }

  /** The selector lists every entry exactly once. */
  lemma SelectorComplete(alg: Algorithm)
    ensures |Algorithms| == 12
    ensures alg in Algorithms
    ensures forall i, j :: 0 <= i < j < |Algorithms| ==> Algorithms[i] != Algorithms[j]
  {
  }

  /** The two search entries; every other entry sorts. */
  predicate IsSearch(alg: Algorithm) {
    alg == LinearSearch || alg == BinarySearch
  }

  /** The sort routines behind the sort entries. */
  datatype Routine = Selection | Insertion | Merge | Bubble | Quick | Shell | LsdRadix | Heap | Tally

  /** The routine a sort entry runs: "Nearly Sorted" runs insertion sort. */
  function RoutineOf(alg: Algorithm): (r: Option<Routine>)
    ensures r.None? <==> IsSearch(alg)
  {
    match alg
    case LinearSearch => None
    case BinarySearch => None
    case SelectionSort => Some(Selection)
    case InsertionSort => Some(Insertion)
    case MergeSort => Some(Merge)
    case BubbleSort => Some(Bubble)
    case QuickSort => Some(Quick)
    case ShellSort => Some(Shell)
    case RadixSort => Some(LsdRadix)
    case HeapSort => Some(Heap)
    case NearlySorted => Some(Insertion)
    case CountingSort => Some(Tally)
  }

  /** Only "Insertion Sort" and "Nearly Sorted" share a routine. */
  lemma RoutineShared(x: Algorithm, y: Algorithm)
    requires !IsSearch(x) && !IsSearch(y)
    ensures RoutineOf(x) == RoutineOf(y) <==> x == y || {x, y} == {InsertionSort, NearlySorted}
  {
  }

  /**
   * How a run ends. A search reports the index it found, with the array
   * as it stands after the search (binary search also shows that array,
   * linear search shows only the index); a sort shows the array it left.
   * That array is sorted for every sort but radix sort, whose result on
   * negative input need not be (`SortedArray` carries it all the same).
   * An unparsable target opens an error dialog instead, and a sort that
   * throws lets the exception escape, so nothing is shown.
   */
  datatype Outcome =
    | Searched(index: int, shown: seq<int>)  // `index == -1` shows "Not found"
    | SortedArray(shown: seq<int>)
    | InvalidTarget                          // error dialog "Enter a valid number to search."
    | Threw                                  // the exception escapes `actionPerformed`

  /**
   * The two search entries. Binary search sorts the array first, even when
   * the target then turns out to be invalid; the library sort it calls is
   * modelled by this engine's quick sort, and any correct sort gives the
   * same array (`SortedUnique`).
   */
  method Search(binary: bool, a: array<int>, target: Option<int>) returns (out: Outcome)
    modifies a
    ensures multiset(a[..]) == old(multiset(a[..]))
    ensures !binary ==> a[..] == old(a[..])
    ensures binary ==> Sorted(a[..])
    ensures target.None? ==> out == InvalidTarget
    ensures target.Some? ==>
              out.Searched? && out.shown == a[..] && -1 <= out.index < a.Length &&
              (out.index == -1 <==> target.value !in old(a[..])) &&
              (out.index >= 0 ==> a[out.index] == target.value)
    ensures target.Some? && !binary ==>
              forall k :: 0 <= k < out.index ==> a[k] != target.value
  {
    if binary {
      ghost var s0 := a[..];
      assert a[0..a.Length] == s0;
      QuickSorting.QuickSort(a, 0, a.Length - 1);
      assert a[0..a.Length] == a[..];
      assert target.Some? ==> (target.value in a[..] <==> target.value in s0) by {
        if target.Some? {
          assert target.value in a[..] <==> target.value in multiset(a[..]);
          assert target.value in s0 <==> target.value in multiset(s0);
        }
      }
    }
    if target.None? {
      return InvalidTarget;
    }
    var index;
    if binary {
      index := Searches.BinarySearch(a, target.value);
    } else {
      index := Searches.LinearSearch(a, target.value);
    }
    out := Searched(index, a[..]);
  }

  /** Runs one sort routine on the array; only radix sort can throw. */
  method SortBy(r: Routine, a: array<int>) returns (out: Outcome)
    requires r == LsdRadix ==> forall k :: 0 <= k < a.Length ==> a[k] < 1_000_000_000
    requires r == Tally ==> MaxOrZero(a[..]) - MinOrZero(a[..]) < 0x7fff_ffff
    modifies a
    ensures multiset(a[..]) == old(multiset(a[..]))
    ensures r != LsdRadix ==> out == SortedArray(a[..]) && Sorted(a[..])
    ensures r == Tally ==> a[..] == Counting.CountingResult(old(a[..]))
    ensures r == LsdRadix ==>
              if Radix.RadixResult(old(a[..])).Some?
              then out == SortedArray(a[..]) && a[..] == Radix.RadixResult(old(a[..])).value
              else out == Threw
  {
    match r {
      case Selection =>
        SimpleSorts.SelectionSort(a);
      case Insertion =>
        SimpleSorts.InsertionSort(a);
      case Merge =>
        ghost var s0 := a[..];
        assert a[0..a.Length] == s0;
        MergeSorting.MergeSort(a, 0, a.Length - 1);
        assert a[0..a.Length] == a[..];
      case Bubble =>
        SimpleSorts.BubbleSort(a);
      case Quick =>
        ghost var s0 := a[..];
        assert a[0..a.Length] == s0;
        QuickSorting.QuickSort(a, 0, a.Length - 1);
        assert a[0..a.Length] == a[..];
      case Shell =>
        SimpleSorts.ShellSort(a);
      case LsdRadix =>
        var ok := Radix.RadixSort(a);
        return if ok then SortedArray(a[..]) else Threw;
      case Heap =>
        Heaps.HeapSort(a);
      case Tally =>
        ghost var s0 := a[..];
        var sorted := Counting.CountingSort(a);
        Counting.CountingSortSorts(s0);
        return SortedArray(sorted[..]);
    }
    out := SortedArray(a[..]);
  }

  /**
   * `actionPerformed` once the input has parsed: runs the selected entry
   * on the array and reports what the result area shows.
   */
  method Run(alg: Algorithm, a: array<int>, target: Option<int>) returns (out: Outcome)
    requires alg == RadixSort ==> forall k :: 0 <= k < a.Length ==> a[k] < 1_000_000_000
    requires alg == CountingSort ==> MaxOrZero(a[..]) - MinOrZero(a[..]) < 0x7fff_ffff
    modifies a
    ensures multiset(a[..]) == old(multiset(a[..]))
    ensures alg == LinearSearch ==> a[..] == old(a[..])
    ensures alg == BinarySearch ==> Sorted(a[..])
    ensures IsSearch(alg) && target.None? ==> out == InvalidTarget
    ensures IsSearch(alg) && target.Some? ==>
              out.Searched? && out.shown == a[..] && -1 <= out.index < a.Length &&
              (out.index == -1 <==> target.value !in old(a[..])) &&
              (out.index >= 0 ==> a[out.index] == target.value)
    ensures alg == LinearSearch && target.Some? ==>
              forall k :: 0 <= k < out.index ==> a[k] != target.value
    ensures !IsSearch(alg) && alg != RadixSort ==> out == SortedArray(a[..]) && Sorted(a[..])
    ensures alg == CountingSort ==> a[..] == Counting.CountingResult(old(a[..]))
    ensures alg == RadixSort ==>
              if Radix.RadixResult(old(a[..])).Some?
              then out == SortedArray(a[..]) && a[..] == Radix.RadixResult(old(a[..])).value
              else out == Threw
  {
    match RoutineOf(alg)
    case None =>
      out := Search(alg == BinarySearch, a, target);
    case Some(r) =>
      out := SortBy(r, a);
  }
}
