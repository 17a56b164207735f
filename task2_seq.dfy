/** The sequential sorter: `swap`, `partition`, `quick_sort` and
    `is_sorted`, working in place on an array of ints. Each method is proved
    to leave the array exactly as the matching function of QuickSortModel
    says, and the properties the program relies on (pivot placement,
    sortedness, permutation, frame) follow from the model's lemmas. */
module SequentialSort {
  import Model = QuickSortModel

  /** `swap(&a[i], &a[j])`: exchanges two cells through a temporary; all
      other cells keep their values. `i == j` leaves the array as it was. */
  method Swap(a: array<int>, i: int, j: int)
    requires 0 <= i < a.Length && 0 <= j < a.Length
    modifies a
    ensures a[..] == Model.Swap(old(a[..]), i, j)
    ensures a[i] == old(a[j]) && a[j] == old(a[i])
    ensures forall k :: 0 <= k < a.Length && k != i && k != j ==> a[k] == old(a[k])
  {
    var temp := a[i];
    a[i] := a[j];
    a[j] := temp;
  }

  /** `partition(arr, low, high)` with the last cell as pivot. The loop
      keeps cells `[low, i]` below the pivot and cells `(i, j)` at or above
      it; at the end the pivot is swapped into cell `i + 1`, which is
      returned. */
  method Partition(a: array<int>, low: int, high: int) returns (p: int)
    requires 0 <= low < high < a.Length
    modifies a
    ensures (a[..], p) == Model.Partition(old(a[..]), low, high)
    ensures low <= p <= high && a[p] == old(a[high])
    ensures forall k :: low <= k < p ==> a[k] < old(a[high])
    ensures forall k :: p < k <= high ==> a[k] >= old(a[high])
    ensures Model.SameOutside(a[..], old(a[..]), low, high)
    ensures multiset(a[..]) == multiset(old(a[..]))
  {
    ghost var s := a[..];
    var pivot := a[high];
    var i := low - 1;
    for j := low to high
      invariant low - 1 <= i < j
      invariant Model.PartitionFrom(a[..], pivot, low, high, i, j) == Model.Partition(s, low, high)
    {
      if a[j] < pivot {
        i := i + 1;
        Swap(a, i, j);
      }
    }
    assert Model.PartitionFrom(a[..], pivot, low, high, i, high) == (Model.Swap(a[..], i + 1, high), i + 1);
    Swap(a, i + 1, high);
    p := i + 1;
    ghost var r := a[..];
    assert (r, p) == Model.Partition(s, low, high);
    assert r[p] == s[high] && (forall k :: low <= k < p ==> r[k] < s[high])
        && (forall k :: p < k <= high ==> r[k] >= s[high]) by {
      Model.PartitionPlacesPivot(s, low, high);
    }
    assert Model.SameOutside(r, s, low, high) by {
      Model.PartitionFrame(s, low, high);
    }
    assert multiset(r) == multiset(s) by {
      Model.PartitionPermutes(s, low, high);
    }
  }

  /** `quick_sort(arr, low, high)`: partitions, then sorts the two sides
      one after the other. Nothing happens when `low >= high`. Afterwards
      `[low, high]` is in order and holds the values it held, and no other
      cell has changed. */
  method QuickSort(a: array<int>, low: int, high: int)
    requires Model.ValidRange(a.Length, low, high)
    modifies a
    ensures a[..] == Model.QuickSort(old(a[..]), low, high)
    ensures Model.SortedBetween(a[..], low, high)
    ensures Model.SameOutside(a[..], old(a[..]), low, high)
    ensures multiset(a[..]) == multiset(old(a[..]))
    decreases high - low
  {
    if low < high {
      var p := Partition(a, low, high);
      label Parted:
      QuickSort(a, low, p - 1);
      label LeftSorted:
      QuickSort(a, p + 1, high);
      Model.QuickSortStep(old(a[..]), old@Parted(a[..]), p, old@LeftSorted(a[..]), a[..], low, high);
    }
    assert Model.SortedBetween(a[..], low, high) by {
      Model.QuickSortSorts(old(a[..]), low, high);
    }
    assert Model.SameOutside(a[..], old(a[..]), low, high) by {
      Model.QuickSortFrame(old(a[..]), low, high);
    }
    assert multiset(a[..]) == multiset(old(a[..])) by {
      Model.QuickSortPermutes(old(a[..]), low, high);
    }
  }

  /** `is_sorted(arr, size)`: 1 when every neighbouring pair among the
      first `size` cells is in order, 0 at the first pair that is not. A
      `size` of 1 or less gives 1 without reading the array. The answer is
      1 exactly when the first `size` cells are sorted. */
  method IsSorted(a: array<int>, size: int) returns (r: int)
    requires size <= a.Length
    ensures r == 0 || r == 1
    ensures r == 1 <==> forall k :: 0 <= k < size - 1 ==> a[k] <= a[k + 1]
    ensures r == 1 <==> forall k, m :: 0 <= k < m < size ==> a[k] <= a[m]
    ensures 0 <= size ==> (r == 1 <==> Model.Sorted(a[..size]))
  {
    var i := 0;
    while i < size - 1
      invariant 0 <= i && (i == 0 || i <= size - 1)
      invariant forall k :: 0 <= k < i ==> a[k] <= a[k + 1]
    {
      if a[i] > a[i + 1] {
        if 0 <= size {
          PrefixOrder(a[..], size);
        }
        return 0;
      }
      i := i + 1;
    }
    if 0 <= size {
      PrefixOrder(a[..], size);
    }
    return 1;
  }

  /** The sequential program's `main` without input generation, timing
      and output: a fresh array holding `input` is sorted by
      `quick_sort(arr, 0, size - 1)` and checked with `is_sorted`. The
      array ends as the sorted rearrangement of `input`, and the check
      answers 1. */
  method SequentialMain(input: seq<int>) returns (sorted: seq<int>, verdict: int)
    ensures sorted == Model.QuickSort(input, 0, |input| - 1)
    ensures Model.Sorted(sorted) && multiset(sorted) == multiset(input)
    ensures verdict == 1
  {
    var size := |input|;
    var arr := new int[size](i requires 0 <= i < size => input[i]);
    assert arr[..] == input;
    QuickSort(arr, 0, size - 1);
    sorted := arr[..];
    assert Model.Sorted(sorted) && multiset(sorted) == multiset(input) by {
      Model.WholeBufferSorted(input);
    }
    assert arr[..size] == sorted;
    verdict := IsSorted(arr, size);
  }

  /** Neighbour order and all-pairs order agree on the first `size` cells. */
  lemma PrefixOrder(s: seq<int>, size: int)
    requires 0 <= size <= |s|
    ensures (forall k :: 0 <= k < size - 1 ==> s[k] <= s[k + 1])
        <==> (forall k, m :: 0 <= k < m < size ==> s[k] <= s[m])
  {
    var t := s[..size];
    Model.AdjacentSortedIffSorted(t);
    assert Model.AdjacentSorted(t) <==> (forall k :: 0 <= k < size - 1 ==> s[k] <= s[k + 1]);
    assert Model.Sorted(t) <==> (forall k, m :: 0 <= k < m < size ==> s[k] <= s[m]);
    assert t == s[..size];
  }
}
