/** The fork-join sorter. After partitioning, `quick_sort_parallel` hands
    the two sides to two tasks that share the array and waits for both.
    The tasks touch disjoint ranges, so a run is modelled as the two
    recursive calls made one after the other, in whichever order the
    scheduler picks, chosen afresh at every level of the recursion.
    Whatever it picks, the array ends exactly as after the sequential
    sort. `swap`, `partition` and `is_sorted` are the same as in the
    sequential program and are shared with SequentialSort. */
module ParallelSort {
  import Model = QuickSortModel
  import SequentialSort

  /** `quick_sort_parallel(arr, low, high)`, up to the `taskwait`: the
      outcome is the sequential sort's, so `[low, high]` ends in order,
      holding the values it held, and no other cell changes, in whichever
      order the two tasks run. */
  method QuickSortParallel(a: array<int>, low: int, high: int)
    requires Model.ValidRange(a.Length, low, high)
    modifies a
    ensures a[..] == Model.QuickSort(old(a[..]), low, high)
    ensures Model.SortedBetween(a[..], low, high)
    ensures Model.SameOutside(a[..], old(a[..]), low, high)
    ensures multiset(a[..]) == multiset(old(a[..]))
    decreases high - low, 1
  {
    if low < high {
      var p := SequentialSort.Partition(a, low, high);
      label Parted:
      // The two `omp task` blocks and the `taskwait`: the scheduler decides
      // which task finishes its work first.
      if * {
        LeftTaskFirst(a, low, p, high);
      } else {
        RightTaskFirst(a, low, p, high);
      }
      Model.QuickSortStep(old(a[..]), old@Parted(a[..]), p, Model.QuickSort(old@Parted(a[..]), low, p - 1), a[..], low, high);
    }
    assert Model.SortedBetween(a[..], low, high) by {
      Model.QuickSortSorts(old(a[..]), low, high);
    }
    assert Model.SameOutside(a[..], old(a[..]), low, high) by {
      Model.QuickSortFrame(old(a[..]), low, high);
    }
    assert multiset(a[..]) == multiset(old(a[..])) by {
      Model.QuickSortPermutes(old(a[..]), low, high);
    }
  }

  /** The task on `[low, p - 1]` runs before the task on `[p + 1, high]`. */
  method LeftTaskFirst(a: array<int>, low: int, p: int, high: int)
    requires 0 <= low <= p <= high < a.Length
    modifies a
    ensures a[..] == Model.QuickSort(Model.QuickSort(old(a[..]), low, p - 1), p + 1, high)
    decreases high - low, 0
  {
    QuickSortParallel(a, low, p - 1);
    QuickSortParallel(a, p + 1, high);
  }

  /** The task on `[p + 1, high]` runs before the task on `[low, p - 1]`:
      the array ends as if the left side had been sorted first. */
  method RightTaskFirst(a: array<int>, low: int, p: int, high: int)
    requires 0 <= low <= p <= high < a.Length
    modifies a
    ensures a[..] == Model.QuickSort(Model.QuickSort(old(a[..]), low, p - 1), p + 1, high)
    decreases high - low, 0
  {
    QuickSortParallel(a, p + 1, high);
    label RightDone:
    QuickSortParallel(a, low, p - 1);
    Model.RightFirstSameOutcome(old(a[..]), old@RightDone(a[..]), a[..], low, p, high);
  }

  /** The parallel program's `main` without input generation, timing and
      output: a fresh array holding `input` is sorted inside the parallel
      region by `quick_sort_parallel(arr, 0, size - 1)`, then checked with
      `is_sorted`. The array ends as the sorted rearrangement of `input`,
      and the check answers 1. */
  method ParallelMain(input: seq<int>) returns (sorted: seq<int>, verdict: int)
    ensures sorted == Model.QuickSort(input, 0, |input| - 1)
    ensures Model.Sorted(sorted) && multiset(sorted) == multiset(input)
    ensures verdict == 1
  {
    var size := |input|;
    var arr := new int[size](i requires 0 <= i < size => input[i]);
    assert arr[..] == input;
    QuickSortParallel(arr, 0, size - 1);
    sorted := arr[..];
    assert Model.Sorted(sorted) && multiset(sorted) == multiset(input) by {
      Model.WholeBufferSorted(input);
    }
    assert arr[..size] == sorted;
    verdict := SequentialSort.IsSorted(arr, size);
  }

  /** The two programs on the same input leave the same array: the
      fork-join sort computes exactly what the sequential sort computes. */
  method SequentialAndParallelAgree(input: seq<int>) returns (bySequential: seq<int>, byParallel: seq<int>)
    ensures bySequential == byParallel
    ensures Model.Sorted(byParallel) && multiset(byParallel) == multiset(input)
  {
    var verdict;
    bySequential, verdict := SequentialSort.SequentialMain(input);
    byParallel, verdict := ParallelMain(input);
  }
}
