# Quicksort and block distribution, verified in Dafny

This project models two parts of a small benchmark repository.

1. The Lomuto-partition quicksort on an array of ints. It has two forms:
   - a sequential recursion (`task2-seq.c`);
   - a fork-join variant (`task2-par.c`), whose two recursive calls run as
     tasks over the shared array and are joined before returning.

   Both forms share `swap`, `partition` and `is_sorted`.
2. The block distribution of the element-wise benchmark (`task4.c`). It
   splits `TOTAL_ELEMENTS` cells into one contiguous slice `[start, end)`
   per process.

Modules:

- `QuickSortModel` (`quicksort_model.dfy`): a functional reference model on
  `seq<int>`.
  - `swap` becomes `Swap(s, i, j)` on the whole buffer. `partition` and
    `quick_sort` become functions over the whole buffer and the same
    closed range `[low, high]`. `is_sorted` is matched by the predicates
    `AdjacentSorted` and `Sorted` on a prefix.
  - The `for` loop of `partition`, followed by its final swap, becomes the
    recursive `PartitionFrom`, taken from a loop state `(i, j)`.
  - Lemmas prove what the sort promises: the pivot placement, the frame,
    the permutation and the sortedness.
  - They also prove that the outcome is unique. Any buffer sorted on the
    range, holding the same values there and unchanged elsewhere, is the
    sort's outcome. From this follow idempotence and the commutation of
    sorts on disjoint ranges.
- `SequentialSort` (`task2_seq.dfy`): in-place methods on an `array<int>`.
  - `Swap`, `Partition` (with its `for` loop) and `QuickSort` are each
    proved to leave the array exactly as the model function says.
  - `IsSorted` is a read-only loop with an early return.
- `ParallelSort` (`task2_par.dfy`): the fork-join sort.
  - After partitioning, the two tasks run one after the other, in an order
    the scheduler picks (`if *`), chosen afresh at every level.
  - Either order is proved to give exactly the sequential sort's array.
  - `SequentialMain` and `ParallelMain` sort a fresh array as the two
    `main` functions do, then call `is_sorted`, which is proved to answer 1.
  - `SequentialAndParallelAgree` runs both on the same input and shows
    that they leave the same array.
- `BlockDistribution` (`block_distribution.dfy`): the quotient and
  remainder, and the `[start, end)` slice of each rank, as pure functions of
  `(n, size, rank)`.

Two facts about the code shape the model:

- A call `quick_sort(arr, low, high)` with `low >= high` returns without
  touching the array, whatever the indices are. So the range precondition
  `ValidRange` asks for in-bounds indices only when `low < high`.
- The block distribution gives every rank `TOTAL_ELEMENTS / size` cells,
  and the first `TOTAL_ELEMENTS % size` ranks one cell more.

## Model

| member | source | states |
|---|---|---|
| SequentialSort.Swap | task2-seq.c:5-9 | the two cells are exchanged, every other cell keeps its value, and the array equals the model's `Swap` |
| QuickSortModel.Swap | task2-seq.c:5-9 | exchanging two cells keeps the buffer length; its permutation and self-inverse properties are the two lemmas below |
| QuickSortModel.SwapPermutes | task2-seq.c:5-9 | exchanging two cells keeps the multiset of values |
| QuickSortModel.SwapTwiceRestores | task2-par.c:6-10 | exchanging the same two cells twice restores the buffer (swap is its own inverse) |
| QuickSortModel.PartitionFrom | task2-seq.c:15-22 | the rest of the loop and the final swap, from a state `(i, j)`, keep the buffer length and return an index in `[i + 1, high]` |
| QuickSortModel.PartitionFromFrame | task2-seq.c:15-22 | the loop and the final swap touch only cells `[low, high]` |
| QuickSortModel.PartitionFromSplits | task2-seq.c:13-22 | if the loop invariant holds (cells `[low, i]` below the pivot, cells `(i, j)` not, the pivot in cell `high`), the final swap puts the pivot at the returned index with smaller values left of it and greater or equal values right of it |
| QuickSortModel.PartitionFromPermutes | task2-seq.c:15-22 | the loop and the final swap only rearrange values |
| QuickSortModel.Partition | task2-seq.c:11-23 | for `low < high` the returned index lies in `[low, high]` and the buffer keeps its length |
| QuickSortModel.PartitionPlacesPivot | task2-seq.c:12-22 | the old `arr[high]` ends at the returned index; only smaller values lie left of it and only greater or equal values right of it |
| QuickSortModel.PartitionFrame | task2-par.c:12-24 | partitioning changes nothing outside `[low, high]` (the parallel program's `partition` is the same code as the sequential one) |
| QuickSortModel.PartitionPermutes | task2-seq.c:15-22 | partitioning keeps the multiset of values |
| SequentialSort.Partition | task2-seq.c:11-23 | the in-place loop leaves the array and returns the index that the model's `Partition` gives; the pivot lands there, smaller values lie left and greater or equal values right, nothing outside `[low, high]` changes, and the values are only rearranged |
| QuickSortModel.QuickSort | task2-seq.c:25-32 | the recursion on `high - low` terminates and keeps the buffer length; it is the reference every in-place sort below is proved equal to, and its sortedness, permutation, frame and uniqueness are the lemmas that follow |
| QuickSortModel.QuickSortFixesSorted | task2-seq.c:26 | a range that is already in order is left as it is; this includes every call with `low >= high`, which does nothing |
| QuickSortModel.QuickSortPermutes | task2-seq.c:25-32 | the sort keeps the multiset of values of the buffer |
| QuickSortModel.QuickSortPermutesRange | task2-seq.c:25-32 | the range `[low, high]` holds after the sort the values it held before |
| QuickSortModel.QuickSortSorts | task2-seq.c:25-32 | after the sort, `[low, high]` is in non-decreasing order |
| QuickSortModel.SortedPermutationUnique | task2-seq.c:25-32 | two sorted sequences holding the same values are equal, so a sorted outcome is determined by the input's values |
| QuickSortModel.QuickSortUnique | task2-seq.c:25-32 | any buffer that is sorted on `[low, high]`, holds the same values there and agrees elsewhere equals the sort's outcome |
| QuickSortModel.QuickSortIdempotent | task2-seq.c:25-32 | sorting a range twice gives the same buffer as sorting it once |
| QuickSortModel.QuickSortLocal | task2-seq.c:25-32 | what the sort leaves in `[low, high]` depends only on what `[low, high]` held |
| SequentialSort.QuickSort | task2-seq.c:25-32 | the in-place recursion leaves the array equal to the model's `QuickSort`, sorted on `[low, high]`, a permutation, and unchanged outside the range |
| QuickSortModel.AdjacentSortedIffSorted | task2-seq.c:34-41 | neighbouring pairs in order is equivalent to all pairs in order, in both directions |
| SequentialSort.IsSorted | task2-seq.c:34-41 | the result is 0 or 1, and it is 1 exactly when every neighbouring pair of the first `size` cells is in order, so also for `size` 0 or 1; equivalently, exactly when those cells are sorted |
| SequentialSort.PrefixOrder | task2-par.c:44-51 | for the first `size` cells, neighbour order and all-pairs order agree |
| QuickSortModel.QuickSortFrame | task2-par.c:30-38 | a sort changes nothing outside its range; so each task changes only its own range, `[low, pi - 1]` or `[pi + 1, high]`, and neither contains `pi` |
| QuickSortModel.DisjointSortsCommute | task2-par.c:30-40 | sorting two disjoint ranges gives the same buffer in either order |
| QuickSortModel.RightFirstSameOutcome | task2-par.c:30-40 | running the right task before the left one leaves the buffer that the left-then-right order leaves |
| ParallelSort.LeftTaskFirst | task2-par.c:30-40 | the left task, then the right one, leaves the array as sorting `[low, p - 1]` then `[p + 1, high]` does |
| ParallelSort.RightTaskFirst | task2-par.c:30-40 | the right task, then the left one, leaves the array as sorting `[low, p - 1]` then `[p + 1, high]` does |
| ParallelSort.QuickSortParallel | task2-par.c:26-42 | whatever order the tasks run in, the array afterwards equals the sequential sort's, sorted on `[low, high]`, a permutation, and unchanged outside the range |
| SequentialSort.SequentialMain | task2-seq.c:57-62 | sorting a fresh array holding the input with `quick_sort(arr, 0, size - 1)` leaves the model's sort of the input, which is sorted and a permutation of it, and `is_sorted` then answers 1 |
| ParallelSort.ParallelMain | task2-par.c:67-75 | sorting a fresh array holding the input with `quick_sort_parallel(arr, 0, size - 1)` leaves the model's sort of the input, which is sorted and a permutation of it, and `is_sorted` then answers 1 |
| ParallelSort.SequentialAndParallelAgree | task2-par.c:67-71 | on the same input, the sequential program and the fork-join program leave the same array, sorted and a permutation of the input |
| QuickSortModel.WholeBufferSorted | task2-seq.c:57 | `quick_sort(arr, 0, size - 1)` leaves the whole buffer sorted and a permutation of the input |
| QuickSortModel.WholeBufferUnique | task2-seq.c:57 | the only possible outcome of sorting the whole buffer is its sorted rearrangement |
| QuickSortModel.ScenarioPartition | task2-seq.c:11-23 | partitioning `[3,6,1,8,2,2]` around its last cell gives `[1,2,3,8,2,6]` and index 1 |
| QuickSortModel.ScenarioSort | task2-seq.c:25-32 | sorting `[2,3,1,2]` gives `[1,2,2,3]` |
| QuickSortModel.ScenarioTwoCells | task2-seq.c:25-32 | sorting `[2,1]` gives `[1,2]` |
| QuickSortModel.ScenarioSortSix | task2-seq.c:25-32 | sorting `[3,6,1,8,2,2]` gives `[1,2,2,3,6,8]` |
| QuickSortModel.ScenarioPartitionTies | task2-seq.c:11-23 | partitioning `[5,-1,5,3,5]` around its last cell gives `[-1,3,5,5,5]` and index 2: values equal to the pivot stay right of it |
| QuickSortModel.ScenarioEmptyRange | task2-seq.c:26 | a call with `low = 7 > high = 3` on a two-cell buffer leaves it as it is |
| BlockDistribution.Split | task4.c:86-87 | `chunk_size * size + remainder == n`, with `0 <= remainder < size` |
| BlockDistribution.SplitUnique | task4.c:86-87 | any `q` and `r` with `q * size + r == n` and `0 <= r < size` are `chunk_size` and `remainder` |
| BlockDistribution.SliceOf | task4.c:88-89 | every slice has `start <= end` |
| BlockDistribution.SlicesSpanRange | task4.c:88-89 | rank 0 starts at 0 and the last rank ends at `n` |
| BlockDistribution.SlicesContiguous | task4.c:88-89 | each rank's slice ends where the next rank's slice starts |
| BlockDistribution.SliceLength | task4.c:89 | a slice has `chunk_size + 1` cells exactly when its rank is below the remainder, and `chunk_size` cells otherwise |
| BlockDistribution.SlicesBalanced | task4.c:88-89 | any two ranks' slice lengths differ by at most one |
| BlockDistribution.StartMonotone | task4.c:88 | a later rank starts no earlier |
| BlockDistribution.SliceWithinRange | task4.c:88-89 | `0 <= start <= end <= n` for every rank |
| BlockDistribution.OwnerFrom | task4.c:88-89 | every cell below `n` at or after a rank's start lies in the slice of that rank or of a later one |
| BlockDistribution.OwnersOrdered | task4.c:88-89 | a cell in one rank's slice is in no later rank's slice |
| BlockDistribution.EachCellOwnedOnce | task4.c:88-89 | every cell of `[0, n)` lies in exactly one rank's slice |
| BlockDistribution.ScenarioThreeProcesses | task4.c:86-89 | 320 * 320 cells over 3 ranks give the slices `[0, 34134)`, `[34134, 68267)` and `[68267, 102400)` |

## Left out

- OpenMP threads (`parallel`, `single`, `task`, `taskwait`) are not modelled as threads. The two tasks of a call write disjoint ranges and are joined before the call returns. So any interleaving of them has the outcome of one of the two sequential orders, and both orders are modelled. No thread scheduler or memory model is represented.
- `fill_array` and `rand()` are left out. The input array is a parameter.
- `main`, `malloc`/`free`, `clock`/`omp_get_wtime` timing and `printf` are I/O and timing. `SequentialMain` and `ParallelMain` keep only the sort and the `is_sorted` call of the two `main` functions.
- The fixed array size of 1000000 is generalised to any length.
- C `int` overflow is not modelled: values and indices are unbounded integers. The sort only compares and moves values, and indices stay within the array.
- Performance is out of scope: the quadratic worst case with the last-cell pivot and the parallel speed-up. Only termination, on `high - low`, is proved.
- In `task4.c`, the MPI calls (`MPI_Init`, `MPI_Bcast`, `MPI_Gather`, `MPI_Barrier`, `MPI_Wtime` and the rest) are distributed communication and are left out.
- `sequential_operations`, `parallel_operations` and `initialize_array` are double-precision floating-point arithmetic and are left out. The model covers only the slice bounds they are given.
- `print_results` is output and is left out.
- `TOTAL_ELEMENTS` is generalised from 320 * 320 to any `n >= 0`.
- `rank` is taken as `0 <= rank < size`, the range the process numbering guarantees.
