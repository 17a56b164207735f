/** Reference model of the Lomuto-partition quicksort shared by the
    sequential and the fork-join sorter. Each function follows one C
    function step by step, over the whole buffer (a sequence of ints) and
    the same closed index range `[low, high]`; the in-place methods in
    SequentialSort and ParallelSort are proved to compute exactly these
    functions, and the lemmas here prove what the algorithm promises. */
module QuickSortModel {

  /** Every pair of positions is in order. */
  predicate Sorted(s: seq<int>) {
    forall i, j :: 0 <= i < j < |s| ==> s[i] <= s[j]
  }

  /** Every adjacent pair is in order: what `is_sorted` checks. */
  predicate AdjacentSorted(s: seq<int>) {
    forall i :: 0 <= i < |s| - 1 ==> s[i] <= s[i + 1]
  }

  /** The indices a call `quick_sort(arr, low, high)` may touch: none when
      `low >= high`, otherwise `[low, high]` must lie inside the buffer. */
  predicate ValidRange(n: int, low: int, high: int) {
    low < high ==> 0 <= low && high < n
  }

  /** The closed range `[low, high]` of `s` is in order. */
  predicate SortedBetween(s: seq<int>, low: int, high: int)
    requires ValidRange(|s|, low, high)
  {
    forall i, j :: low <= i < j <= high ==> s[i] <= s[j]
  }

  /** The closed range `[low, high]` holds the same values in `r` as in
      `s`, in any order. */
  predicate SameValuesBetween(r: seq<int>, s: seq<int>, low: int, high: int)
    requires |r| == |s| && 0 <= low <= high < |s|
  {
    multiset(r[low..high + 1]) == multiset(s[low..high + 1])
  }

  /** `r` differs from `s` at most inside `[low, high]`. */
  predicate SameOutside(r: seq<int>, s: seq<int>, low: int, high: int)
    requires |r| == |s|
  {
    forall k :: 0 <= k < |s| && !(low <= k <= high) ==> r[k] == s[k]
  }

  // ----- swap -----

  /** `s` with the cells at `i` and `j` exchanged (`i == j` is allowed). */
  function Swap(s: seq<int>, i: int, j: int): (r: seq<int>)
    requires 0 <= i < |s| && 0 <= j < |s|
    ensures |r| == |s|
  {
    s[i := s[j]][j := s[i]]
  }

  /** Exchanging two cells neither creates nor loses a value. */
  lemma SwapPermutes(s: seq<int>, i: int, j: int)
    requires 0 <= i < |s| && 0 <= j < |s|
    ensures multiset(Swap(s, i, j)) == multiset(s)
  {
  }

  /** Exchanging the same two cells twice restores the buffer. */
  lemma SwapTwiceRestores(s: seq<int>, i: int, j: int)
    requires 0 <= i < |s| && 0 <= j < |s|
    ensures Swap(Swap(s, i, j), i, j) == s
  {
  }

  // ----- partition -----

  /** `partition` from the loop state (`i`, `j`) on: cells `[low, j)`
      have been scanned and `i` is the last cell known to hold a value below
      `pivot`. When `j` reaches `high` the loop ends and the pivot cell is
      swapped into `i + 1`, which is returned. */
  function PartitionFrom(s: seq<int>, pivot: int, low: int, high: int, i: int, j: int): (r: (seq<int>, int))
    requires 0 <= low <= j <= high < |s| && low - 1 <= i < j
    ensures |r.0| == |s| && i + 1 <= r.1 <= high
    decreases high - j
  {
    if j == high then (Swap(s, i + 1, high), i + 1)
    else if s[j] < pivot then PartitionFrom(Swap(s, i + 1, j), pivot, low, high, i + 1, j + 1)
    else PartitionFrom(s, pivot, low, high, i, j + 1)
  }

  /** The loop and the final swap touch only cells `[low, high]`. */
  lemma {:induction false} PartitionFromFrame(s: seq<int>, pivot: int, low: int, high: int, i: int, j: int)
    requires 0 <= low <= j <= high < |s| && low - 1 <= i < j
    ensures SameOutside(PartitionFrom(s, pivot, low, high, i, j).0, s, low, high)
    decreases high - j
  {
    if j < high {
      if s[j] < pivot {
        PartitionFromFrame(Swap(s, i + 1, j), pivot, low, high, i + 1, j + 1);
      } else {
        PartitionFromFrame(s, pivot, low, high, i, j + 1);
      }
    }
  }

  /** The loop invariant of `partition`: cells `[low, i]` are below the
      pivot, cells `(i, j)` are not, and the pivot waits in cell `high`.
      When the loop is done, the final swap puts the pivot at the returned
      index with smaller values to its left and the rest to its right. */
  lemma {:induction false} PartitionFromSplits(s: seq<int>, pivot: int, low: int, high: int, i: int, j: int)
    requires 0 <= low <= j <= high < |s| && low - 1 <= i < j && s[high] == pivot
    requires forall x :: low <= x <= i ==> s[x] < pivot
    requires forall x :: i < x < j ==> s[x] >= pivot
    ensures PartitionFrom(s, pivot, low, high, i, j).0[PartitionFrom(s, pivot, low, high, i, j).1] == pivot
    ensures forall x :: low <= x < PartitionFrom(s, pivot, low, high, i, j).1 ==> PartitionFrom(s, pivot, low, high, i, j).0[x] < pivot
    ensures forall x :: PartitionFrom(s, pivot, low, high, i, j).1 < x <= high ==> PartitionFrom(s, pivot, low, high, i, j).0[x] >= pivot
    decreases high - j
  {
    if j == high {
      var r := Swap(s, i + 1, high);
      assert PartitionFrom(s, pivot, low, high, i, j) == (r, i + 1);
      forall x | low <= x < i + 1 ensures r[x] < pivot {
        assert r[x] == s[x];
      }
      forall x | i + 1 < x <= high ensures r[x] >= pivot {
        if x < high { assert r[x] == s[x]; } else { assert r[x] == s[i + 1]; }
      }
    } else if s[j] < pivot {
      var s' := Swap(s, i + 1, j);
      forall x | low <= x <= i + 1 ensures s'[x] < pivot {
        if x <= i { assert s'[x] == s[x]; }
      }
      forall x | i + 1 < x < j + 1 ensures s'[x] >= pivot {
        if x < j { assert s'[x] == s[x]; } else { assert s'[x] == s[i + 1]; }
      }
      assert s'[high] == pivot;
      PartitionFromSplits(s', pivot, low, high, i + 1, j + 1);
      assert PartitionFrom(s, pivot, low, high, i, j) == PartitionFrom(s', pivot, low, high, i + 1, j + 1);
    } else {
      PartitionFromSplits(s, pivot, low, high, i, j + 1);
      assert PartitionFrom(s, pivot, low, high, i, j) == PartitionFrom(s, pivot, low, high, i, j + 1);
    }
  }

  /** The loop and the final swap only exchange cells: they neither create
      nor lose a value. */
  lemma {:induction false} PartitionFromPermutes(s: seq<int>, pivot: int, low: int, high: int, i: int, j: int)
    requires 0 <= low <= j <= high < |s| && low - 1 <= i < j
    ensures multiset(PartitionFrom(s, pivot, low, high, i, j).0) == multiset(s)
    decreases high - j
  {
    if j == high {
      assert PartitionFrom(s, pivot, low, high, i, j).0 == Swap(s, i + 1, high);
      SwapPermutes(s, i + 1, high);
    } else if s[j] < pivot {
      var s' := Swap(s, i + 1, j);
      assert PartitionFrom(s, pivot, low, high, i, j) == PartitionFrom(s', pivot, low, high, i + 1, j + 1);
      SwapPermutes(s, i + 1, j);
      PartitionFromPermutes(s', pivot, low, high, i + 1, j + 1);
    } else {
      assert PartitionFrom(s, pivot, low, high, i, j) == PartitionFrom(s, pivot, low, high, i, j + 1);
      PartitionFromPermutes(s, pivot, low, high, i, j + 1);
    }
  }

  /** `partition(arr, low, high)`: the buffer afterwards and the index it
      returns, which lies in `[low, high]`. */
  function Partition(s: seq<int>, low: int, high: int): (r: (seq<int>, int))
    requires 0 <= low < high < |s|
    ensures |r.0| == |s| && low <= r.1 <= high
  {
    PartitionFrom(s, s[high], low, high, low - 1, low)
  }

  /** The pivot (the old `arr[high]`) lands at the returned index, only
      smaller values lie left of it and only greater or equal values right
      of it within the range. */
  lemma PartitionPlacesPivot(s: seq<int>, low: int, high: int)
    requires 0 <= low < high < |s|
    ensures var r := Partition(s, low, high);
      && r.0[r.1] == s[high]
      && (forall k :: low <= k < r.1 ==> r.0[k] < s[high])
      && (forall k :: r.1 < k <= high ==> r.0[k] >= s[high])
  {
    PartitionFromSplits(s, s[high], low, high, low - 1, low);
  }

  /** Partitioning changes nothing outside `[low, high]`. */
  lemma PartitionFrame(s: seq<int>, low: int, high: int)
    requires 0 <= low < high < |s|
    ensures SameOutside(Partition(s, low, high).0, s, low, high)
  {
    PartitionFromFrame(s, s[high], low, high, low - 1, low);
  }

  /** Partitioning only rearranges the buffer. */
  lemma PartitionPermutes(s: seq<int>, low: int, high: int)
    requires 0 <= low < high < |s|
    ensures multiset(Partition(s, low, high).0) == multiset(s)
  {
    PartitionFromPermutes(s, s[high], low, high, low - 1, low);
  }

  // ----- quick_sort -----

  /** `quick_sort(arr, low, high)`: the buffer after the call. */
  function QuickSort(s: seq<int>, low: int, high: int): (r: seq<int>)
    requires ValidRange(|s|, low, high)
    ensures |r| == |s|
    decreases high - low
  {
    if low < high then
      var parted := Partition(s, low, high);
      var p := parted.1;
      QuickSort(QuickSort(parted.0, low, p - 1), p + 1, high)
    else s
  }

  /** One step of the recursion, spelled out on the intermediate buffers:
      partition, then sort the left part, then the right part. */
  lemma QuickSortStep(s: seq<int>, s1: seq<int>, p: int, s2: seq<int>, s3: seq<int>, low: int, high: int)
    requires 0 <= low < high < |s|
    requires (s1, p) == Partition(s, low, high)
    requires s2 == QuickSort(s1, low, p - 1)
    requires s3 == QuickSort(s2, p + 1, high)
    ensures s3 == QuickSort(s, low, high)
  {
  }

  /** The two sides of a partition sorted right side first leave the same
      buffer as left side first. */
  lemma RightFirstSameOutcome(s: seq<int>, s2: seq<int>, s3: seq<int>, low: int, p: int, high: int)
    requires 0 <= low <= p <= high < |s|
    requires s2 == QuickSort(s, p + 1, high)
    requires s3 == QuickSort(s2, low, p - 1)
    ensures s3 == QuickSort(QuickSort(s, low, p - 1), p + 1, high)
  {
    DisjointSortsCommute(s, low, p - 1, p + 1, high);
  }

  /** The sort changes nothing outside `[low, high]`. */
  lemma {:induction false} QuickSortFrame(s: seq<int>, low: int, high: int)
    requires ValidRange(|s|, low, high)
    ensures SameOutside(QuickSort(s, low, high), s, low, high)
    decreases high - low
  {
    if low < high {
      var parted := Partition(s, low, high);
      var s1, p := parted.0, parted.1;
      var s2 := QuickSort(s1, low, p - 1);
      assert QuickSort(s, low, high) == QuickSort(s2, p + 1, high);
      PartitionFrame(s, low, high);
      QuickSortFrame(s1, low, p - 1);
      QuickSortFrame(s2, p + 1, high);
    }
  }

  /** The sort neither creates nor loses a value. */
  lemma {:induction false} QuickSortPermutes(s: seq<int>, low: int, high: int)
    requires ValidRange(|s|, low, high)
    ensures multiset(QuickSort(s, low, high)) == multiset(s)
    decreases high - low
  {
    if low < high {
      var parted := Partition(s, low, high);
      var s1, p := parted.0, parted.1;
      var s2 := QuickSort(s1, low, p - 1);
      var s3 := QuickSort(s2, p + 1, high);
      assert multiset(s3) == multiset(s) by {
        PartitionPermutes(s, low, high);
        QuickSortPermutes(s1, low, p - 1);
        QuickSortPermutes(s2, p + 1, high);
      }
      QuickSortStep(s, s1, p, s2, s3, low, high);
    }
  }

  /** A rearrangement of the whole buffer that leaves everything outside
      `[low, high]` alone is a rearrangement of `[low, high]`. */
  lemma RangeMultiset(r: seq<int>, s: seq<int>, low: int, high: int)
    requires |r| == |s| && 0 <= low <= high < |s|
    requires SameOutside(r, s, low, high)
    requires multiset(r) == multiset(s)
    ensures SameValuesBetween(r, s, low, high)
  {
    assert r[..low] == s[..low];
    assert r[high + 1..] == s[high + 1..];
    assert r == r[..low] + r[low..high + 1] + r[high + 1..];
    assert s == s[..low] + s[low..high + 1] + s[high + 1..];
    assert multiset(r[low..high + 1]) == multiset(r) - multiset(r[..low]) - multiset(r[high + 1..]);
    assert multiset(s[low..high + 1]) == multiset(s) - multiset(s[..low]) - multiset(s[high + 1..]);
  }

  /** The range `[low, high]` after the sort holds the values it held
      before. */
  lemma QuickSortPermutesRange(s: seq<int>, low: int, high: int)
    requires 0 <= low <= high < |s|
    ensures SameValuesBetween(QuickSort(s, low, high), s, low, high)
  {
    QuickSortPermutes(s, low, high);
    QuickSortFrame(s, low, high);
    RangeMultiset(QuickSort(s, low, high), s, low, high);
  }

  /** If every cell of `[low, high]` in `s` is below `pivot`, so is every
      cell of that range in a rearrangement `r` of it. */
  lemma BelowCarriesOver(r: seq<int>, s: seq<int>, low: int, high: int, pivot: int)
    requires |r| == |s| && 0 <= low <= high < |s|
    requires SameValuesBetween(r, s, low, high)
    requires forall k :: low <= k <= high ==> s[k] < pivot
    ensures forall k :: low <= k <= high ==> r[k] < pivot
  {
    forall k | low <= k <= high ensures r[k] < pivot {
      var x := ValueOrigin(r, s, low, high, k);
    }
  }

  /** If every cell of `[low, high]` in `s` is at or above `pivot`, so is
      every cell of that range in a rearrangement `r` of it. */
  lemma AtLeastCarriesOver(r: seq<int>, s: seq<int>, low: int, high: int, pivot: int)
    requires |r| == |s| && 0 <= low <= high < |s|
    requires SameValuesBetween(r, s, low, high)
    requires forall k :: low <= k <= high ==> s[k] >= pivot
    ensures forall k :: low <= k <= high ==> r[k] >= pivot
  {
    forall k | low <= k <= high ensures r[k] >= pivot {
      var x := ValueOrigin(r, s, low, high, k);
    }
  }

  /** Each cell of a rearranged range holds a value found in the original
      range. */
  lemma ValueOrigin(r: seq<int>, s: seq<int>, low: int, high: int, k: int) returns (x: int)
    requires |r| == |s| && 0 <= low <= k <= high < |s|
    requires SameValuesBetween(r, s, low, high)
    ensures low <= x <= high && s[x] == r[k]
  {
    assert r[low..high + 1][k - low] == r[k];
    assert r[k] in multiset(s[low..high + 1]);
    var y :| 0 <= y < high + 1 - low && s[low..high + 1][y] == r[k];
    x := low + y;
  }

  /** The step that closes `quick_sort`: `s1` is partitioned around the
      pivot at `p`, `s2` sorts `[low, p - 1]` of `s1` and `s3` sorts
      `[p + 1, high]` of `s2`, each as a rearrangement of its range that
      leaves the rest alone. Then `[low, high]` of `s3` is in order. */
  lemma SortedAroundPivot(s1: seq<int>, s2: seq<int>, s3: seq<int>, low: int, p: int, high: int, pivot: int)
    requires |s1| == |s2| == |s3| && 0 <= low <= p <= high < |s1|
    requires s1[p] == pivot
    requires forall k :: low <= k < p ==> s1[k] < pivot
    requires forall k :: p < k <= high ==> s1[k] >= pivot
    requires SameOutside(s2, s1, low, p - 1) && SameOutside(s3, s2, p + 1, high)
    requires low < p ==> SameValuesBetween(s2, s1, low, p - 1)
    requires p < high ==> SameValuesBetween(s3, s2, p + 1, high)
    requires SortedBetween(s2, low, p - 1) && SortedBetween(s3, p + 1, high)
    ensures SortedBetween(s3, low, high)
  {
    assert forall k :: low <= k < p ==> s2[k] < pivot by {
      if low < p {
        BelowCarriesOver(s2, s1, low, p - 1, pivot);
      }
    }
    assert forall k :: p < k <= high ==> s3[k] >= pivot by {
      if p < high {
        AtLeastCarriesOver(s3, s2, p + 1, high, pivot);
      }
    }
    assert s3[p] == pivot by {
      assert s3[p] == s2[p] == s1[p];
    }
    assert forall k :: low <= k < p ==> s3[k] == s2[k];
    SortedJoin(s2, s3, low, p, high, pivot);
  }

  /** A range is in order when it consists of an ordered left part below
      the pivot, the pivot, and an ordered right part at or above it; the
      left part of `s3` is taken over unchanged from `s2`. */
  lemma SortedJoin(s2: seq<int>, s3: seq<int>, low: int, p: int, high: int, pivot: int)
    requires |s2| == |s3| && 0 <= low <= p <= high < |s3|
    requires forall k :: low <= k < p ==> s3[k] == s2[k] && s2[k] < pivot
    requires SortedBetween(s2, low, p - 1)
    requires s3[p] == pivot
    requires forall k :: p < k <= high ==> s3[k] >= pivot
    requires SortedBetween(s3, p + 1, high)
    ensures SortedBetween(s3, low, high)
  {
    forall i, j | low <= i < j <= high ensures s3[i] <= s3[j] {
      if j < p {
        assert s3[i] == s2[i] && s3[j] == s2[j];
      } else if i < p {
        assert s3[i] == s2[i];
      }
    }
  }

  /** After `quick_sort(arr, low, high)` the range `[low, high]` is in
      order. */
  lemma {:induction false} QuickSortSorts(s: seq<int>, low: int, high: int)
    requires ValidRange(|s|, low, high)
    ensures SortedBetween(QuickSort(s, low, high), low, high)
    decreases high - low
  {
    if low < high {
      var parted := Partition(s, low, high);
      var s1, p := parted.0, parted.1;
      var s2 := QuickSort(s1, low, p - 1);
      var s3 := QuickSort(s2, p + 1, high);
      assert SortedBetween(s3, low, high) by {
        assert SortedBetween(s2, low, p - 1) && SortedBetween(s3, p + 1, high) by {
          QuickSortSorts(s1, low, p - 1);
          QuickSortSorts(s2, p + 1, high);
        }
        if low < p {
          QuickSortPermutesRange(s1, low, p - 1);
        }
        if p < high {
          QuickSortPermutesRange(s2, p + 1, high);
        }
        PartitionPlacesPivot(s, low, high);
        QuickSortFrame(s1, low, p - 1);
        QuickSortFrame(s2, p + 1, high);
        SortedAroundPivot(s1, s2, s3, low, p, high, s[high]);
      }
      assert s3 == QuickSort(s, low, high);
    }
  }

  // ----- uniqueness of the sorted outcome -----

  /** The first element of a sorted sequence is its least. */
  lemma SortedHeadIsLeast(a: seq<int>, x: int)
    requires Sorted(a) && x in a
    ensures a[0] <= x
  {
  }

  /** A sorted sequence is determined by its multiset of values. */
  lemma {:induction false} SortedPermutationUnique(a: seq<int>, b: seq<int>)
    requires Sorted(a) && Sorted(b)
    requires multiset(a) == multiset(b)
    ensures a == b
    decreases |a|
  {
    assert |a| == |b| by {
      assert |multiset(a)| == |a| && |multiset(b)| == |b|;
    }
    if |a| > 0 {
      SortedHeadsAgree(a, b);
      TailsPermute(a, b);
      SortedTail(a);
      SortedTail(b);
      SortedPermutationUnique(a[1..], b[1..]);
      assert a == [a[0]] + a[1..] && b == [b[0]] + b[1..];
    }
  }

  /** Two sorted sequences with the same values start with the same value. */
  lemma SortedHeadsAgree(a: seq<int>, b: seq<int>)
    requires Sorted(a) && Sorted(b) && multiset(a) == multiset(b) && |a| > 0
    ensures |b| > 0 && a[0] == b[0]
  {
    assert a[0] in multiset(b);
    assert b[0] in multiset(a);
    SortedHeadIsLeast(a, b[0]);
    SortedHeadIsLeast(b, a[0]);
  }

  /** Dropping equal first values from two sequences with the same values
      leaves two sequences with the same values. */
  lemma TailsPermute(a: seq<int>, b: seq<int>)
    requires |a| > 0 && |b| > 0 && a[0] == b[0] && multiset(a) == multiset(b)
    ensures multiset(a[1..]) == multiset(b[1..])
  {
    assert a == [a[0]] + a[1..] && b == [b[0]] + b[1..];
    assert multiset(a[1..]) == multiset(a) - multiset{a[0]};
    assert multiset(b[1..]) == multiset(b) - multiset{b[0]};
  }

  /** The tail of a sorted sequence is sorted. */
  lemma SortedTail(a: seq<int>)
    requires Sorted(a) && |a| > 0
    ensures Sorted(a[1..])
  {
    forall i, j | 0 <= i < j < |a| - 1 ensures a[1..][i] <= a[1..][j] {
      assert a[1..][i] == a[i + 1] && a[1..][j] == a[j + 1];
    }
  }

  /** Two buffers whose range `[low, high]` is sorted and holds the same
      values agree on that range. */
  lemma SortedRangeDetermined(r1: seq<int>, r2: seq<int>, low: int, high: int)
    requires |r1| == |r2| && 0 <= low <= high < |r1|
    requires SortedBetween(r1, low, high) && SortedBetween(r2, low, high)
    requires SameValuesBetween(r1, r2, low, high)
    ensures forall k :: low <= k <= high ==> r1[k] == r2[k]
  {
    SortedPermutationUnique(r1[low..high + 1], r2[low..high + 1]);
    forall k | low <= k <= high ensures r1[k] == r2[k] {
      assert r1[k] == r1[low..high + 1][k - low];
      assert r2[k] == r2[low..high + 1][k - low];
    }
  }

  /** The sort's outcome depends only on the values in the range: any
      buffer that is sorted on `[low, high]`, holds the same values there
      and agrees elsewhere is the sort's outcome. */
  lemma QuickSortUnique(s: seq<int>, low: int, high: int, r: seq<int>)
    requires 0 <= low <= high < |s| && |r| == |s|
    requires SortedBetween(r, low, high) && SameOutside(r, s, low, high)
    requires SameValuesBetween(r, s, low, high)
    ensures QuickSort(s, low, high) == r
  {
    var q := QuickSort(s, low, high);
    QuickSortFrame(s, low, high);
    QuickSortSorts(s, low, high);
    QuickSortPermutesRange(s, low, high);
    SortedRangeDetermined(q, r, low, high);
    assert forall k :: 0 <= k < |s| ==> q[k] == r[k];
  }

  /** Sorting a range that is already in order (in particular an empty or
      one-element range, or one whose values are all equal) changes
      nothing. */
  lemma QuickSortFixesSorted(s: seq<int>, low: int, high: int)
    requires ValidRange(|s|, low, high) && SortedBetween(s, low, high)
    ensures QuickSort(s, low, high) == s
  {
    if low < high {
      QuickSortUnique(s, low, high, s);
    }
  }

  /** Sorting a range twice gives the same buffer as sorting it once. */
  lemma QuickSortIdempotent(s: seq<int>, low: int, high: int)
    requires ValidRange(|s|, low, high)
    ensures QuickSort(QuickSort(s, low, high), low, high) == QuickSort(s, low, high)
  {
    QuickSortSorts(s, low, high);
    QuickSortFixesSorted(QuickSort(s, low, high), low, high);
  }

  /** Sorting two disjoint ranges gives the same buffer in either order:
      each sort reads and writes only its own range. This is why the two
      tasks of the fork-join sort need no lock on the buffer. */
  lemma DisjointSortsCommute(s: seq<int>, low1: int, high1: int, low2: int, high2: int)
    requires ValidRange(|s|, low1, high1) && ValidRange(|s|, low2, high2)
    requires high1 < low2
    ensures QuickSort(QuickSort(s, low1, high1), low2, high2)
         == QuickSort(QuickSort(s, low2, high2), low1, high1)
  {
    var a := QuickSort(QuickSort(s, low1, high1), low2, high2);
    var b := QuickSort(QuickSort(s, low2, high2), low1, high1);
    QuickSortFrame(s, low1, high1);
    QuickSortFrame(s, low2, high2);
    QuickSortFrame(QuickSort(s, low1, high1), low2, high2);
    QuickSortFrame(QuickSort(s, low2, high2), low1, high1);
    if low1 < high1 && low2 < high2 {
      QuickSortLocal(s, QuickSort(s, low2, high2), low1, high1);
      QuickSortLocal(s, QuickSort(s, low1, high1), low2, high2);
    }
    assert forall k :: 0 <= k < |s| ==> a[k] == b[k];
  }

  /** What the sort leaves in `[low, high]` depends only on what was in
      `[low, high]` before. */
  lemma QuickSortLocal(s: seq<int>, t: seq<int>, low: int, high: int)
    requires |s| == |t| && 0 <= low <= high < |s|
    requires forall k :: low <= k <= high ==> s[k] == t[k]
    ensures forall k :: low <= k <= high ==> QuickSort(s, low, high)[k] == QuickSort(t, low, high)[k]
  {
    QuickSortSorts(s, low, high);
    QuickSortSorts(t, low, high);
    QuickSortPermutesRange(s, low, high);
    QuickSortPermutesRange(t, low, high);
    assert s[low..high + 1] == t[low..high + 1];
    SortedRangeDetermined(QuickSort(s, low, high), QuickSort(t, low, high), low, high);
  }

  // ----- is_sorted -----

  /** Adjacent pairs in order is the same as all pairs in order, which is
      why `is_sorted` only compares neighbours. */
  lemma AdjacentSortedIffSorted(s: seq<int>)
    ensures AdjacentSorted(s) <==> Sorted(s)
  {
    if AdjacentSorted(s) {
      forall i, j | 0 <= i < j < |s| ensures s[i] <= s[j] {
        AdjacentChain(s, i, j);
      }
    }
  }

  /** Order propagates along a chain of in-order neighbours. */
  lemma {:induction false} AdjacentChain(s: seq<int>, i: int, j: int)
    requires AdjacentSorted(s) && 0 <= i <= j < |s|
    ensures s[i] <= s[j]
    decreases j - i
  {
    if i < j {
      AdjacentChain(s, i + 1, j);
    }
  }

  // ----- the whole buffer -----

  /** The program's call `quick_sort(arr, 0, size - 1)` leaves the whole
      buffer sorted and holding the values it held. */
  lemma WholeBufferSorted(s: seq<int>)
    ensures Sorted(QuickSort(s, 0, |s| - 1))
    ensures multiset(QuickSort(s, 0, |s| - 1)) == multiset(s)
  {
    QuickSortSorts(s, 0, |s| - 1);
    QuickSortPermutes(s, 0, |s| - 1);
  }

  /** The program's call `quick_sort(arr, 0, size - 1)` has exactly one
      possible outcome: the sorted rearrangement of the buffer. */
  lemma WholeBufferUnique(s: seq<int>, r: seq<int>)
    requires |r| == |s| && Sorted(r) && multiset(r) == multiset(s)
    ensures QuickSort(s, 0, |s| - 1) == r
  {
    if |s| == 0 {
      assert r == s;
    } else {
      var high := |s| - 1;
      assert r[0..high + 1] == r && s[0..high + 1] == s;
      QuickSortUnique(s, 0, high, r);
    }
  }

  /** The worked scenario: partitioning [3,6,1,8,2,2] around its last
      element 2 moves the 1 to the front and the pivot to index 1. */
  lemma ScenarioPartition()
    ensures Partition([3, 6, 1, 8, 2, 2], 0, 5) == ([1, 2, 3, 8, 2, 6], 1)
  {
    var s := [3, 6, 1, 8, 2, 2];
    var t := [1, 6, 3, 8, 2, 2];
    assert Swap(s, 0, 2) == t;
    assert PartitionFrom(s, 2, 0, 5, -1, 0) == PartitionFrom(s, 2, 0, 5, -1, 1) == PartitionFrom(s, 2, 0, 5, -1, 2);
    assert PartitionFrom(s, 2, 0, 5, -1, 2) == PartitionFrom(t, 2, 0, 5, 0, 3);
    assert PartitionFrom(t, 2, 0, 5, 0, 3) == PartitionFrom(t, 2, 0, 5, 0, 4) == PartitionFrom(t, 2, 0, 5, 0, 5);
    assert PartitionFrom(t, 2, 0, 5, 0, 5) == (Swap(t, 1, 5), 1);
    assert Swap(t, 1, 5) == [1, 2, 3, 8, 2, 6];
  }

  /** Values equal to the pivot stay on its right: partitioning
      [5,-1,5,3,5] around 5 gives [-1,3,5,5,5] and index 2. */
  lemma ScenarioPartitionTies(s: seq<int>)
    requires s == [5, -1, 5, 3, 5]
    ensures Partition(s, 0, 4) == ([-1, 3, 5, 5, 5], 2)
  {
    var t := [-1, 5, 5, 3, 5];
    var u := [-1, 3, 5, 5, 5];
    assert Swap(s, 0, 1) == t;
    assert Swap(t, 1, 3) == u;
    assert Swap(u, 2, 4) == u;
    assert PartitionFrom(s, 5, 0, 4, -1, 0) == PartitionFrom(s, 5, 0, 4, -1, 1) == PartitionFrom(t, 5, 0, 4, 0, 2);
    assert PartitionFrom(t, 5, 0, 4, 0, 2) == PartitionFrom(t, 5, 0, 4, 0, 3) == PartitionFrom(u, 5, 0, 4, 1, 4);
  }

  /** Sorting [2,3,1,2] yields [1,2,2,3]: equal values are kept, and the
      outcome is the sorted rearrangement. */
  lemma ScenarioSort(s: seq<int>)
    requires s == [2, 3, 1, 2]
    ensures QuickSort(s, 0, 3) == [1, 2, 2, 3]
  {
    var r := [1, 2, 2, 3];
    assert multiset(r) == multiset(s);
    WholeBufferUnique(s, r);
  }

  /** Sorting [2,1] swaps the two cells. */
  lemma ScenarioTwoCells(s: seq<int>)
    requires s == [2, 1]
    ensures QuickSort(s, 0, 1) == [1, 2]
  {
    var r := [1, 2];
    assert multiset(r) == multiset(s);
    WholeBufferUnique(s, r);
  }

  /** Sorting [3,6,1,8,2,2], the buffer of the partition scenario, gives
      [1,2,2,3,6,8]. */
  lemma ScenarioSortSix(s: seq<int>)
    requires s == [3, 6, 1, 8, 2, 2]
    ensures QuickSort(s, 0, 5) == [1, 2, 2, 3, 6, 8]
  {
    var r := [1, 2, 2, 3, 6, 8];
    SixValuesRearranged(s, r);
    assert Sorted(r) by {
      assert AdjacentSorted(r);
      AdjacentSortedIffSorted(r);
    }
    WholeBufferUnique(s, r);
  }

  /** [1,2,2,3,6,8] is [3,6,1,8,2,2] after four swaps. */
  lemma SixValuesRearranged(s: seq<int>, r: seq<int>)
    requires s == [3, 6, 1, 8, 2, 2] && r == [1, 2, 2, 3, 6, 8]
    ensures multiset(r) == multiset(s)
  {
    var s1 := Swap(s, 0, 2);
    var s2 := Swap(s1, 1, 4);
    var s3 := Swap(s2, 2, 5);
    assert r == Swap(s3, 3, 5);
    SwapPermutes(s, 0, 2);
    SwapPermutes(s1, 1, 4);
    SwapPermutes(s2, 2, 5);
    SwapPermutes(s3, 3, 5);
  }

  /** A call whose `low` is past its `high` returns at once, even with
      indices outside the buffer. */
  lemma ScenarioEmptyRange(s: seq<int>)
    requires s == [1, 2]
    ensures QuickSort(s, 7, 3) == [1, 2]
  {
  }
}
