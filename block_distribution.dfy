/** The block distribution of the element-wise benchmark: `TOTAL_ELEMENTS`
    array cells are shared among `size` processes, and the process with
    number `rank` works on the half-open slice `[start, end)`. Every process
    receives `TOTAL_ELEMENTS / size` cells, and the first
    `TOTAL_ELEMENTS % size` processes receive one cell more. The element
    count is a parameter `n` here rather than the fixed 320 * 320. As `n`
    is never negative and `size` is at least 1, C's truncating `/` and `%`
    agree with Dafny's. */
module BlockDistribution {

  /** The cell range of one process: `start` inclusive, `end` exclusive. */
  datatype Slice = Slice(start: int, end: int)

  /** `chunk_size` and `remainder`: the quotient and remainder of dividing
      `n` cells among `size` processes. */
  function Split(n: nat, size: int): (r: (nat, nat))
    requires size >= 1
    ensures r.0 * size + r.1 == n && r.1 < size
  {
    (n / size, n % size)
  }

  /** The slice of process `rank`: it starts after `rank` full chunks and
      after one extra cell for each earlier process below the remainder,
      and it is one cell longer than a chunk when `rank` is itself below
      the remainder. */
  function SliceOf(n: nat, size: int, rank: int): (s: Slice)
    requires size >= 1 && 0 <= rank < size
    ensures s.start <= s.end
  {
    var (chunk, rem) := Split(n, size);
    var start := rank * chunk + (if rank < rem then rank else rem);
    Slice(start, start + chunk + (if rank < rem then 1 else 0))
  }

  /** A quotient and remainder are determined by the division they solve:
      any `q`, `r` with `q * size + r == n` and `0 <= r < size` are
      `chunk_size` and `remainder`. */
  lemma SplitUnique(n: nat, size: int, q: int, r: int)
    requires size >= 1 && 0 <= r < size && q * size + r == n
    ensures (q, r) == Split(n, size)
  {
    var (chunk, rem) := Split(n, size);
    if q < chunk {
      MulAtLeast(chunk - q, size);
      assert false;
    } else if q > chunk {
      MulAtLeast(q - chunk, size);
      assert false;
    }
  }

  /** `x * y >= y` when `x >= 1` and `y >= 0`. */
  lemma MulAtLeast(x: int, y: int)
    requires x >= 1 && y >= 0
    ensures x * y >= y
  {
    assert x * y == (x - 1) * y + y;
    MulNonNegative(x - 1, y);
  }

  /** Products of non-negative numbers are non-negative. */
  lemma MulNonNegative(x: int, y: int)
    requires x >= 0 && y >= 0
    ensures x * y >= 0
  {
  }

  /** The first process starts at cell 0 and the last one ends at cell
      `n`. */
  lemma SlicesSpanRange(n: nat, size: int)
    requires size >= 1
    ensures SliceOf(n, size, 0).start == 0
    ensures SliceOf(n, size, size - 1).end == n
  {
    var (chunk, rem) := Split(n, size);
    assert (size - 1) * chunk + chunk == size * chunk;
  }

  /** Neighbouring slices meet: each process's slice ends where the next
      process's slice starts. */
  lemma SlicesContiguous(n: nat, size: int, rank: int)
    requires size >= 1 && 0 <= rank < size - 1
    ensures SliceOf(n, size, rank).end == SliceOf(n, size, rank + 1).start
  {
    var (chunk, rem) := Split(n, size);
    assert (rank + 1) * chunk == rank * chunk + chunk;
  }

  /** A slice holds `chunk_size + 1` cells exactly when its rank is below
      the remainder, and `chunk_size` cells otherwise. */
  lemma SliceLength(n: nat, size: int, rank: int)
    requires size >= 1 && 0 <= rank < size
    ensures var len := SliceOf(n, size, rank).end - SliceOf(n, size, rank).start;
      (len == Split(n, size).0 + 1 <==> rank < Split(n, size).1)
      && (len == Split(n, size).0 <==> rank >= Split(n, size).1)
  {
  }

  /** Any two processes' shares differ by at most one cell. */
  lemma SlicesBalanced(n: nat, size: int, r1: int, r2: int)
    requires size >= 1 && 0 <= r1 < size && 0 <= r2 < size
    ensures -1 <= (SliceOf(n, size, r1).end - SliceOf(n, size, r1).start)
                  - (SliceOf(n, size, r2).end - SliceOf(n, size, r2).start) <= 1
  {
    SliceLength(n, size, r1);
    SliceLength(n, size, r2);
  }

  /** Later processes start no earlier: the start cell grows with the
      rank. */
  lemma {:induction false} StartMonotone(n: nat, size: int, r1: int, r2: int)
    requires size >= 1 && 0 <= r1 <= r2 < size
    ensures SliceOf(n, size, r1).start <= SliceOf(n, size, r2).start
    decreases r2 - r1
  {
    if r1 < r2 {
      SlicesContiguous(n, size, r1);
      StartMonotone(n, size, r1 + 1, r2);
    }
  }

  /** Every slice lies within the array: `0 <= start <= end <= n`. */
  lemma SliceWithinRange(n: nat, size: int, rank: int)
    requires size >= 1 && 0 <= rank < size
    ensures 0 <= SliceOf(n, size, rank).start <= SliceOf(n, size, rank).end <= n
  {
    SlicesSpanRange(n, size);
    StartMonotone(n, size, 0, rank);
    if rank < size - 1 {
      SlicesContiguous(n, size, rank);
      StartMonotone(n, size, rank + 1, size - 1);
    }
  }

  /** Does process `rank` work on cell `i`? */
  predicate Owns(n: nat, size: int, rank: int, i: int)
    requires size >= 1 && 0 <= rank < size
  {
    SliceOf(n, size, rank).start <= i < SliceOf(n, size, rank).end
  }

  /** The process that works on cell `i`, searched for from process `from`
      onwards: it is the first one whose slice ends after `i`. */
  function OwnerFrom(n: nat, size: int, i: int, from: int): (rank: int)
    requires size >= 1 && 0 <= from < size && i < n
    requires SliceOf(n, size, from).start <= i
    ensures from <= rank < size && Owns(n, size, rank, i)
    decreases size - from
  {
    if i < SliceOf(n, size, from).end then from
    else
      SlicesSpanRange(n, size);
      SlicesContiguous(n, size, from);
      OwnerFrom(n, size, i, from + 1)
  }

  /** The slices tile the array: every cell of `[0, n)` belongs to exactly
      one process's slice, so the per-process loops together visit each cell
      once. */
  lemma EachCellOwnedOnce(n: nat, size: int, i: int)
    requires size >= 1 && 0 <= i < n
    ensures exists rank :: 0 <= rank < size && Owns(n, size, rank, i)
    ensures forall r1, r2 ::
              (0 <= r1 < size && 0 <= r2 < size && Owns(n, size, r1, i) && Owns(n, size, r2, i))
              ==> r1 == r2
  {
    SlicesSpanRange(n, size);
    var owner := OwnerFrom(n, size, i, 0);
    assert Owns(n, size, owner, i);
    forall r1, r2 | 0 <= r1 < size && 0 <= r2 < size
        && Owns(n, size, r1, i) && Owns(n, size, r2, i)
      ensures r1 == r2
    {
      if r1 < r2 {
        OwnersOrdered(n, size, r1, r2, i);
      } else if r2 < r1 {
        OwnersOrdered(n, size, r2, r1, i);
      }
    }
  }

  /** A slice ends no later than any later slice starts, so a cell in the
      earlier slice is not in the later one. */
  lemma OwnersOrdered(n: nat, size: int, r1: int, r2: int, i: int)
    requires size >= 1 && 0 <= r1 < r2 < size && Owns(n, size, r1, i)
    ensures !Owns(n, size, r2, i)
  {
    SlicesContiguous(n, size, r1);
    StartMonotone(n, size, r1 + 1, r2);
  }

  /** The benchmark's own figures: 320 * 320 cells among 3 processes give
      the first process one extra cell. */
  lemma ScenarioThreeProcesses()
    ensures Split(102400, 3) == (34133, 1)
    ensures SliceOf(102400, 3, 0) == Slice(0, 34134)
    ensures SliceOf(102400, 3, 1) == Slice(34134, 68267)
    ensures SliceOf(102400, 3, 2) == Slice(68267, 102400)
  {
    SplitUnique(102400, 3, 34133, 1);
  }
}
