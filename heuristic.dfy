/** The integer components of `_calculate_state_value`: the run scoring of
    `count_merges`, the neighbour test of `score_monotonicity` as the code
    evaluates it, the empty-cell count, the tile sum, and the weighted sum. */
module Heuristic {
  import opened Line
  import opened Grid
  import opened Spawn

  // ---------------------------------------------------------------------------
  // count_merges

  /** Length of the maximal run of equal values that ends at index m - 1. */
  function TrailRun(s: seq<int>, m: nat): (r: nat)
    requires 0 < m <= |s|
    ensures 1 <= r <= m
  {
    if m == 1 || s[m - 2] != s[m - 1] then 1 else 1 + TrailRun(s, m - 1)
  }

  /** The trailing run is a run of equal values, and it is maximal. */
  lemma {:induction false} TrailRunSpec(s: seq<int>, m: nat)
    requires 0 < m <= |s|
    ensures forall i :: m - TrailRun(s, m) <= i < m ==> s[i] == s[m - 1]
    ensures TrailRun(s, m) < m ==> s[m - 1 - TrailRun(s, m)] != s[m - 1]
  {
    if m > 1 && s[m - 2] == s[m - 1] {
      TrailRunSpec(s, m - 1);
    }
  }

  /** The merge potential of the first m cells: the sum, over their maximal
      runs of equal tiles of length L >= 2, of L times the run's exponent;
      runs of empty cells count nothing. */
  function RunSum(s: seq<int>, m: nat): int
    requires m <= |s|
    decreases m
  {
    if m == 0 then 0
    else
      var t := TrailRun(s, m);
      RunSum(s, m - t) + (if s[m - 1] != 0 && t >= 2 then t * s[m - 1] else 0)
  }

  /** The part of the first m cells' potential already flushed by the scan:
      everything before the run of non-empty tiles that ends them. */
  function Closed(s: seq<int>, m: nat): int
    requires m <= |s|
  {
    if m == 0 || s[m - 1] == 0 then RunSum(s, m) else RunSum(s, m - TrailRun(s, m))
  }

  /** The scan's `count` after m cells: one less than the length of the open
      run of tiles. */
  function Pending(s: seq<int>, m: nat): nat
    requires m <= |s|
  {
    if m == 0 || s[m - 1] == 0 then 0 else TrailRun(s, m) - 1
  }

  /** What flushing the open run adds. */
  function Flush(s: seq<int>, m: nat): int
    requires m <= |s|
  {
    if Pending(s, m) > 0 then (1 + Pending(s, m)) * s[m - 1] else 0
  }

  lemma RunSumClosed(s: seq<int>, m: nat)
    requires m <= |s|
    ensures RunSum(s, m) == Closed(s, m) + Flush(s, m)
  {
  }

  /** One step of the scan of `count_merges`, reading cell m. */
  lemma CountStep(s: seq<int>, m: nat)
    requires m < |s|
    ensures Pending(s, m + 1) ==
      if s[m] != 0 && m > 0 && s[m] == s[m - 1] then Pending(s, m) + 1 else 0
    ensures Closed(s, m + 1) ==
      if s[m] != 0 && m > 0 && s[m] == s[m - 1] then Closed(s, m) else Closed(s, m) + Flush(s, m)
  {
    RunSumClosed(s, m);
  }

  /** `count_merges(line)`: one pass with a run counter, flushing a run when a
      different value (or an empty cell) ends it, and once more at the end. */
  method CountMerges(line: seq<int>) returns (merge: int)
    ensures merge == RunSum(line, |line|)
  {
    var count, prev := 0, 0;
    merge := 0;
    for i := 0 to |line|
      invariant prev == if i == 0 then 0 else line[i - 1]
      invariant count == Pending(line, i)
      invariant merge == Closed(line, i)
    {
      var value := line[i];
      CountStep(line, i);
      if value != 0 && value == prev {
        count := count + 1;
      } else if count > 0 {
        merge := merge + (1 + count) * prev;
        count := 0;
      }
      prev := value;
    }
    RunSumClosed(line, |line|);
    if count > 0 {
      merge := merge + (1 + count) * prev;
    }
  }

  /** Two equal adjacent tiles among the first m cells. */
  predicate PairBelow(s: seq<int>, m: nat)
    requires m <= |s|
  {
    exists i :: 0 <= i && i + 1 < m && s[i] == s[i + 1] && s[i] != 0
  }

  /** A pair of equal adjacent tiles inside the first m cells that is not in
      the trailing run lies wholly before it, never across its boundary. */
  lemma PairBeforeOrInRun(s: seq<int>, m: nat)
    requires 0 < m <= |s| && PairBelow(s, m)
    ensures PairBelow(s, m - TrailRun(s, m)) || (s[m - 1] != 0 && TrailRun(s, m) >= 2)
  {
    var t := TrailRun(s, m);
    var i :| 0 <= i && i + 1 < m && s[i] == s[i + 1] && s[i] != 0;
    TrailRunSpec(s, m);
    if i + 1 < m - t {
      assert PairBelow(s, m - t);
    } else if i + 1 == m - t {
      assert false;
    } else {
      assert s[i] == s[m - 1];
    }
  }

  /** A pair lies among the first m cells iff it lies before the trailing run
      or the trailing run is itself a pair of tiles. */
  lemma PairSplit(s: seq<int>, m: nat)
    requires 0 < m <= |s|
    ensures PairBelow(s, m) <==>
      PairBelow(s, m - TrailRun(s, m)) || (s[m - 1] != 0 && TrailRun(s, m) >= 2)
  {
    if PairBelow(s, m) {
      PairBeforeOrInRun(s, m);
    }
    var t := TrailRun(s, m);
    if PairBelow(s, m - t) {
      var i :| 0 <= i && i + 1 < m - t && s[i] == s[i + 1] && s[i] != 0;
      assert i + 1 < m;
    }
    if s[m - 1] != 0 && t >= 2 {
      TrailRunSpec(s, m);
      assert s[m - 2] == s[m - 1];
      assert m - 2 + 1 < m;
    }
  }

  /** With non-negative exponents the merge potential of the first m cells is
      never negative, and it is positive iff two adjacent cells among them
      hold the same tile. */
  lemma {:induction false} RunSumPositiveIff(s: seq<int>, m: nat)
    requires NonNegative(s) && m <= |s|
    ensures RunSum(s, m) >= 0
    ensures RunSum(s, m) > 0 <==> PairBelow(s, m)
    decreases m
  {
    if m > 0 {
      var t := TrailRun(s, m);
      var x := s[m - 1];
      RunSumPositiveIff(s, m - t);
      PairSplit(s, m);
      var c := if x != 0 && t >= 2 then t * x else 0;
      assert RunSum(s, m) == RunSum(s, m - t) + c;
      assert c > 0 <==> x != 0 && t >= 2;
    }
  }

  /** `count_merges` of a non-negative line is never negative, and it is
      positive iff two adjacent cells hold the same tile. */
  lemma MergePotentialPositiveIff(s: seq<int>)
    requires NonNegative(s)
    ensures RunSum(s, |s|) >= 0
    ensures RunSum(s, |s|) > 0 <==> HasEqualPair(s)
  {
    RunSumPositiveIff(s, |s|);
    if HasEqualPair(s) {
      var i :| 0 <= i < |s| - 1 && s[i] == s[i + 1] && s[i] != 0;
      assert PairBelow(s, |s|);
    }
  }

  /** Worked values of the run scoring. */
  lemma RunSumExamples()
    ensures RunSum([1, 1, 1, 0], 4) == 3
    ensures RunSum([2, 2, 0, 2], 4) == 4
    ensures RunSum([0, 0, 0, 0], 4) == 0
  {
    assert TrailRun([1, 1, 1, 0], 3) == 3;
    assert TrailRun([2, 2, 0, 2], 2) == 2;
  }

  // ---------------------------------------------------------------------------
  // score_monotonicity

  /** Python's `line[i - 1]`: at i = 0 the index -1 is the last element. */
  function CyclicPrev(s: seq<int>, i: nat): int
    requires i < |s|
  {
    if i == 0 then s[|s| - 1] else s[i - 1]
  }

  /** The indices i < m whose cyclic predecessor exceeds line[i] by exactly 1. */
  function DropsBelow(s: seq<int>, m: nat): (r: nat)
    requires m <= |s|
    ensures r <= m
  {
    if m == 0 then 0
    else DropsBelow(s, m - 1) + (if CyclicPrev(s, m - 1) - s[m - 1] == 1 then 1 else 0)
  }

  /** `score_monotonicity` of the whole line: at most one per index. */
  function Drops(s: seq<int>): (r: nat)
    ensures r <= |s|
  {
    DropsBelow(s, |s|)
  }

  function Abs(x: int): int
  {
    if x < 0 then -x else x
  }

  /** Python's `int(b)` for a comparison result. */
  function BoolValue(b: bool): int
  {
    if b then 1 else 0
  }

  /** `score_monotonicity(line)` as the code evaluates it: the test
      `abs(line[i-1] - line[i] == 1)` takes the absolute value of a comparison,
      so it holds exactly when the predecessor is one more; the `right` counter
      is then never incremented, and the result is the `left` count. */
  method ScoreMonotonicity(line: seq<int>) returns (score: int)
    ensures score == Drops(line)
    ensures |line| > 0 ==> 0 <= score < |line|
  {
    var left, right := 0, 0;
    for i := 0 to |line|
      invariant left == DropsBelow(line, i)
      invariant right == 0
    {
      var prev := if i == 0 then line[|line| - 1] else line[i - 1];
      if Abs(BoolValue(prev - line[i] == 1)) != 0 {
        if prev > line[i] {
          left := left + 1;
        } else {
          right := right + 1;
        }
      }
    }
    score := if left >= right then left else right;
    if |line| > 0 {
      DropsBound(line);
    }
  }

  lemma {:induction false} DropsBelowAll(s: seq<int>, m: nat)
    requires m <= |s|
    ensures DropsBelow(s, m) <= m
    ensures DropsBelow(s, m) == m ==> forall i :: 0 <= i < m ==> CyclicPrev(s, i) - s[i] == 1
  {
    if m > 0 { DropsBelowAll(s, m - 1); }
  }

  lemma {:induction false} Telescope(s: seq<int>, m: nat)
    requires m < |s|
    requires forall i :: 1 <= i <= m ==> s[i - 1] - s[i] == 1
    ensures s[0] - s[m] == m
  {
    if m > 0 { Telescope(s, m - 1); }
  }

  /** Around a cycle the differences add to zero, so not every index can drop
      by one: the count is below the line's length. */
  lemma DropsBound(s: seq<int>)
    requires |s| > 0
    ensures Drops(s) < |s|
  {
    var n := |s|;
    DropsBelowAll(s, n);
    if Drops(s) == n {
      assert forall i :: 1 <= i <= n - 1 ==> s[i - 1] - s[i] == 1 by {
        forall i | 1 <= i <= n - 1 ensures s[i - 1] - s[i] == 1 {
          assert CyclicPrev(s, i) - s[i] == 1;
        }
      }
      Telescope(s, n - 1);
      assert false;
    }
  }

  // ---------------------------------------------------------------------------
  // Board-level sums

  /** The merge potential of rows 0..m-1. */
  function RowMerges(g: Board, m: nat): int
    requires IsSquare(g) && m <= |g|
  {
    if m == 0 then 0 else RowMerges(g, m - 1) + RunSum(g[m - 1], |g|)
  }

  /** The merge potential of columns 0..m-1 (`board[:, j]`). */
  function ColumnMerges(g: Board, m: nat): int
    requires IsSquare(g) && m <= |g|
  {
    if m == 0 then 0 else ColumnMerges(g, m - 1) + RunSum(Column(g, m - 1), |g|)
  }

  /** `merges`: every row, then every column. */
  function Merges(g: Board): int
    requires IsSquare(g)
  {
    RowMerges(g, |g|) + ColumnMerges(g, |g|)
  }

  /** The monotonicity of rows 0..m-1. */
  function RowDrops(g: Board, m: nat): nat
    requires IsSquare(g) && m <= |g|
  {
    if m == 0 then 0 else RowDrops(g, m - 1) + Drops(g[m - 1])
  }

  /** The second monotonicity sum, over `board[:][j]`: `board[:]` is the whole
      board, so its j-th element is row j. */
  function SlicedDrops(g: Board, m: nat): nat
    requires IsSquare(g) && m <= |g|
  {
    if m == 0 then 0 else SlicedDrops(g, m - 1) + Drops(g[..][m - 1])
  }

  function Monotonicity(g: Board): nat
    requires IsSquare(g)
  {
    RowDrops(g, |g|) + SlicedDrops(g, |g|)
  }

  /** The monotonicity term counts every row twice and no column. */
  lemma {:induction false} MonotonicityIsTwiceRows(g: Board, m: nat)
    requires IsSquare(g) && m <= |g|
    ensures SlicedDrops(g, m) == RowDrops(g, m)
    ensures m == |g| ==> Monotonicity(g) == 2 * RowDrops(g, |g|)
  {
    if m > 0 {
      MonotonicityIsTwiceRows(g, m - 1);
      assert g[..][m - 1] == g[m - 1];
    }
  }

  /** On a board whose rows each drop by one, while its columns are constant,
      the term is 4, where a sum over rows and columns would give 2. */
  lemma MonotonicityExample()
    ensures IsSquare([[2, 1], [2, 1]])
    ensures Monotonicity([[2, 1], [2, 1]]) == 4
    ensures Drops(Column([[2, 1], [2, 1]], 0)) + Drops(Column([[2, 1], [2, 1]], 1)) == 0
  {
    var g := [[2, 1], [2, 1]];
    MonotonicityIsTwiceRows(g, 2);
    assert Drops([2, 1]) == 1;
    assert Column(g, 0) == [2, 2];
    assert Column(g, 1) == [1, 1];
  }

  /** `merges`: `count_merges` summed over every row, then every column. */
  method BoardMerges(g: Board) returns (merges: int)
    requires IsSquare(g)
    ensures merges == Merges(g)
    ensures NonNegativeBoard(g) ==> merges >= 0
  {
    merges := 0;
    for i := 0 to |g|
      invariant merges == RowMerges(g, i)
    {
      var m := CountMerges(g[i]);
      merges := merges + m;
    }
    for j := 0 to |g|
      invariant merges == RowMerges(g, |g|) + ColumnMerges(g, j)
    {
      var m := CountMerges(Column(g, j));
      merges := merges + m;
    }
    if NonNegativeBoard(g) {
      MergesNonNegative(g, |g|);
    }
  }

  lemma {:induction false} MergesNonNegative(g: Board, m: nat)
    requires IsSquare(g) && NonNegativeBoard(g) && m <= |g|
    ensures RowMerges(g, m) >= 0 && ColumnMerges(g, m) >= 0
  {
    if m > 0 {
      MergesNonNegative(g, m - 1);
      assert NonNegative(g[m - 1]);
      MergePotentialPositiveIff(g[m - 1]);
      assert NonNegative(Column(g, m - 1));
      MergePotentialPositiveIff(Column(g, m - 1));
    }
  }

  /** `monotonicity`: `score_monotonicity` summed over every `board[i]`, then
      over every `board[:][j]`. */
  method BoardMonotonicity(g: Board) returns (monotonicity: int)
    requires IsSquare(g)
    ensures monotonicity == Monotonicity(g) == 2 * RowDrops(g, |g|)
  {
    monotonicity := 0;
    for i := 0 to |g|
      invariant monotonicity == RowDrops(g, i)
    {
      var m := ScoreMonotonicity(g[i]);
      monotonicity := monotonicity + m;
    }
    for j := 0 to |g|
      invariant monotonicity == RowDrops(g, |g|) + SlicedDrops(g, j)
    {
      var m := ScoreMonotonicity(g[..][j]);
      monotonicity := monotonicity + m;
    }
    MonotonicityIsTwiceRows(g, |g|);
  }

  function Power(x: int, e: nat): int
  {
    if e == 0 then 1 else x * Power(x, e - 1)
  }

  function RowPowerSum(s: seq<int>, e: nat): int
  {
    if s == [] then 0 else Power(s[0], e) + RowPowerSum(s[1..], e)
  }

  function PowerSumFrom(g: Board, i: nat, e: nat): int
    requires IsSquare(g) && i <= |g|
    decreases |g| - i
  {
    if i == |g| then 0 else RowPowerSum(g[i], e) + PowerSumFrom(g, i + 1, e)
  }

  /** `np.sum(np.power(board, sum_exp))` for a natural exponent. */
  function TileSum(g: Board, e: nat): int
    requires IsSquare(g)
  {
    PowerSumFrom(g, 0, e)
  }

  /** `empty`: the cells without a tile. */
  function EmptyCount(g: Board): int
    requires IsSquare(g)
  {
    |g| * |g| - TileCount(g)
  }

  lemma EmptyCountIsEmptyCells(g: Board)
    requires IsSquare(g)
    ensures EmptyCount(g) == |EmptyCells(g)| >= 0
  {
  }

  /** `empty > size * size * 3/4`, compared as in Python over the reals, for
      a board of `cells` cells. */
  predicate MostlyEmpty(cells: int, empty: int)
  {
    empty as real > (cells * 3) as real / 4.0
  }

  /** `moved_cells` after the reset rule: zeroed when more than three quarters
      of the board's cells are empty, otherwise kept. */
  function ShiftAfterReset(cells: int, empty: int, moved: nat): (r: nat)
    ensures 4 * empty > 3 * cells ==> r == 0
    ensures 4 * empty <= 3 * cells ==> r == moved
  {
    if MostlyEmpty(cells, empty) then 0 else moved
  }

  /** The heuristic configuration; `monotonicityExp` is stored but unused, as
      its uses are commented out in the source. */
  datatype Weights = Weights(
    mergeWeight: real, emptyWeight: real, monotonicityWeight: real, monotonicityExp: real,
    sumWeight: real, sumExp: nat, shiftWeight: real)

  /** The weighted sum that `_calculate_state_value` returns. */
  function StateValue(w: Weights, empty: int, merges: int, monotonicity: int, tileSum: int, moved: nat): real
  {
    w.emptyWeight * empty as real + w.mergeWeight * merges as real +
    w.monotonicityWeight * monotonicity as real + w.sumWeight * tileSum as real -
    w.shiftWeight * moved as real
  }

  /** The value of board g when `moved_cells` holds `moved` before the reset rule. */
  function BoardValue(w: Weights, g: Board, moved: nat): real
    requires IsSquare(g)
  {
    StateValue(w, EmptyCount(g), Merges(g), Monotonicity(g), TileSum(g, w.sumExp),
               ShiftAfterReset(|g| * |g|, EmptyCount(g), moved))
  }
}
