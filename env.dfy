/** The environment objects: `Text2048Env` and its heuristic subclass, as one
    class whose optional `weights` select the subclass's reward and reset. The
    board is a mutable n-by-n array that `step` changes through a rotated view. */
module Env {
  import opened Line
  import opened Grid
  import opened Spawn
  import opened Heuristic
  import opened Tiles

  datatype Option<T> = None | Some(value: T)

  /** The termination rule for an invalid move: past the warm-up, and more
      frequent than the threshold fraction of all moves. */
  function InvalidMoveDone(invalid: int, total: int, warmup: int, threshold: real): bool
  {
    invalid > warmup && invalid as real > threshold * total as real
  }

  /** Since the invalid counter never exceeds the move counter, a threshold of
      1 or more never ends an episode, nor does any count within the warm-up. */
  lemma InvalidMoveDoneBounds(invalid: int, total: int, warmup: int, threshold: real)
    requires 0 <= invalid <= total
    ensures threshold >= 1.0 ==> !InvalidMoveDone(invalid, total, warmup, threshold)
    ensures invalid <= warmup ==> !InvalidMoveDone(invalid, total, warmup, threshold)
  {
    if threshold >= 1.0 {
      assert threshold * total as real >= total as real;
    }
  }

  /** With the defaults (warm-up 16, threshold 0.1): 17 invalid moves out of
      17 end the episode; 17 out of 200 do not. */
  lemma InvalidMoveDoneExamples()
    ensures InvalidMoveDone(17, 17, 16, 0.1)
    ensures !InvalidMoveDone(17, 200, 16, 0.1)
    ensures !InvalidMoveDone(16, 16, 16, 0.1)
  {
  }

  /** The heuristic subclass's default weights. */
  const DefaultWeights := Weights(0.0, 0.0, 0.0, 1.0, 0.0, 1, 0.0)

  /** Every weight defaults to 0, so under the defaults the state value is 0
      on every board and the subclass's reward is the base reward. */
  lemma DefaultValueZero(g: Board, moved: nat)
    requires IsSquare(g)
    ensures BoardValue(DefaultWeights, g, moved) == 0.0
  {
  }

  /** The state of the scan of `_compress` over a column holding col0 after
      i cells: the tiles met so far stand in order at the top, the cells
      between them and i are empty, and the rest is still untouched. */
  ghost predicate CompressScan(col0: seq<int>, cur: seq<int>, i: nat, count: nat)
  {
    |cur| == |col0| && count <= i <= |col0| &&
    count == |NonZeros(col0[..i])| && cur[..count] == NonZeros(col0[..i]) &&
    (forall r :: count <= r < i ==> cur[r] == 0) &&
    (forall r :: i <= r < |cur| ==> cur[r] == col0[r])
  }

  /** One cell of the scan: a tile is swapped into the first free cell. */
  lemma CompressScanStep(col0: seq<int>, cur: seq<int>, i: nat, count: nat)
    requires CompressScan(col0, cur, i, count) && i < |col0|
    ensures col0[i] != 0 ==> CompressScan(col0, cur[count := cur[i]][i := cur[count]], i + 1, count + 1)
    ensures col0[i] == 0 ==> CompressScan(col0, cur, i + 1, count)
    ensures |NonZeros(col0[..i])| != i <==> count != i
  {
    assert col0[..i + 1] == col0[..i] + [col0[i]];
    NonZerosSnoc(col0[..i], col0[i]);
    if col0[i] != 0 {
      var next := cur[count := cur[i]][i := cur[count]];
      assert next[..count + 1] == cur[..count] + [col0[i]];
    }
  }

  /** At the end of the scan the column is the slid column. */
  lemma CompressScanDone(col0: seq<int>, cur: seq<int>, count: nat)
    requires CompressScan(col0, cur, |col0|, count)
    ensures cur == CompressLine(col0)
  {
    assert col0[..|col0|] == col0;
    assert cur == cur[..count] + cur[count..];
    assert cur[count..] == Zeros(|col0| - count);
  }

  /** One pass step of `_merge` over a column where the pair at i merges. */
  lemma MergeScanMerge(cur: seq<int>, i: nat)
    requires i + 1 < |cur| && cur[i] == cur[i + 1] && cur[i] != 0
    ensures var m := cur[i := cur[i] + 1][i + 1 := 0];
      m[..i + 1] + Merged(m[i + 1..]) == cur[..i] + Merged(cur[i..]) &&
      (cur[i] + 1) + MergeScore(m[i + 1..]) == MergeScore(cur[i..])
  {
    var m := cur[i := cur[i] + 1][i + 1 := 0];
    var t, rest := cur[i..], cur[i + 2..];
    assert t[2..] == rest;
    assert Merged(t) == [cur[i] + 1, 0] + Merged(rest);
    assert MergeScore(t) == (cur[i] + 1) + MergeScore(rest);
    assert m[i + 1..] == [0] + rest;
    MergedZeroHead(rest);
    assert m[..i + 1] == cur[..i] + [cur[i] + 1];
    assert m[..i + 1] + ([0] + Merged(rest)) == cur[..i] + ([cur[i] + 1, 0] + Merged(rest));
  }

  /** One pass step of `_merge` over a column where the pair at i does not merge. */
  lemma MergeScanSkip(cur: seq<int>, i: nat)
    requires i + 1 < |cur| && !(cur[i] == cur[i + 1] && cur[i] != 0)
    ensures cur[..i + 1] + Merged(cur[i + 1..]) == cur[..i] + Merged(cur[i..])
    ensures MergeScore(cur[i + 1..]) == MergeScore(cur[i..])
  {
    assert cur[i..][1..] == cur[i + 1..];
    assert cur[..i + 1] == cur[..i] + [cur[i]];
  }

  class Text2048Env {
    const size: nat
    const invalidMovePenalty: int
    const invalidMoveWarmup: int
    const invalidMoveThreshold: real
    /** `None` for `Text2048Env`, the heuristic's weights for
        `Text2048WithHeuristicEnv`. */
    const weights: Option<Weights>

    var board: array2<int>
    /** The contents of `board`, row by row, as a value. */
    ghost var cells: Board
    var prevBoard: Board
    var movedCells: nat
    var score: int
    var lastAction: Option<nat>
    var lastActionScore: int
    var invalidCount: int
    var totalCount: int
    var lastStateValue: real

    predicate Dims()
      reads this`board
    {
      board.Length0 == size && board.Length1 == size
    }

    /** `cells` holds what the array holds. */
    ghost predicate Mirror()
      reads this`board, this`cells, board
    {
      Dims() && IsSquare(cells) && |cells| == size &&
      forall i, j :: 0 <= i < size && 0 <= j < size ==> cells[i][j] == board[i, j]
    }

    /** The object invariant the operations keep. */
    ghost predicate Valid()
      reads this, board
    {
      Mirror() && NonNegativeBoard(cells) &&
      IsSquare(prevBoard) && |prevBoard| == size &&
      0 <= invalidCount <= totalCount &&
      score >= 0 && lastActionScore >= 0 &&
      (lastAction.Some? ==> lastAction.value < 4)
    }

    /** `np.copy(board)`: the contents read out row by row. */
    method CopyBoard() returns (g: Board)
      requires Mirror()
      ensures g == cells
    {
      g := [];
      for i := 0 to size
        invariant |g| == i && forall r :: 0 <= r < i ==> g[r] == cells[r]
      {
        var row := [];
        for j := 0 to size
          invariant row == cells[i][..j]
        {
          row := row + [board[i, j]];
        }
        assert cells[i][..size] == cells[i];
        g := g + [row];
      }
    }

    /** Cell (i, j) of `np.rot90(board, k)`. */
    function ViewAt(k: nat, i: nat, j: nat): int
      reads this`board, board
      requires Dims() && k < 4 && i < size && j < size
    {
      board[RotIndex(k, size, i, j).0, RotIndex(k, size, i, j).1]
    }

    /** The array seen through the view is the rotated contents. */
    lemma ViewFromMirror(k: nat)
      requires Mirror() && k < 4
      ensures forall i, j :: 0 <= i < size && 0 <= j < size ==> ViewAt(k, i, j) == Rotate(cells, k)[i][j]
    {
      RotateCells(cells, k);
    }

    /** Once the view holds w, the contents are w turned back. */
    lemma MirrorFromView(k: nat, w: Board)
      requires Dims() && k < 4 && IsSquare(w) && |w| == size
      requires forall i, j :: 0 <= i < size && 0 <= j < size ==> ViewAt(k, i, j) == w[i][j]
      requires cells == Rotate(w, Inverse(k))
      ensures Mirror() && Rotate(cells, k) == w
    {
      forall a, b | 0 <= a < size && 0 <= b < size ensures cells[a][b] == board[a, b] {
        RotIndexInverse(k, size, a, b);
        RotateAt(w, Inverse(k), a, b);
      }
      RotateRoundTrip(w, Inverse(k));
      assert Inverse(Inverse(k)) == k;
    }

    /** The tuple swap of two cells of column j of the view. */
    method SwapInView(k: nat, i: nat, i2: nat, j: nat)
      requires Dims() && k < 4 && i < size && i2 < size && j < size
      modifies board
      ensures ViewAt(k, i, j) == old(ViewAt(k, i2, j)) && ViewAt(k, i2, j) == old(ViewAt(k, i, j))
      ensures forall r, c :: 0 <= r < size && 0 <= c < size && (r, c) != (i, j) && (r, c) != (i2, j) ==>
        ViewAt(k, r, c) == old(ViewAt(k, r, c))
    {
      var (a, b) := RotIndex(k, size, i, j);
      var (a2, b2) := RotIndex(k, size, i2, j);
      var t := board[a, b];
      board[a, b] := board[a2, b2];
      board[a2, b2] := t;
      forall r, c | 0 <= r < size && 0 <= c < size
        ensures RotIndex(k, size, r, c) == (a, b) ==> (r, c) == (i, j)
        ensures RotIndex(k, size, r, c) == (a2, b2) ==> (r, c) == (i2, j)
      {
        RotIndexInjective(k, size, r, c, i, j);
        RotIndexInjective(k, size, r, c, i2, j);
      }
    }

    /** An assignment to cell (i, j) of the view. */
    method SetInView(k: nat, i: nat, j: nat, x: int)
      requires Dims() && k < 4 && i < size && j < size
      modifies board
      ensures ViewAt(k, i, j) == x
      ensures forall r, c :: 0 <= r < size && 0 <= c < size && (r, c) != (i, j) ==>
        ViewAt(k, r, c) == old(ViewAt(k, r, c))
    {
      var (a, b) := RotIndex(k, size, i, j);
      board[a, b] := x;
      forall r, c | 0 <= r < size && 0 <= c < size
        ensures RotIndex(k, size, r, c) == (a, b) ==> (r, c) == (i, j)
      {
        RotIndexInjective(k, size, r, c, i, j);
      }
    }

    /** Column j of the view holds cur. */
    ghost predicate ColumnHolds(k: nat, j: nat, cur: seq<int>)
      reads this`board, board
      requires Dims() && k < 4 && j < size
    {
      |cur| == size && forall r :: 0 <= r < size ==> ViewAt(k, r, j) == cur[r]
    }

    /** One iteration of the inner loop of `_compress`: a tile at row i is
        swapped into the first free row `count`; `shifted` says whether its
        index changed. Other columns keep their cells. */
    method SlideCell(k: nat, j: nat, i: nat, count: nat, ghost col0: seq<int>, ghost cur: seq<int>)
      returns (count': nat, shifted: bool, ghost cur': seq<int>)
      requires Dims() && k < 4 && j < size && i < size
      requires ColumnHolds(k, j, cur) && CompressScan(col0, cur, i, count)
      modifies board
      ensures ColumnHolds(k, j, cur') && CompressScan(col0, cur', i + 1, count')
      ensures forall r, c :: 0 <= r < size && 0 <= c < size && c != j ==> ViewAt(k, r, c) == old(ViewAt(k, r, c))
      ensures shifted <==> col0[i] != 0 && |NonZeros(col0[..i])| != i
    {
      CompressScanStep(col0, cur, i, count);
      count', shifted, cur' := count, false, cur;
      if ViewAt(k, i, j) != 0 {
        SwapInView(k, count, i, j);
        cur' := cur[count := cur[i]][i := cur[count]];
        if count != i {
          shifted := true;
        }
        count' := count + 1;
      }
    }

    /** The inner loop of `_compress` for column j of the view holding col0:
        the column ends as its tiles in order followed by empty cells, and the
        count is the number of tiles whose index changed. */
    method CompressColumn(k: nat, j: nat, ghost col0: seq<int>) returns (moved: nat)
      requires Dims() && k < 4 && j < size && ColumnHolds(k, j, col0)
      modifies board
      ensures ColumnHolds(k, j, CompressLine(col0))
      ensures forall r, c :: 0 <= r < size && 0 <= c < size && c != j ==> ViewAt(k, r, c) == old(ViewAt(k, r, c))
      ensures moved == Moved(col0)
    {
      ghost var cur := col0;
      var count := 0;
      moved := 0;
      for i := 0 to size
        invariant ColumnHolds(k, j, cur)
        invariant forall r, c :: 0 <= r < size && 0 <= c < size && c != j ==> ViewAt(k, r, c) == old(ViewAt(k, r, c))
        invariant CompressScan(col0, cur, i, count)
        invariant moved == Moved(col0[..i])
      {
        var shifted;
        count, shifted, cur := SlideCell(k, j, i, count, col0, cur);
        MovedSnoc(col0[..i], col0[i]);
        assert col0[..i + 1] == col0[..i] + [col0[i]];
        if shifted {
          moved := moved + 1;
        }
      }
      assert col0[..size] == col0;
      CompressScanDone(col0, cur, count);
    }

    /** The column loop of `_compress` over a view holding v0: every column
        slides toward index 0, and the count is the number of tiles that
        changed index. */
    method CompressColumns(k: nat, ghost v0: Board) returns (changed: bool, movedTiles: nat)
      requires Dims() && k < 4 && IsSquare(v0) && |v0| == size
      requires forall i, c :: 0 <= i < size && 0 <= c < size ==> ViewAt(k, i, c) == v0[i][c]
      modifies board
      ensures forall i, c :: 0 <= i < size && 0 <= c < size ==> ViewAt(k, i, c) == CompressLine(Column(v0, c))[i]
      ensures movedTiles == ColumnsMoved(v0, size)
      ensures changed <==> movedTiles > 0
    {
      changed := false;
      movedTiles := 0;
      for j := 0 to size
        invariant forall i, c :: 0 <= i < size && 0 <= c < j ==> ViewAt(k, i, c) == CompressLine(Column(v0, c))[i]
        invariant forall i, c :: 0 <= i < size && j <= c < size ==> ViewAt(k, i, c) == v0[i][c]
        invariant movedTiles == ColumnsMoved(v0, j)
        invariant changed <==> movedTiles > 0
      {
        var m := CompressColumn(k, j, Column(v0, j));
        if m > 0 {
          changed := true;
        }
        movedTiles := movedTiles + m;
      }
    }

    /** `_compress(view)`: every column of the view slides toward index 0;
        `moved_cells` becomes the number of tiles that changed index, and the
        result says whether any did. */
    method Compress(k: nat) returns (changed: bool)
      requires Mirror() && k < 4
      modifies board, this`cells, this`movedCells
      ensures Mirror()
      ensures Rotate(cells, k) == CompressView(Rotate(old(cells), k))
      ensures movedCells == ColumnsMoved(Rotate(old(cells), k), size)
      ensures changed <==> movedCells > 0
    {
      ghost var v0 := Rotate(cells, k);
      ViewFromMirror(k);
      var movedTiles;
      changed, movedTiles := CompressColumns(k, v0);
      movedCells := movedTiles;
      CompressViewAt(v0);
      cells := Rotate(CompressView(v0), Inverse(k));
      MirrorFromView(k, CompressView(v0));
    }

    /** An assignment to row i of column j, seen on the column and the rest. */
    method SetInColumn(k: nat, j: nat, i: nat, x: int, ghost cur: seq<int>)
      requires Dims() && k < 4 && j < size && i < size && ColumnHolds(k, j, cur)
      modifies board
      ensures ColumnHolds(k, j, cur[i := x])
      ensures forall r, c :: 0 <= r < size && 0 <= c < size && c != j ==> ViewAt(k, r, c) == old(ViewAt(k, r, c))
    {
      SetInView(k, i, j, x);
    }

    /** One iteration of the inner loop of `_merge`: an equal pair of tiles
        at rows i and i + 1 becomes the next exponent above an empty cell, and
        `gain` is the new exponent (0 when nothing merges). */
    method MergeCell(k: nat, j: nat, i: nat, ghost cur: seq<int>) returns (gain: int, ghost cur': seq<int>)
      requires Dims() && k < 4 && j < size && i + 1 < size && ColumnHolds(k, j, cur)
      modifies board
      ensures ColumnHolds(k, j, cur')
      ensures forall r, c :: 0 <= r < size && 0 <= c < size && c != j ==> ViewAt(k, r, c) == old(ViewAt(k, r, c))
      ensures cur'[..i + 1] + Merged(cur'[i + 1..]) == cur[..i] + Merged(cur[i..])
      ensures gain + MergeScore(cur'[i + 1..]) == MergeScore(cur[i..])
      ensures if cur[i] == cur[i + 1] && cur[i] != 0
              then cur' == cur[i := cur[i] + 1][i + 1 := 0] && gain == cur[i] + 1
              else cur' == cur && gain == 0
    {
      gain, cur' := 0, cur;
      if ViewAt(k, i, j) == ViewAt(k, i + 1, j) && ViewAt(k, i, j) != 0 {
        MergeScanMerge(cur, i);
        SetInColumn(k, j, i, ViewAt(k, i, j) + 1, cur);
        cur' := cur[i := cur[i] + 1];
        SetInColumn(k, j, i + 1, 0, cur');
        cur' := cur'[i + 1 := 0];
        gain := ViewAt(k, i, j);
      } else {
        MergeScanSkip(cur, i);
      }
    }

    /** The inner loop of `_merge` for column j of the view holding col0: each
        equal pair of tiles met by the scan becomes the next exponent above an
        empty cell, and the reward is the sum of the new exponents. */
    method MergeColumn(k: nat, j: nat, ghost col0: seq<int>) returns (reward: int)
      requires Dims() && k < 4 && j < size && ColumnHolds(k, j, col0)
      modifies board
      ensures ColumnHolds(k, j, Merged(col0))
      ensures forall r, c :: 0 <= r < size && 0 <= c < size && c != j ==> ViewAt(k, r, c) == old(ViewAt(k, r, c))
      ensures reward == MergeScore(col0)
    {
      ghost var cur := col0;
      reward := 0;
      var i := 0;
      while i + 1 < size
        invariant i <= size && (size > 0 ==> i < size)
        invariant ColumnHolds(k, j, cur)
        invariant forall r, c :: 0 <= r < size && 0 <= c < size && c != j ==> ViewAt(k, r, c) == old(ViewAt(k, r, c))
        invariant cur[..i] + Merged(cur[i..]) == Merged(col0)
        invariant reward + MergeScore(cur[i..]) == MergeScore(col0)
        decreases size - i
      {
        var gain;
        gain, cur := MergeCell(k, j, i, cur);
        reward := reward + gain;
        i := i + 1;
      }
      if size > 0 {
        assert cur[..i] + cur[i..] == cur;
      }
    }

    /** The column loop of `_merge` over a view holding v0: one merge pass
        down every column; the result is the sum of the new exponents. */
    method MergeColumns(k: nat, ghost v0: Board) returns (reward: int)
      requires Dims() && k < 4 && IsSquare(v0) && |v0| == size
      requires forall i, c :: 0 <= i < size && 0 <= c < size ==> ViewAt(k, i, c) == v0[i][c]
      modifies board
      ensures forall i, c :: 0 <= i < size && 0 <= c < size ==> ViewAt(k, i, c) == Merged(Column(v0, c))[i]
      ensures reward == ColumnsScore(v0, size)
    {
      reward := 0;
      for j := 0 to size
        invariant forall i, c :: 0 <= i < size && 0 <= c < j ==> ViewAt(k, i, c) == Merged(Column(v0, c))[i]
        invariant forall i, c :: 0 <= i < size && j <= c < size ==> ViewAt(k, i, c) == v0[i][c]
        invariant reward == ColumnsScore(v0, j)
      {
        var s := MergeColumn(k, j, Column(v0, j));
        reward := reward + s;
      }
    }

    /** `_merge(view)`: one merge pass down every column of the view; the
        result is the sum of the exponents the merges produce. */
    method Merge(k: nat) returns (reward: int)
      requires Mirror() && k < 4
      modifies board, this`cells
      ensures Mirror()
      ensures Rotate(cells, k) == MergeView(Rotate(old(cells), k))
      ensures reward == ColumnsScore(Rotate(old(cells), k), size)
    {
      ghost var v0 := Rotate(cells, k);
      ViewFromMirror(k);
      reward := MergeColumns(k, v0);
      MergeViewAt(v0);
      cells := Rotate(MergeView(v0), Inverse(k));
      MirrorFromView(k, MergeView(v0));
    }

    /** `_add_random_tile` with its draws passed in. */
    method AddRandomTile(pick: nat, u: real)
      requires Mirror() && PickFits(cells, pick)
      modifies board, this`cells
      ensures Mirror() && cells == AddTile(old(cells), pick, u)
    {
      var g := CopyBoard();
      var empty := EmptyCells(g);
      EmptyCellsValid(g);
      if |empty| > 0 {
        var (a, b) := empty[pick];
        board[a, b] := TileValue(u);
        cells := cells[a := cells[a][b := TileValue(u)]];
      }
    }

    /** `_calculate_state_value` of the heuristic subclass: the weighted sum of
        the empty cells, the merge potential of rows and columns, the
        monotonicity term and the tile sum, less the shift penalty, after
        `moved_cells` is zeroed on a mostly empty board. The value is also that
        of the new `moved_cells`, so a second call on the same board returns
        the same value. */
    method CalculateStateValue() returns (value: real)
      requires Mirror() && weights.Some?
      modifies this`movedCells
      ensures movedCells == ShiftAfterReset(size * size, EmptyCount(cells), old(movedCells))
      ensures value == BoardValue(weights.value, cells, old(movedCells))
      ensures value == BoardValue(weights.value, cells, movedCells)
    {
      var w := weights.value;
      var g := CopyBoard();
      var tileSum := TileSum(g, w.sumExp);
      var empty := size * size - TileCount(g);
      if MostlyEmpty(size * size, empty) {
        movedCells := 0;
      }
      var merges := BoardMerges(g);
      var monotonicity := BoardMonotonicity(g);
      assert empty == EmptyCount(g);
      assert movedCells == ShiftAfterReset(|g| * |g|, EmptyCount(g), old(movedCells));
      value := StateValue(w, empty, merges, monotonicity, tileSum, movedCells);
    }

    /** `_get_reward`: the last merge reward, plus the state value in the
        heuristic subclass. */
    method GetReward() returns (reward: real)
      requires Mirror()
      modifies this`movedCells
      ensures weights.None? ==> reward == lastActionScore as real && movedCells == old(movedCells)
      ensures weights.Some? ==>
        reward == lastActionScore as real + BoardValue(weights.value, cells, old(movedCells)) &&
        movedCells == ShiftAfterReset(size * size, EmptyCount(cells), old(movedCells))
    {
      if weights.Some? {
        var value := CalculateStateValue();
        reward := lastActionScore as real + value;
      } else {
        reward := lastActionScore as real;
      }
    }

    /** `_is_done` on the current board. */
    method IsDoneNow() returns (done: bool)
      requires Mirror()
      ensures done == IsDone(cells)
    {
      var g := CopyBoard();
      done := IsDone(g);
    }

    /** The accepted branch of `step`: a tile spawns, the invalid counter
        steps down to no lower than 0, the action and its merge reward are
        recorded and added to the score, and the reward and whether the new
        board is terminal are reported. */
    method AcceptMove(ghost g0: Board, action: nat, actionScore: int, pick: nat, u: real)
      returns (reward: real, done: bool, info: int)
      requires IsSquare(g0) && NonNegativeBoard(g0) && action < 4 && Accepted(Move(g0, action))
      requires Mirror() && cells == Move(g0, action).board && PickFits(cells, pick)
      modifies board, this`cells, this`invalidCount, this`lastAction, this`lastActionScore, this`score, this`movedCells
      ensures Mirror() && cells == AddTile(old(cells), pick, u) && NonNegativeBoard(cells)
      ensures TileCount(cells) == TileCount(old(cells)) + 1
      ensures TileCount(cells) == TileCount(g0) - MoveMerges(g0, action) + 1
      ensures invalidCount == if old(invalidCount) > 0 then old(invalidCount) - 1 else 0
      ensures lastAction == Some(action) && lastActionScore == actionScore
      ensures score == old(score) + actionScore && info == score
      ensures weights.None? ==> reward == actionScore as real && movedCells == old(movedCells)
      ensures weights.Some? ==>
        reward == actionScore as real + BoardValue(weights.value, cells, old(movedCells)) &&
        movedCells == ShiftAfterReset(size * size, EmptyCount(cells), old(movedCells))
      ensures done == IsDone(cells)
    {
      AcceptedStepTileCount(g0, action, pick, u);
      AddRandomTile(pick, u);
      invalidCount := if 0 > invalidCount - 1 then 0 else invalidCount - 1;
      lastAction, lastActionScore, score := Some(action), actionScore, score + actionScore;
      reward := GetReward();
      done := IsDoneNow();
      info := score;
    }

    /** The bookkeeping of `step` for a rejected move: the invalid counter
        grows, the reward is the penalty, and the episode ends once the
        invalid share passes the threshold after the warm-up. */
    method RejectMove() returns (reward: real, done: bool, info: int)
      modifies this`invalidCount
      ensures invalidCount == old(invalidCount) + 1
      ensures reward == invalidMovePenalty as real && info == score
      ensures done == InvalidMoveDone(invalidCount, totalCount, invalidMoveWarmup, invalidMoveThreshold)
    {
      invalidCount := invalidCount + 1;
      done := InvalidMoveDone(invalidCount, totalCount, invalidMoveWarmup, invalidMoveThreshold);
      reward := invalidMovePenalty as real;
      info := score;
    }

    /** The board work of `step`: the view is slid and merged, and slid again
        when the move is accepted, so the board ends as the move's outcome and
        `moved_cells` as its second slide's count; a rejected move leaves the
        board as it was and `moved_cells` at 0. */
    method ApplyMove(action: nat) returns (accepted: bool, actionScore: int)
      requires Mirror() && NonNegativeBoard(cells) && action < 4
      modifies board, this`cells, this`movedCells
      ensures Mirror()
      ensures accepted == Accepted(Move(old(cells), action))
      ensures actionScore == Move(old(cells), action).score >= 0
      ensures accepted ==> cells == Move(old(cells), action).board && movedCells == Move(old(cells), action).moved
      ensures !accepted ==> cells == old(cells) && movedCells == 0
    {
      ghost var g0 := cells;
      var changed := Compress(action);
      actionScore := Merge(action);
      MoveScoreNonNegative(g0, action);
      accepted := changed || actionScore > 0;
      if accepted {
        var _ := Compress(action);
        MoveFromView(g0, cells, action);
      } else {
        RejectFromView(g0, cells, action);
      }
    }

    /** The part of `step` after the move counter and `prev_board`: the move
        through the view, then either the spawn and its reward or the
        invalid-move penalty. */
    method Play(action: nat, pick: nat, u: real) returns (reward: real, done: bool, info: int)
      requires Mirror() && NonNegativeBoard(cells) && action < 4
      requires Accepted(Move(cells, action)) ==> PickFits(Move(cells, action).board, pick)
      modifies board, this`cells, this`movedCells, this`invalidCount
      modifies this`lastAction, this`lastActionScore, this`score
      ensures Mirror() && NonNegativeBoard(cells)
      ensures info == score && score >= old(score)
      ensures var o := Move(old(cells), action);
        !Accepted(o) ==>
          cells == old(cells) && score == old(score) &&
          lastAction == old(lastAction) && lastActionScore == old(lastActionScore) &&
          invalidCount == old(invalidCount) + 1 && movedCells == 0 &&
          reward == invalidMovePenalty as real &&
          done == InvalidMoveDone(invalidCount, totalCount, invalidMoveWarmup, invalidMoveThreshold)
      ensures var o := Move(old(cells), action);
        Accepted(o) ==>
          cells == AddTile(o.board, pick, u) && TileCount(cells) == TileCount(o.board) + 1 &&
          TileCount(cells) == TileCount(old(cells)) - MoveMerges(old(cells), action) + 1 &&
          invalidCount == (if old(invalidCount) > 0 then old(invalidCount) - 1 else 0) &&
          lastAction == Some(action) && lastActionScore == o.score && score == old(score) + o.score &&
          movedCells == (if weights.None? then o.moved else ShiftAfterReset(size * size, EmptyCount(cells), o.moved)) &&
          reward == (if weights.None? then o.score as real
                     else o.score as real + BoardValue(weights.value, cells, o.moved)) &&
          done == IsDone(cells)
    {
      ghost var o := Move(cells, action);
      var accepted, actionScore := ApplyMove(action);
      if accepted {
        assert cells == o.board;
        reward, done, info := AcceptMove(old(cells), action, actionScore, pick, u);
      } else {
        reward, done, info := RejectMove();
      }
    }

    /** `step(action)` with the spawn draws passed in; `info` is the score
        reported in the info dictionary. */
    method Step(action: nat, pick: nat, u: real) returns (reward: real, done: bool, info: int)
      requires Valid() && action < 4
      requires Accepted(Move(cells, action)) ==> PickFits(Move(cells, action).board, pick)
      modifies board, this`cells, this`totalCount, this`prevBoard, this`movedCells, this`invalidCount
      modifies this`lastAction, this`lastActionScore, this`score
      ensures Valid() && board == old(board)
      ensures totalCount == old(totalCount) + 1 && prevBoard == old(cells)
      ensures info == score && score >= old(score)
      ensures var o := Move(old(cells), action);
        !Accepted(o) ==>
          cells == old(cells) && score == old(score) &&
          lastAction == old(lastAction) && lastActionScore == old(lastActionScore) &&
          invalidCount == old(invalidCount) + 1 && movedCells == 0 &&
          reward == invalidMovePenalty as real &&
          done == InvalidMoveDone(invalidCount, totalCount, invalidMoveWarmup, invalidMoveThreshold)
      ensures var o := Move(old(cells), action);
        Accepted(o) ==>
          cells == AddTile(o.board, pick, u) && TileCount(cells) == TileCount(o.board) + 1 &&
          TileCount(cells) == TileCount(old(cells)) - MoveMerges(old(cells), action) + 1 &&
          invalidCount == (if old(invalidCount) > 0 then old(invalidCount) - 1 else 0) &&
          lastAction == Some(action) && lastActionScore == o.score && score == old(score) + o.score &&
          movedCells == (if weights.None? then o.moved else ShiftAfterReset(size * size, EmptyCount(cells), o.moved)) &&
          reward == (if weights.None? then o.score as real
                     else o.score as real + BoardValue(weights.value, cells, o.moved)) &&
          done == IsDone(cells)
      ensures lastStateValue == old(lastStateValue)
    {
      var copy := CopyBoard();
      totalCount, prevBoard := totalCount + 1, copy;
      reward, done, info := Play(action, pick, u);
    }

    /** `np.zeros((size, size))`: a fresh board without tiles. */
    method ClearBoard()
      modifies this`board, this`cells
      ensures Mirror() && fresh(board)
      ensures cells == EmptyBoard(size)
    {
      board := new int[size, size]((_, _) => 0);
      cells := EmptyBoard(size);
    }

    /** The board of `reset`: a fresh empty board, then the two spawns. */
    method SpawnStart(pick1: nat, u1: real, pick2: nat, u2: real)
      requires size * size == 0 || pick1 < size * size
      requires size * size < 2 || pick2 < size * size - 1
      modifies this`board, this`cells
      ensures Mirror() && fresh(board)
      ensures PickFits(AddTile(EmptyBoard(size), pick1, u1), pick2)
      ensures cells == AddTile(AddTile(EmptyBoard(size), pick1, u1), pick2, u2)
      ensures NonNegativeBoard(cells)
      ensures TileCount(cells) == if size * size >= 2 then 2 else size * size
    {
      ClearBoard();
      var g1, g2 := ResetSpawns(size, pick1, u1, pick2, u2);
      AddRandomTile(pick1, u1);
      AddRandomTile(pick2, u2);
      AddTileNonNegative(EmptyBoard(size), pick1, u1);
      AddTileNonNegative(g1, pick2, u2);
    }

    /** `reset` with the draws of its two spawns passed in; the heuristic
        subclass then stores the state value of the new board. */
    method Reset(pick1: nat, u1: real, pick2: nat, u2: real)
      requires size * size == 0 || pick1 < size * size
      requires size * size < 2 || pick2 < size * size - 1
      modifies this
      ensures Valid() && fresh(board)
      ensures score == 0 && lastAction == None && lastActionScore == 0
      ensures invalidCount == 0 && totalCount == 0
      ensures prevBoard == EmptyBoard(size)
      ensures PickFits(AddTile(EmptyBoard(size), pick1, u1), pick2)
      ensures cells == AddTile(AddTile(EmptyBoard(size), pick1, u1), pick2, u2)
      ensures TileCount(cells) == if size * size >= 2 then 2 else size * size
      ensures weights.None? ==> movedCells == old(movedCells) && lastStateValue == old(lastStateValue)
      ensures weights.Some? ==>
        movedCells == ShiftAfterReset(size * size, EmptyCount(cells), old(movedCells)) &&
        lastStateValue == BoardValue(weights.value, cells, old(movedCells))
    {
      score, lastAction, lastActionScore := 0, None, 0;
      invalidCount, totalCount := 0, 0;
      prevBoard := EmptyBoard(size);
      SpawnStart(pick1, u1, pick2, u2);
      if weights.Some? {
        lastStateValue := CalculateStateValue();
      }
    }

    /** `Text2048Env(size, invalid_move_penalty, invalid_move_warmup,
        invalid_move_threshold)` with the source's defaults, whose
        construction ends with `reset`; the draws of its two spawns come
        first. */
    constructor (pick1: nat, u1: real, pick2: nat, u2: real,
                 size: nat := 4, invalidMovePenalty: int := -512, invalidMoveWarmup: int := 16,
                 invalidMoveThreshold: real := 0.1)
      requires size * size == 0 || pick1 < size * size
      requires size * size < 2 || pick2 < size * size - 1
      ensures this.size == size && this.invalidMovePenalty == invalidMovePenalty
      ensures this.invalidMoveWarmup == invalidMoveWarmup && this.invalidMoveThreshold == invalidMoveThreshold
      ensures weights == None
      ensures Valid() && fresh(board)
      ensures movedCells == 0 && score == 0 && lastAction == None && lastActionScore == 0
      ensures invalidCount == 0 && totalCount == 0
      ensures PickFits(AddTile(EmptyBoard(size), pick1, u1), pick2)
      ensures cells == AddTile(AddTile(EmptyBoard(size), pick1, u1), pick2, u2)
    {
      this.size := size;
      this.invalidMovePenalty := invalidMovePenalty;
      this.invalidMoveWarmup := invalidMoveWarmup;
      this.invalidMoveThreshold := invalidMoveThreshold;
      weights := None;
      board := new int[size, size]((_, _) => 0);
      cells := EmptyBoard(size);
      prevBoard := EmptyBoard(size);
      movedCells := 0;
      score, lastAction, lastActionScore := 0, None, 0;
      invalidCount, totalCount := 0, 0;
      lastStateValue := 0.0;
      new;
      Reset(pick1, u1, pick2, u2);
    }

    /** `Text2048WithHeuristicEnv(size, ...weights)` with the source's
        defaults: the base construction with the default penalty, warm-up and
        threshold, whose `reset` is the heuristic one. */
    constructor WithHeuristic(pick1: nat, u1: real, pick2: nat, u2: real,
                              size: nat := 4, w: Weights := DefaultWeights)
      requires size * size == 0 || pick1 < size * size
      requires size * size < 2 || pick2 < size * size - 1
      ensures this.size == size && weights == Some(w)
      ensures invalidMovePenalty == -512 && invalidMoveWarmup == 16 && invalidMoveThreshold == 0.1
      ensures Valid() && fresh(board)
      ensures score == 0 && lastAction == None && lastActionScore == 0
      ensures invalidCount == 0 && totalCount == 0
      ensures PickFits(AddTile(EmptyBoard(size), pick1, u1), pick2)
      ensures cells == AddTile(AddTile(EmptyBoard(size), pick1, u1), pick2, u2)
      ensures movedCells == ShiftAfterReset(size * size, EmptyCount(cells), 0)
      ensures lastStateValue == BoardValue(w, cells, 0)
    {
      this.size := size;
      invalidMovePenalty := -512;
      invalidMoveWarmup := 16;
      invalidMoveThreshold := 0.1;
      weights := Some(w);
      board := new int[size, size]((_, _) => 0);
      cells := EmptyBoard(size);
      prevBoard := EmptyBoard(size);
      movedCells := 0;
      score, lastAction, lastActionScore := 0, None, 0;
      invalidCount, totalCount := 0, 0;
      lastStateValue := 0.0;
      new;
      Reset(pick1, u1, pick2, u2);
    }
  }
}
