/** The whole board as a value: the rotated view `np.rot90(board, k)` through
    which a move works, the outcome of a move in direction k, and the terminal
    predicate `_is_done`. */
module Grid {
  import opened Line

  /** Rows of tile exponents; a well-formed board is square. */
  type Board = seq<seq<int>>

  const UP: nat := 0
  const RIGHT: nat := 1
  const DOWN: nat := 2
  const LEFT: nat := 3

  predicate IsSquare(g: Board)
  {
    forall i :: 0 <= i < |g| ==> |g[i]| == |g|
  }

  predicate NonNegativeBoard(g: Board)
    requires IsSquare(g)
  {
    forall i, j :: 0 <= i < |g| && 0 <= j < |g| ==> g[i][j] >= 0
  }

  /** Board coordinates of cell (i, j) of `np.rot90(board, k)`, which turns an
      n-by-n board k quarter-turns counter-clockwise. */
  function RotIndex(k: nat, n: nat, i: nat, j: nat): (r: (nat, nat))
    requires k < 4 && i < n && j < n
    ensures r.0 < n && r.1 < n
  {
    if k == 0 then (i, j)
    else if k == 1 then (j, n - 1 - i)
    else if k == 2 then (n - 1 - i, n - 1 - j)
    else (n - 1 - j, i)
  }

  /** The number of quarter-turns that undoes k of them. */
  function Inverse(k: nat): (r: nat)
    requires k < 4
    ensures r < 4 && (k + r) % 4 == 0
  {
    (4 - k) % 4
  }

  /** The rotated view, as a value. */
  function Rotate(g: Board, k: nat): (r: Board)
    requires IsSquare(g) && k < 4
    ensures |r| == |g| && IsSquare(r)
  {
    RotateRows(g, k, |g|)
  }

  /** Rows 0..m-1 of the rotated view. */
  function RotateRows(g: Board, k: nat, m: nat): (r: Board)
    requires IsSquare(g) && k < 4 && m <= |g|
    ensures |r| == m && forall i :: 0 <= i < m ==> |r[i]| == |g|
    decreases m
  {
    if m == 0 then [] else RotateRows(g, k, m - 1) + [RotateRow(g, k, m - 1)]
  }

  /** Row i of the rotated view. */
  function RotateRow(g: Board, k: nat, i: nat): (r: seq<int>)
    requires IsSquare(g) && k < 4 && i < |g|
    ensures |r| == |g|
  {
    var n := |g|;
    seq(n, j requires 0 <= j < n => g[RotIndex(k, n, i, j).0][RotIndex(k, n, i, j).1])
  }

  lemma RotateRowsAt(g: Board, k: nat, m: nat, i: nat)
    requires IsSquare(g) && k < 4 && i < m <= |g|
    ensures RotateRows(g, k, m)[i] == RotateRow(g, k, i)
    decreases m
  {
    if i < m - 1 {
      RotateRowsAt(g, k, m - 1, i);
    }
  }

  /** Cell (i, j) of the view is the board cell RotIndex names. */
  lemma RotateAt(g: Board, k: nat, i: nat, j: nat)
    requires IsSquare(g) && k < 4 && i < |g| && j < |g|
    ensures Rotate(g, k)[i][j] == g[RotIndex(k, |g|, i, j).0][RotIndex(k, |g|, i, j).1]
  {
    RotateRowsAt(g, k, |g|, i);
  }

  lemma RotateCells(g: Board, k: nat)
    requires IsSquare(g) && k < 4
    ensures forall i, j :: 0 <= i < |g| && 0 <= j < |g| ==>
      Rotate(g, k)[i][j] == g[RotIndex(k, |g|, i, j).0][RotIndex(k, |g|, i, j).1]
  {
    forall i, j | 0 <= i < |g| && 0 <= j < |g| {
      RotateAt(g, k, i, j);
    }
  }

  /** Turning back by the inverse number of quarter-turns lands on the cell one
      started from. */
  lemma RotIndexInverse(k: nat, n: nat, i: nat, j: nat)
    requires k < 4 && i < n && j < n
    ensures var (a, b) := RotIndex(Inverse(k), n, i, j); RotIndex(k, n, a, b) == (i, j)
    ensures var (a, b) := RotIndex(k, n, i, j); RotIndex(Inverse(k), n, a, b) == (i, j)
  {
  }

  /** Rotation is lossless: rotating by k and then by the inverse turn restores
      the board exactly. */
  lemma RotateRoundTrip(g: Board, k: nat)
    requires IsSquare(g) && k < 4
    ensures Rotate(Rotate(g, k), Inverse(k)) == g
  {
    var n := |g|;
    var r := Rotate(Rotate(g, k), Inverse(k));
    forall i | 0 <= i < n ensures r[i] == g[i] {
      forall j | 0 <= j < n ensures r[i][j] == g[i][j] {
        RotIndexInverse(k, n, i, j);
        var (a, b) := RotIndex(Inverse(k), n, i, j);
        RotateAt(Rotate(g, k), Inverse(k), i, j);
        RotateAt(g, k, a, b);
      }
    }
  }

  /** Column j of a board. */
  function Column(g: Board, j: nat): (c: seq<int>)
    requires IsSquare(g) && j < |g|
    ensures |c| == |g|
  {
    seq(|g|, i requires 0 <= i < |g| => g[i][j])
  }

  /** The view after `_compress`: every column slid on its own. */
  function CompressView(v: Board): (r: Board)
    requires IsSquare(v)
    ensures |r| == |v| && IsSquare(r)
  {
    CompressRows(v, |v|)
  }

  /** Rows 0..m-1 of the slid view. */
  function CompressRows(v: Board, m: nat): (r: Board)
    requires IsSquare(v) && m <= |v|
    ensures |r| == m && forall i :: 0 <= i < m ==> |r[i]| == |v|
    decreases m
  {
    if m == 0 then [] else CompressRows(v, m - 1) + [CompressRow(v, m - 1)]
  }

  /** Row i of the slid view. */
  function CompressRow(v: Board, i: nat): (r: seq<int>)
    requires IsSquare(v) && i < |v|
    ensures |r| == |v|
  {
    seq(|v|, j requires 0 <= j < |v| => CompressLine(Column(v, j))[i])
  }

  lemma CompressRowsAt(v: Board, m: nat, i: nat)
    requires IsSquare(v) && i < m <= |v|
    ensures CompressRows(v, m)[i] == CompressRow(v, i)
    decreases m
  {
    if i < m - 1 {
      CompressRowsAt(v, m - 1, i);
    }
  }

  /** Cell (i, j) of the slid view is cell i of slid column j. */
  lemma CompressViewAt(v: Board)
    requires IsSquare(v)
    ensures forall i, j :: 0 <= i < |v| && 0 <= j < |v| ==> CompressView(v)[i][j] == CompressLine(Column(v, j))[i]
  {
    forall i | 0 <= i < |v| {
      CompressRowsAt(v, |v|, i);
    }
  }

  /** The view after `_merge`: every column merged on its own. */
  function MergeView(v: Board): (r: Board)
    requires IsSquare(v)
    ensures |r| == |v| && IsSquare(r)
  {
    MergeRows(v, |v|)
  }

  /** Rows 0..m-1 of the merged view. */
  function MergeRows(v: Board, m: nat): (r: Board)
    requires IsSquare(v) && m <= |v|
    ensures |r| == m && forall i :: 0 <= i < m ==> |r[i]| == |v|
    decreases m
  {
    if m == 0 then [] else MergeRows(v, m - 1) + [MergeRow(v, m - 1)]
  }

  /** Row i of the merged view. */
  function MergeRow(v: Board, i: nat): (r: seq<int>)
    requires IsSquare(v) && i < |v|
    ensures |r| == |v|
  {
    seq(|v|, j requires 0 <= j < |v| => Merged(Column(v, j))[i])
  }

  lemma MergeRowsAt(v: Board, m: nat, i: nat)
    requires IsSquare(v) && i < m <= |v|
    ensures MergeRows(v, m)[i] == MergeRow(v, i)
    decreases m
  {
    if i < m - 1 {
      MergeRowsAt(v, m - 1, i);
    }
  }

  /** Cell (i, j) of the merged view is cell i of merged column j. */
  lemma MergeViewAt(v: Board)
    requires IsSquare(v)
    ensures forall i, j :: 0 <= i < |v| && 0 <= j < |v| ==> MergeView(v)[i][j] == Merged(Column(v, j))[i]
  {
    forall i | 0 <= i < |v| {
      MergeRowsAt(v, |v|, i);
    }
  }

  lemma ColumnOfCompressView(v: Board, j: nat)
    requires IsSquare(v) && j < |v|
    ensures Column(CompressView(v), j) == CompressLine(Column(v, j))
  {
    CompressViewAt(v);
  }

  lemma ColumnOfMergeView(v: Board, j: nat)
    requires IsSquare(v) && j < |v|
    ensures Column(MergeView(v), j) == Merged(Column(v, j))
  {
    MergeViewAt(v);
  }

  /** Tiles moved by the slide in columns 0..m-1. */
  function ColumnsMoved(v: Board, m: nat): nat
    requires IsSquare(v) && m <= |v|
  {
    if m == 0 then 0 else ColumnsMoved(v, m - 1) + Moved(Column(v, m - 1))
  }

  /** Merge reward of columns 0..m-1. */
  function ColumnsScore(v: Board, m: nat): int
    requires IsSquare(v) && m <= |v|
  {
    if m == 0 then 0 else ColumnsScore(v, m - 1) + MergeScore(Column(v, m - 1))
  }

  /** What one move reports, as `step` sees it: the board after the full
      compress-merge-compress, whether the first slide moved a tile, the merge
      reward, and the tile count of the second slide. */
  datatype Outcome = Outcome(board: Board, changed: bool, score: int, moved: nat)

  function Move(g: Board, k: nat): (o: Outcome)
    requires IsSquare(g) && k < 4
    ensures IsSquare(o.board) && |o.board| == |g|
  {
    var v := Rotate(g, k);
    var c := CompressView(v);
    var m := MergeView(c);
    Outcome(Rotate(CompressView(m), Inverse(k)), ColumnsMoved(v, |g|) > 0,
            ColumnsScore(c, |g|), ColumnsMoved(m, |g|))
  }

  /** `step` accepts a move iff the first slide changed something or a merge
      scored. */
  predicate Accepted(o: Outcome)
  {
    o.changed || o.score > 0
  }

  // ---------------------------------------------------------------------------
  // Facts about the view

  lemma ViewNonNegative(g: Board, k: nat)
    requires IsSquare(g) && NonNegativeBoard(g) && k < 4
    ensures NonNegativeBoard(Rotate(g, k))
    ensures forall j :: 0 <= j < |g| ==> NonNegative(Column(Rotate(g, k), j))
  {
    var n := |g|;
    forall i, j | 0 <= i < n && 0 <= j < n ensures Rotate(g, k)[i][j] >= 0 {
      RotateAt(g, k, i, j);
    }
  }

  lemma CompressViewNonNegative(v: Board)
    requires IsSquare(v) && NonNegativeBoard(v)
    ensures NonNegativeBoard(CompressView(v))
  {
    var n := |v|;
    forall i, j | 0 <= i < n && 0 <= j < n ensures CompressView(v)[i][j] >= 0 {
      var col := Column(v, j);
      CompressLineShape(col);
      CompressViewAt(v);
      assert CompressLine(col)[i] in multiset(col);
    }
  }

  lemma MergeViewNonNegative(v: Board)
    requires IsSquare(v) && NonNegativeBoard(v)
    ensures NonNegativeBoard(MergeView(v))
  {
    var n := |v|;
    forall i, j | 0 <= i < n && 0 <= j < n ensures MergeView(v)[i][j] >= 0 {
      var col := Column(v, j);
      assert NonNegative(col);
      MergePreservesWeight(col);
      MergeViewAt(v);
    }
  }

  lemma {:induction false} ColumnsMovedZero(v: Board, m: nat)
    requires IsSquare(v) && m <= |v|
    ensures ColumnsMoved(v, m) == 0 <==> forall j :: 0 <= j < m ==> Moved(Column(v, j)) == 0
  {
    if m > 0 { ColumnsMovedZero(v, m - 1); }
  }

  lemma {:induction false} ColumnsScoreBounds(v: Board, m: nat)
    requires IsSquare(v) && NonNegativeBoard(v) && m <= |v|
    ensures forall j :: 0 <= j < m ==> 0 <= MergeScore(Column(v, j)) <= ColumnsScore(v, m)
    ensures ColumnsScore(v, m) == 0 <==> forall j :: 0 <= j < m ==> MergeScore(Column(v, j)) == 0
  {
    if m > 0 {
      ColumnsScoreBounds(v, m - 1);
      assert NonNegative(Column(v, m - 1));
      ScorePositiveIff(Column(v, m - 1));
    }
  }

  /** A board all of whose view columns are already slid is its own slide. */
  lemma CompressViewFixed(v: Board)
    requires IsSquare(v) && forall j :: 0 <= j < |v| ==> IsCompressed(Column(v, j))
    ensures CompressView(v) == v
  {
    var n := |v|;
    forall i | 0 <= i < n ensures CompressView(v)[i] == v[i] {
      forall j | 0 <= j < n ensures CompressView(v)[i][j] == v[i][j] {
        CompressViewAt(v);
        CompressedFixed(Column(v, j));
      }
    }
  }

  lemma MergeViewFixed(v: Board)
    requires IsSquare(v) && forall j :: 0 <= j < |v| ==> MergeCount(Column(v, j)) == 0
    ensures MergeView(v) == v
  {
    var n := |v|;
    forall i | 0 <= i < n ensures MergeView(v)[i] == v[i] {
      forall j | 0 <= j < n ensures MergeView(v)[i][j] == v[i][j] {
        MergeViewAt(v);
        NoMergeFixed(Column(v, j));
      }
    }
  }

  /** A rejected move leaves the board as it was, and its second slide moves
      nothing. */
  lemma RejectedMoveUnchanged(g: Board, k: nat)
    requires IsSquare(g) && NonNegativeBoard(g) && k < 4
    requires !Accepted(Move(g, k))
    ensures CompressView(Rotate(g, k)) == Rotate(g, k)
    ensures MergeView(Rotate(g, k)) == Rotate(g, k)
    ensures Move(g, k).board == g && Move(g, k).moved == 0
  {
    var n := |g|;
    var v := Rotate(g, k);
    ViewNonNegative(g, k);
    ColumnsMovedZero(v, n);
    forall j | 0 <= j < n ensures IsCompressed(Column(v, j)) {
      MovedZeroIff(Column(v, j));
    }
    CompressViewFixed(v);
    ColumnsScoreBounds(v, n);
    forall j | 0 <= j < n ensures MergeCount(Column(v, j)) == 0 {
      ScorePositiveIff(Column(v, j));
    }
    MergeViewFixed(v);
    forall j | 0 <= j < n ensures Moved(Column(v, j)) == 0 {
      CompressIdempotent(Column(v, j));
      CompressedFixed(Column(v, j));
    }
    ColumnsMovedZero(v, n);
    RotateRoundTrip(g, k);
  }

  lemma {:induction false} SomeColumnMoved(v: Board, m: nat) returns (j: nat)
    requires IsSquare(v) && m <= |v| && ColumnsMoved(v, m) > 0
    ensures j < m && Moved(Column(v, j)) > 0
  {
    if Moved(Column(v, m - 1)) > 0 {
      j := m - 1;
    } else {
      j := SomeColumnMoved(v, m - 1);
    }
  }

  lemma {:induction false} SomeColumnScored(v: Board, m: nat) returns (j: nat)
    requires IsSquare(v) && m <= |v| && ColumnsScore(v, m) > 0
    ensures j < m && MergeScore(Column(v, j)) > 0
  {
    if MergeScore(Column(v, m - 1)) > 0 {
      j := m - 1;
    } else {
      j := SomeColumnScored(v, m - 1);
    }
  }

  /** Column j of the view after compress, merge, compress. */
  lemma ColumnPipeline(v: Board, j: nat)
    requires IsSquare(v) && j < |v|
    ensures Column(CompressView(MergeView(CompressView(v))), j)
         == CompressLine(Merged(CompressLine(Column(v, j))))
  {
    var c := CompressView(v);
    ColumnOfCompressView(v, j);
    ColumnOfMergeView(c, j);
    ColumnOfCompressView(MergeView(c), j);
  }

  /** The view column that an accepted move changes ends in an empty cell. */
  lemma AcceptedViewColumn(g: Board, k: nat) returns (j: nat)
    requires IsSquare(g) && NonNegativeBoard(g) && k < 4
    requires Accepted(Move(g, k))
    ensures j < |g|
    ensures CompressView(MergeView(CompressView(Rotate(g, k))))[|g| - 1][j] == 0
  {
    var n := |g|;
    var v := Rotate(g, k);
    var c := CompressView(v);
    ViewNonNegative(g, k);
    if ColumnsMoved(v, n) > 0 {
      j := SomeColumnMoved(v, n);
    } else {
      j := SomeColumnScored(c, n);
      ColumnOfCompressView(v, j);
    }
    AcceptedLineLeavesEmpty(Column(v, j));
    ColumnPipeline(v, j);
    var c2 := CompressView(MergeView(c));
    assert Column(c2, j)[n - 1] == c2[n - 1][j];
  }

  /** After an accepted move the board has an empty cell, so the spawn that
      follows always places a tile. */
  lemma AcceptedMoveLeavesEmpty(g: Board, k: nat) returns (a: nat, b: nat)
    requires IsSquare(g) && NonNegativeBoard(g) && k < 4
    requires Accepted(Move(g, k))
    ensures a < |g| && b < |g| && Move(g, k).board[a][b] == 0
  {
    var n := |g|;
    var j := AcceptedViewColumn(g, k);
    var c2 := CompressView(MergeView(CompressView(Rotate(g, k))));
    assert Move(g, k).board == Rotate(c2, Inverse(k));
    a, b := RotIndex(k, n, n - 1, j).0, RotIndex(k, n, n - 1, j).1;
    RotIndexInverse(k, n, n - 1, j);
    RotateAt(c2, Inverse(k), a, b);
  }

  /** A move keeps every exponent non-negative. */
  lemma MoveNonNegative(g: Board, k: nat)
    requires IsSquare(g) && NonNegativeBoard(g) && k < 4
    ensures NonNegativeBoard(Move(g, k).board)
  {
    var v := Rotate(g, k);
    ViewNonNegative(g, k);
    CompressViewNonNegative(v);
    MergeViewNonNegative(CompressView(v));
    CompressViewNonNegative(MergeView(CompressView(v)));
    ViewNonNegative(CompressView(MergeView(CompressView(v))), Inverse(k));
  }

  /** A board whose k-turned view is the view after compress, merge,
      compress is the board the move produces. */
  lemma MoveFromView(g: Board, h: Board, k: nat)
    requires IsSquare(g) && IsSquare(h) && |h| == |g| && k < 4
    requires Rotate(h, k) == CompressView(MergeView(CompressView(Rotate(g, k))))
    ensures h == Move(g, k).board
  {
    RotateRoundTrip(h, k);
  }

  /** After a rejected move's compress and merge the board is unchanged. */
  lemma RejectFromView(g: Board, h: Board, k: nat)
    requires IsSquare(g) && NonNegativeBoard(g) && IsSquare(h) && |h| == |g| && k < 4
    requires !Accepted(Move(g, k))
    requires Rotate(h, k) == MergeView(CompressView(Rotate(g, k)))
    ensures h == g
  {
    RejectedMoveUnchanged(g, k);
    RotateRoundTrip(h, k);
    RotateRoundTrip(g, k);
  }

  /** The merge reward of a move on a non-negative board is non-negative. */
  lemma MoveScoreNonNegative(g: Board, k: nat)
    requires IsSquare(g) && NonNegativeBoard(g) && k < 4
    ensures Move(g, k).score >= 0
  {
    var v := Rotate(g, k);
    ViewNonNegative(g, k);
    CompressViewNonNegative(v);
    ColumnsScoreBounds(CompressView(v), |g|);
  }

  /** A second slide right after a first changes nothing and moves no tile. */
  lemma CompressViewIdempotent(v: Board)
    requires IsSquare(v)
    ensures CompressView(CompressView(v)) == CompressView(v)
    ensures ColumnsMoved(CompressView(v), |v|) == 0
  {
    var c := CompressView(v);
    forall j | 0 <= j < |v| ensures IsCompressed(Column(c, j)) && Moved(Column(c, j)) == 0 {
      ColumnOfCompressView(v, j);
      CompressIdempotent(Column(v, j));
      MovedZeroIff(Column(c, j));
    }
    CompressViewFixed(c);
    ColumnsMovedZero(c, |v|);
  }

  /** Distinct cells of a view lie on distinct board cells. */
  lemma RotIndexInjective(k: nat, n: nat, i: nat, j: nat, r: nat, c: nat)
    requires k < 4 && i < n && j < n && r < n && c < n
    ensures RotIndex(k, n, i, j) == RotIndex(k, n, r, c) ==> i == r && j == c
  {
    RotIndexInverse(k, n, i, j);
    RotIndexInverse(k, n, r, c);
  }

  // ---------------------------------------------------------------------------
  // The terminal predicate

  /** Cell (i, j) holds the same value as one of its in-bounds orthogonal
      neighbours (`can_merge`). */
  predicate CanMerge(g: Board, i: nat, j: nat)
    requires IsSquare(g) && i < |g| && j < |g|
  {
    var n := |g|;
    (i > 0 && g[i][j] == g[i - 1][j]) || (j > 0 && g[i][j] == g[i][j - 1]) ||
    (j + 1 < n && g[i][j] == g[i][j + 1]) || (i + 1 < n && g[i][j] == g[i + 1][j])
  }

  predicate Full(g: Board)
    requires IsSquare(g)
  {
    forall i, j :: 0 <= i < |g| && 0 <= j < |g| ==> g[i][j] != 0
  }

  predicate NoMergeable(g: Board)
    requires IsSquare(g)
  {
    forall i, j :: 0 <= i < |g| && 0 <= j < |g| ==> !CanMerge(g, i, j)
  }

  /** The row-major scan of `_is_done` from cell (i, j) on: false at the first
      empty or mergeable cell. */
  function DoneFrom(g: Board, i: nat, j: nat): bool
    requires IsSquare(g) && i <= |g| && j <= |g|
    decreases |g| - i, |g| - j
  {
    if i == |g| then true
    else if j == |g| then DoneFrom(g, i + 1, 0)
    else if g[i][j] == 0 || CanMerge(g, i, j) then false
    else DoneFrom(g, i, j + 1)
  }

  /** The scan from (i, j) succeeds iff every cell from (i, j) on, in
      row-major order, holds a tile that equals none of its neighbours. */
  lemma {:induction false} DoneFromIff(g: Board, i: nat, j: nat)
    requires IsSquare(g) && i <= |g| && j <= |g|
    ensures DoneFrom(g, i, j) <==> forall a, b :: 0 <= a < |g| && 0 <= b < |g| && (a > i || (a == i && b >= j)) ==>
                                     g[a][b] != 0 && !CanMerge(g, a, b)
    decreases |g| - i, |g| - j
  {
    if i == |g| {
    } else if j == |g| {
      DoneFromIff(g, i + 1, 0);
    } else if g[i][j] == 0 || CanMerge(g, i, j) {
    } else {
      DoneFromIff(g, i, j + 1);
    }
  }

  /** `_is_done`: the row-major scan for an empty or mergeable cell. */
  function IsDone(g: Board): bool
    requires IsSquare(g)
  {
    DoneFrom(g, 0, 0)
  }

  /** `_is_done` holds iff the board is full and no cell equals an orthogonal
      neighbour. */
  lemma IsDoneIff(g: Board)
    requires IsSquare(g)
    ensures IsDone(g) <==> Full(g) && NoMergeable(g)
  {
    DoneFromIff(g, 0, 0);
  }

  /** Cells (i, j) and (i + 1, j) of a rotated view are orthogonal neighbours
      on the board. */
  lemma RotNeighbours(k: nat, n: nat, i: nat, j: nat)
    requires k < 4 && i + 1 < n && j < n
    ensures var (a, b) := RotIndex(k, n, i, j); var (c, d) := RotIndex(k, n, i + 1, j);
      (c == a + 1 && d == b) || (c + 1 == a && d == b) || (c == a && d == b + 1) || (c == a && d + 1 == b)
  {
  }

  lemma ViewFull(g: Board, k: nat)
    requires IsSquare(g) && Full(g) && k < 4
    ensures forall j :: 0 <= j < |g| ==> IsCompressed(Column(Rotate(g, k), j))
    ensures CompressView(Rotate(g, k)) == Rotate(g, k)
    ensures ColumnsMoved(Rotate(g, k), |g|) == 0
  {
    var n := |g|;
    var v := Rotate(g, k);
    forall i, j | 0 <= i < n && 0 <= j < n ensures v[i][j] != 0 {
      RotateAt(g, k, i, j);
    }
    forall j | 0 <= j < n ensures IsCompressed(Column(v, j)) && Moved(Column(v, j)) == 0 {
      MovedZeroIff(Column(v, j));
    }
    CompressViewFixed(v);
    ColumnsMovedZero(v, n);
  }

  /** On a board where no cell equals a neighbour, no view column holds two
      equal adjacent tiles. */
  lemma NoMergeableView(g: Board, k: nat, j: nat)
    requires IsSquare(g) && NoMergeable(g) && k < 4 && j < |g|
    ensures !HasEqualPair(Column(Rotate(g, k), j))
  {
    var n := |g|;
    var col := Column(Rotate(g, k), j);
    forall i | 0 <= i < n - 1 ensures col[i] != col[i + 1] {
      RotNeighbours(k, n, i, j);
      RotateAt(g, k, i, j);
      RotateAt(g, k, i + 1, j);
      var (a, b) := RotIndex(k, n, i, j);
      assert !CanMerge(g, a, b);
    }
  }

  /** On a terminal board every direction is rejected. */
  lemma DoneRejects(g: Board, k: nat)
    requires IsSquare(g) && NonNegativeBoard(g) && k < 4 && IsDone(g)
    ensures !Accepted(Move(g, k))
  {
    var n := |g|;
    var v := Rotate(g, k);
    IsDoneIff(g);
    ViewFull(g, k);
    ViewNonNegative(g, k);
    forall j | 0 <= j < n ensures MergeScore(Column(v, j)) == 0 {
      NoMergeableView(g, k, j);
      MergeCountIff(Column(v, j));
      ScorePositiveIff(Column(v, j));
    }
    ColumnsScoreBounds(v, n);
  }

  /** On a full board, two equal cells adjacent in a view column make that
      direction accepted. */
  lemma PairAccepted(g: Board, k: nat, i: nat, j: nat)
    requires IsSquare(g) && NonNegativeBoard(g) && Full(g) && k < 4
    requires i + 1 < |g| && j < |g| && Rotate(g, k)[i][j] == Rotate(g, k)[i + 1][j]
    ensures Accepted(Move(g, k))
  {
    var n := |g|;
    var v := Rotate(g, k);
    ViewFull(g, k);
    ViewNonNegative(g, k);
    var col := Column(v, j);
    RotateAt(g, k, i, j);
    assert col[i] == col[i + 1] && col[i] != 0;
    MergeCountIff(col);
    ScorePositiveIff(col);
    ColumnsScoreBounds(v, n);
  }

  /** On a full board, a cell that equals a neighbour makes the up or the
      right move accepted. */
  lemma MergeableAccepted(g: Board, a: nat, b: nat) returns (k: nat)
    requires IsSquare(g) && NonNegativeBoard(g) && Full(g)
    requires a < |g| && b < |g| && CanMerge(g, a, b)
    ensures k < 4 && Accepted(Move(g, k))
  {
    var n := |g|;
    if a > 0 && g[a][b] == g[a - 1][b] {
      RotateAt(g, UP, a - 1, b);
      RotateAt(g, UP, a, b);
      PairAccepted(g, UP, a - 1, b);
      k := UP;
    } else if a + 1 < n && g[a][b] == g[a + 1][b] {
      RotateAt(g, UP, a, b);
      RotateAt(g, UP, a + 1, b);
      PairAccepted(g, UP, a, b);
      k := UP;
    } else {
      var l: nat := if b > 0 && g[a][b] == g[a][b - 1] then b - 1 else b;
      assert l + 1 < n && g[a][l] == g[a][l + 1];
      RotateAt(g, RIGHT, n - 2 - l, a);
      RotateAt(g, RIGHT, n - 1 - l, a);
      PairAccepted(g, RIGHT, n - 2 - l, a);
      k := RIGHT;
    }
  }

  /** A full board is terminal iff no direction is accepted: `_is_done` agrees
      with the move engine. */
  lemma DoneIffNoMoveAccepted(g: Board)
    requires IsSquare(g) && NonNegativeBoard(g)
    ensures IsDone(g) <==> Full(g) && forall k :: 0 <= k < 4 ==> !Accepted(Move(g, k))
  {
    var n := |g|;
    IsDoneIff(g);
    if IsDone(g) {
      forall k | 0 <= k < 4 ensures !Accepted(Move(g, k)) {
        DoneRejects(g, k);
      }
    } else if Full(g) {
      var a, b :| 0 <= a < n && 0 <= b < n && CanMerge(g, a, b);
      var k := MergeableAccepted(g, a, b);
    }
  }
}
