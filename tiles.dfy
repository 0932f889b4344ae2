/** Tile counts of a whole board (`np.count_nonzero`) through a move: turning
    the board does not change them, the slide keeps them, and every merge
    removes one tile. */
module Tiles {
  import opened Line
  import opened Grid
  import opened Spawn

  /** The cells of g that hold a tile. */
  ghost function TileCells(g: Board): set<(nat, nat)>
    requires IsSquare(g)
  {
    set a: nat, b: nat | a < |g| && b < |g| && g[a][b] != 0 :: (a, b)
  }

  /** The tiles of row a at columns j and later. */
  ghost function RowTileCells(g: Board, a: nat, j: nat): set<(nat, nat)>
    requires IsSquare(g) && a < |g|
  {
    set b: nat | j <= b < |g| && g[a][b] != 0 :: (a, b)
  }

  /** The tiles of rows i and later. */
  ghost function TileCellsFrom(g: Board, i: nat): set<(nat, nat)>
    requires IsSquare(g)
  {
    set a: nat, b: nat | i <= a < |g| && b < |g| && g[a][b] != 0 :: (a, b)
  }

  lemma {:induction false} RowTileCellsCount(g: Board, a: nat, j: nat)
    requires IsSquare(g) && a < |g| && j <= |g|
    ensures |RowTileCells(g, a, j)| == |NonZeros(g[a][j..])|
    decreases |g| - j
  {
    if j == |g| {
      assert RowTileCells(g, a, j) == {};
      assert g[a][j..] == [];
    } else {
      RowTileCellsCount(g, a, j + 1);
      var here: set<(nat, nat)> := if g[a][j] != 0 then {(a, j)} else {};
      assert RowTileCells(g, a, j) == here + RowTileCells(g, a, j + 1);
      assert (a, j) !in RowTileCells(g, a, j + 1);
      assert g[a][j..] == [g[a][j]] + g[a][j + 1..];
      NonZerosCons(g[a][j], g[a][j + 1..]);
    }
  }

  lemma {:induction false} TileCellsFromCount(g: Board, i: nat)
    requires IsSquare(g) && i <= |g|
    ensures |TileCellsFrom(g, i)| == TilesFrom(g, i)
    decreases |g| - i
  {
    if i == |g| {
      assert TileCellsFrom(g, i) == {};
    } else {
      TileCellsFromCount(g, i + 1);
      RowTileCellsCount(g, i, 0);
      assert g[i][0..] == g[i];
      assert TileCellsFrom(g, i) == RowTileCells(g, i, 0) + TileCellsFrom(g, i + 1);
      assert RowTileCells(g, i, 0) !! TileCellsFrom(g, i + 1);
    }
  }

  /** `np.count_nonzero` counts the cells that hold a tile. */
  lemma TileCountCells(g: Board)
    requires IsSquare(g)
    ensures TileCount(g) == |TileCells(g)|
  {
    TileCellsFromCount(g, 0);
    assert TileCellsFrom(g, 0) == TileCells(g);
  }

  /** The tiles of column b at rows i and later. */
  ghost function ColumnTileCells(g: Board, b: nat, i: nat): set<(nat, nat)>
    requires IsSquare(g) && b < |g|
  {
    set a: nat | i <= a < |g| && g[a][b] != 0 :: (a, b)
  }

  /** The tiles of columns 0..m-1. */
  ghost function TileCellsLeftOf(g: Board, m: nat): set<(nat, nat)>
    requires IsSquare(g)
  {
    set a: nat, b: nat | a < |g| && b < m && b < |g| && g[a][b] != 0 :: (a, b)
  }

  /** Tiles in columns 0..m-1, counted column by column. */
  function ColumnsTiles(v: Board, m: nat): nat
    requires IsSquare(v) && m <= |v|
  {
    if m == 0 then 0 else ColumnsTiles(v, m - 1) + |NonZeros(Column(v, m - 1))|
  }

  lemma {:induction false} ColumnTileCellsCount(g: Board, b: nat, i: nat)
    requires IsSquare(g) && b < |g| && i <= |g|
    ensures |ColumnTileCells(g, b, i)| == |NonZeros(Column(g, b)[i..])|
    decreases |g| - i
  {
    var c := Column(g, b);
    if i == |g| {
      assert ColumnTileCells(g, b, i) == {};
      assert c[i..] == [];
    } else {
      ColumnTileCellsCount(g, b, i + 1);
      var here: set<(nat, nat)> := if g[i][b] != 0 then {(i, b)} else {};
      assert ColumnTileCells(g, b, i) == here + ColumnTileCells(g, b, i + 1);
      assert (i, b) !in ColumnTileCells(g, b, i + 1);
      assert c[i..] == [c[i]] + c[i + 1..];
      NonZerosCons(c[i], c[i + 1..]);
    }
  }

  lemma {:induction false} TileCellsLeftOfCount(g: Board, m: nat)
    requires IsSquare(g) && m <= |g|
    ensures |TileCellsLeftOf(g, m)| == ColumnsTiles(g, m)
  {
    if m == 0 {
      assert TileCellsLeftOf(g, m) == {};
    } else {
      TileCellsLeftOfCount(g, m - 1);
      ColumnTileCellsCount(g, m - 1, 0);
      assert Column(g, m - 1)[0..] == Column(g, m - 1);
      assert TileCellsLeftOf(g, m) == TileCellsLeftOf(g, m - 1) + ColumnTileCells(g, m - 1, 0);
      assert TileCellsLeftOf(g, m - 1) !! ColumnTileCells(g, m - 1, 0);
    }
  }

  /** Counting the tiles column by column gives `np.count_nonzero`. */
  lemma TileCountByColumns(g: Board)
    requires IsSquare(g)
    ensures TileCount(g) == ColumnsTiles(g, |g|)
  {
    TileCountCells(g);
    TileCellsLeftOfCount(g, |g|);
    assert TileCellsLeftOf(g, |g|) == TileCells(g);
  }

  /** The board cells that the view cells in S lie on. */
  ghost function RotImage(S: set<(nat, nat)>, k: nat, n: nat): set<(nat, nat)>
    requires k < 4
  {
    set p | p in S && p.0 < n && p.1 < n :: RotIndex(k, n, p.0, p.1)
  }

  /** Distinct view cells lie on distinct board cells, so the image of a set
      of view cells is as large as the set. */
  lemma {:induction false} RotImageSize(S: set<(nat, nat)>, k: nat, n: nat)
    requires k < 4 && forall p :: p in S ==> p.0 < n && p.1 < n
    ensures |RotImage(S, k, n)| == |S|
    decreases |S|
  {
    if S != {} {
      var x :| x in S;
      var S' := S - {x};
      RotImageSize(S', k, n);
      var y := RotIndex(k, n, x.0, x.1);
      forall p | p in S' ensures RotIndex(k, n, p.0, p.1) != y {
        RotIndexInjective(k, n, p.0, p.1, x.0, x.1);
      }
      assert RotImage(S, k, n) == RotImage(S', k, n) + {y};
      assert y !in RotImage(S', k, n);
    } else {
      assert RotImage(S, k, n) == {};
    }
  }

  /** Turning the board does not change its tile count. */
  lemma RotateTileCount(g: Board, k: nat)
    requires IsSquare(g) && k < 4
    ensures TileCount(Rotate(g, k)) == TileCount(g)
  {
    var n := |g|;
    var v := Rotate(g, k);
    RotateCells(g, k);
    forall q | q in TileCells(g) ensures q in RotImage(TileCells(v), k, n) {
      var p := RotIndex(Inverse(k), n, q.0, q.1);
      RotIndexInverse(k, n, q.0, q.1);
      assert p in TileCells(v);
    }
    assert RotImage(TileCells(v), k, n) == TileCells(g);
    RotImageSize(TileCells(v), k, n);
    TileCountCells(g);
    TileCountCells(v);
  }

  /** Merges of columns 0..m-1 of a view. */
  function ColumnsMerges(v: Board, m: nat): nat
    requires IsSquare(v) && m <= |v|
  {
    if m == 0 then 0 else ColumnsMerges(v, m - 1) + MergeCount(Column(v, m - 1))
  }

  /** The slide keeps every column's tiles. */
  lemma {:induction false} CompressViewTiles(v: Board, m: nat)
    requires IsSquare(v) && m <= |v|
    ensures ColumnsTiles(CompressView(v), m) == ColumnsTiles(v, m)
  {
    if m > 0 {
      CompressViewTiles(v, m - 1);
      ColumnOfCompressView(v, m - 1);
      CompressLineShape(Column(v, m - 1));
    }
  }

  /** The merge pass removes one tile per merge. */
  lemma {:induction false} MergeViewTiles(v: Board, m: nat)
    requires IsSquare(v) && NonNegativeBoard(v) && m <= |v|
    ensures ColumnsTiles(MergeView(v), m) == ColumnsTiles(v, m) - ColumnsMerges(v, m)
  {
    if m > 0 {
      MergeViewTiles(v, m - 1);
      ColumnOfMergeView(v, m - 1);
      var c := Column(v, m - 1);
      assert NonNegative(c) by {
        forall i | 0 <= i < |c| ensures c[i] >= 0 {
          assert c[i] == v[i][m - 1];
        }
      }
      MergeTileCount(c);
    }
  }

  /** The merges of a move: those of its merge pass over the slid view. */
  function MoveMerges(g: Board, k: nat): nat
    requires IsSquare(g) && k < 4
  {
    ColumnsMerges(CompressView(Rotate(g, k)), |g|)
  }

  /** A move never adds a tile: the board after compress, merge and compress
      holds one tile fewer per merge. */
  lemma MoveTileCount(g: Board, k: nat)
    requires IsSquare(g) && NonNegativeBoard(g) && k < 4
    ensures TileCount(Move(g, k).board) == TileCount(g) - MoveMerges(g, k)
    ensures TileCount(Move(g, k).board) <= TileCount(g)
  {
    var n := |g|;
    var v := Rotate(g, k);
    var c := CompressView(v);
    var m := MergeView(c);
    var last := CompressView(m);
    assert Move(g, k).board == Rotate(last, Inverse(k));
    RotateTileCount(last, Inverse(k));
    TileCountByColumns(last);
    CompressViewTiles(m, n);
    ViewNonNegative(g, k);
    CompressViewNonNegative(v);
    MergeViewTiles(c, n);
    CompressViewTiles(v, n);
    TileCountByColumns(v);
    RotateTileCount(g, k);
  }

  /** An accepted move followed by its spawn: one tile fewer per merge, and one
      more for the spawned tile. */
  lemma AcceptedStepTileCount(g: Board, k: nat, pick: nat, u: real)
    requires IsSquare(g) && NonNegativeBoard(g) && k < 4
    requires Accepted(Move(g, k)) && PickFits(Move(g, k).board, pick)
    ensures NonNegativeBoard(AddTile(Move(g, k).board, pick, u))
    ensures TileCount(AddTile(Move(g, k).board, pick, u)) == TileCount(Move(g, k).board) + 1
    ensures TileCount(AddTile(Move(g, k).board, pick, u)) == TileCount(g) - MoveMerges(g, k) + 1
  {
    AcceptedSpawn(g, k, pick, u);
    MoveTileCount(g, k);
  }

  /** A positive merge reward over columns 0..m-1 means some merge happened. */
  lemma {:induction false} ColumnsScoreMerges(v: Board, m: nat)
    requires IsSquare(v) && NonNegativeBoard(v) && m <= |v|
    ensures ColumnsScore(v, m) > 0 ==> ColumnsMerges(v, m) > 0
  {
    if m > 0 {
      ColumnsScoreMerges(v, m - 1);
      ColumnsScoreBounds(v, m - 1);
      var c := Column(v, m - 1);
      assert NonNegative(c) by {
        forall i | 0 <= i < |c| ensures c[i] >= 0 {
          assert c[i] == v[i][m - 1];
        }
      }
      ScorePositiveIff(c);
    }
  }

  /** `step` accepts a move exactly when the move changes the board: a
      rejected move leaves it as it was, and an accepted one either slid a
      tile, which the final slide cannot undo, or merged, which removes a
      tile. */
  lemma AcceptedIffBoardChanges(g: Board, k: nat)
    requires IsSquare(g) && NonNegativeBoard(g) && k < 4
    ensures Accepted(Move(g, k)) <==> Move(g, k).board != g
  {
    var n := |g|;
    var v := Rotate(g, k);
    var c := CompressView(v);
    var last := CompressView(MergeView(c));
    if !Accepted(Move(g, k)) {
      RejectedMoveUnchanged(g, k);
    } else if Move(g, k).board == g {
      if Move(g, k).score > 0 {
        ViewNonNegative(g, k);
        CompressViewNonNegative(v);
        ColumnsScoreMerges(c, n);
        MoveTileCount(g, k);
        assert false;
      } else {
        assert Move(g, k).board == Rotate(last, Inverse(k));
        assert k == Inverse(Inverse(k));
        RotateRoundTrip(last, Inverse(k));
        assert v == last;
        CompressViewIdempotent(MergeView(c));
        assert false;
      }
    }
  }
}
