/** `_add_random_tile` with its two random draws passed in: the index of the
    chosen empty cell, in row-major order, and the uniform draw that decides
    between exponent 1 and exponent 2. */
module Spawn {
  import opened Line
  import opened Grid

  /** Row-major order of board coordinates. */
  predicate Before(p: (nat, nat), q: (nat, nat))
  {
    p.0 < q.0 || (p.0 == q.0 && p.1 < q.1)
  }

  /** The empty cells of row i at columns j and later, left to right. */
  function RowEmpties(g: Board, i: nat, j: nat): seq<(nat, nat)>
    requires IsSquare(g) && i < |g| && j <= |g|
    decreases |g| - j
  {
    if j == |g| then []
    else (if g[i][j] == 0 then [(i, j)] else []) + RowEmpties(g, i, j + 1)
  }

  lemma {:induction false} RowEmptiesLength(g: Board, i: nat, j: nat)
    requires IsSquare(g) && i < |g| && j <= |g|
    ensures |RowEmpties(g, i, j)| == |g| - j - |NonZeros(g[i][j..])|
    decreases |g| - j
  {
    if j < |g| {
      RowEmptiesLength(g, i, j + 1);
      assert g[i][j..][1..] == g[i][j + 1..];
    }
  }

  lemma {:induction false} RowEmptiesCells(g: Board, i: nat, j: nat)
    requires IsSquare(g) && i < |g| && j <= |g|
    ensures forall p :: 0 <= p < |RowEmpties(g, i, j)| ==>
      RowEmpties(g, i, j)[p].0 == i && j <= RowEmpties(g, i, j)[p].1 < |g| &&
      g[i][RowEmpties(g, i, j)[p].1] == 0
    decreases |g| - j
  {
    if j < |g| {
      RowEmptiesCells(g, i, j + 1);
    }
  }

  lemma {:induction false} RowEmptiesComplete(g: Board, i: nat, j: nat)
    requires IsSquare(g) && i < |g| && j <= |g|
    ensures forall b :: j <= b < |g| && g[i][b] == 0 ==> (i, b) in RowEmpties(g, i, j)
    decreases |g| - j
  {
    if j < |g| {
      RowEmptiesComplete(g, i, j + 1);
    }
  }

  lemma {:induction false} RowEmptiesSorted(g: Board, i: nat, j: nat)
    requires IsSquare(g) && i < |g| && j <= |g|
    ensures forall p, q :: 0 <= p < q < |RowEmpties(g, i, j)| ==>
      Before(RowEmpties(g, i, j)[p], RowEmpties(g, i, j)[q])
    decreases |g| - j
  {
    if j < |g| {
      RowEmptiesSorted(g, i, j + 1);
      RowEmptiesCells(g, i, j + 1);
    }
  }

  /** Tiles in rows i and later. */
  function TilesFrom(g: Board, i: nat): nat
    requires IsSquare(g) && i <= |g|
    decreases |g| - i
  {
    if i == |g| then 0 else |NonZeros(g[i])| + TilesFrom(g, i + 1)
  }

  /** `np.count_nonzero(board)`. */
  function TileCount(g: Board): nat
    requires IsSquare(g)
  {
    TilesFrom(g, 0)
  }

  /** The empty cells of rows i and later, in row-major order. */
  function EmptiesFrom(g: Board, i: nat): seq<(nat, nat)>
    requires IsSquare(g) && i <= |g|
    decreases |g| - i
  {
    if i == |g| then [] else RowEmpties(g, i, 0) + EmptiesFrom(g, i + 1)
  }

  lemma {:induction false} EmptiesFromLength(g: Board, i: nat)
    requires IsSquare(g) && i <= |g|
    ensures |EmptiesFrom(g, i)| + TilesFrom(g, i) == (|g| - i) * |g|
    decreases |g| - i
  {
    if i < |g| {
      EmptiesFromLength(g, i + 1);
      RowEmptiesLength(g, i, 0);
      assert g[i][0..] == g[i];
      assert (|g| - i) * |g| == (|g| - (i + 1)) * |g| + |g|;
    }
  }

  lemma {:induction false} EmptiesFromCells(g: Board, i: nat)
    requires IsSquare(g) && i <= |g|
    ensures forall p :: 0 <= p < |EmptiesFrom(g, i)| ==>
      i <= EmptiesFrom(g, i)[p].0 < |g| && EmptiesFrom(g, i)[p].1 < |g| &&
      g[EmptiesFrom(g, i)[p].0][EmptiesFrom(g, i)[p].1] == 0
    decreases |g| - i
  {
    if i < |g| {
      EmptiesFromCells(g, i + 1);
      RowEmptiesCells(g, i, 0);
    }
  }

  lemma {:induction false} EmptiesFromComplete(g: Board, i: nat)
    requires IsSquare(g) && i <= |g|
    ensures forall a, b :: i <= a < |g| && 0 <= b < |g| && g[a][b] == 0 ==> (a, b) in EmptiesFrom(g, i)
    decreases |g| - i
  {
    if i < |g| {
      EmptiesFromComplete(g, i + 1);
      RowEmptiesComplete(g, i, 0);
    }
  }

  lemma {:induction false} EmptiesFromSorted(g: Board, i: nat)
    requires IsSquare(g) && i <= |g|
    ensures forall p, q :: 0 <= p < q < |EmptiesFrom(g, i)| ==>
      Before(EmptiesFrom(g, i)[p], EmptiesFrom(g, i)[q])
    decreases |g| - i
  {
    if i < |g| {
      EmptiesFromSorted(g, i + 1);
      EmptiesFromCells(g, i + 1);
      RowEmptiesSorted(g, i, 0);
      RowEmptiesCells(g, i, 0);
    }
  }

  /** `empty_tiles`: every empty cell of the board, each once, in row-major
      order; there are as many as the board has cells without a tile. */
  function EmptyCells(g: Board): (e: seq<(nat, nat)>)
    requires IsSquare(g)
    ensures |e| == |g| * |g| - TileCount(g)
  {
    EmptiesFromLength(g, 0);
    EmptiesFrom(g, 0)
  }

  /** Every listed cell is a cell of the board, and empty. */
  lemma EmptyCellsValid(g: Board)
    requires IsSquare(g)
    ensures forall p :: 0 <= p < |EmptyCells(g)| ==>
      EmptyCells(g)[p].0 < |g| && EmptyCells(g)[p].1 < |g| && g[EmptyCells(g)[p].0][EmptyCells(g)[p].1] == 0
  {
    EmptiesFromCells(g, 0);
  }

  /** Every empty cell of the board is listed, and the list is in row-major
      order, so the draw `pick` names the pick-th empty cell in that order. */
  lemma EmptyCellsOrdered(g: Board)
    requires IsSquare(g)
    ensures forall a, b :: 0 <= a < |g| && 0 <= b < |g| && g[a][b] == 0 ==> (a, b) in EmptyCells(g)
    ensures forall p, q :: 0 <= p < q < |EmptyCells(g)| ==> Before(EmptyCells(g)[p], EmptyCells(g)[q])
  {
    EmptiesFromComplete(g, 0);
    EmptiesFromSorted(g, 0);
  }

  /** The exponent of the new tile: `1 if random() < 0.9 else 2`. */
  function TileValue(u: real): (v: int)
    ensures v == 1 || v == 2
  {
    if u < 0.9 then 1 else 2
  }

  /** The spawn draw `pick` indexes an empty cell of g, if g has one. */
  predicate PickFits(g: Board, pick: nat)
    requires IsSquare(g)
  {
    |EmptyCells(g)| == 0 || pick < |EmptyCells(g)|
  }

  /** The board after `_add_random_tile` with the draws `pick` and `u`. */
  function AddTile(g: Board, pick: nat, u: real): (r: Board)
    requires IsSquare(g)
    requires PickFits(g, pick)
    ensures IsSquare(r) && |r| == |g|
  {
    var e := EmptyCells(g);
    EmptyCellsValid(g);
    if |e| == 0 then g
    else
      var (a, b) := e[pick];
      g[a := g[a][b := TileValue(u)]]
  }

  lemma {:induction false} TilesFromUpdate(g: Board, i: nat, a: nat, row: seq<int>)
    requires IsSquare(g) && i <= |g| && a < |g| && |row| == |g|
    ensures IsSquare(g[a := row])
    ensures TilesFrom(g[a := row], i) ==
      TilesFrom(g, i) + (if i <= a then |NonZeros(row)| - |NonZeros(g[a])| else 0)
    decreases |g| - i
  {
    if i < |g| {
      TilesFromUpdate(g, i + 1, a, row);
    }
  }

  /** Placing a tile in an empty cell adds one tile to its row. */
  lemma PlaceInRow(s: seq<int>, b: nat, x: int)
    requires b < |s| && s[b] == 0 && x != 0
    ensures |NonZeros(s[b := x])| == |NonZeros(s)| + 1
  {
    assert s == s[..b] + [0] + s[b + 1..];
    assert s[b := x] == s[..b] + [x] + s[b + 1..];
    NonZerosAppend(s[..b] + [0], s[b + 1..]);
    NonZerosAppend(s[..b] + [x], s[b + 1..]);
    NonZerosSnoc(s[..b], 0);
    NonZerosSnoc(s[..b], x);
  }

  /** `_add_random_tile` writes exactly the pick-th empty cell, in row-major
      order, with exponent 1 or 2, changes no other cell, and adds one tile;
      on a full board it changes nothing. */
  lemma AddTileSpec(g: Board, pick: nat, u: real)
    requires IsSquare(g)
    requires PickFits(g, pick)
    ensures var e := EmptyCells(g); var r := AddTile(g, pick, u);
      if |e| == 0 then r == g && TileCount(r) == TileCount(g)
      else
        var (a, b) := e[pick];
        a < |g| && b < |g| && g[a][b] == 0 && r[a][b] == TileValue(u) &&
        (forall i, j :: 0 <= i < |g| && 0 <= j < |g| && (i, j) != (a, b) ==> r[i][j] == g[i][j]) &&
        TileCount(r) == TileCount(g) + 1
  {
    var e := EmptyCells(g);
    EmptyCellsValid(g);
    if |e| > 0 {
      var (a, b) := e[pick];
      var row := g[a][b := TileValue(u)];
      PlaceInRow(g[a], b, TileValue(u));
      TilesFromUpdate(g, 0, a, row);
    }
  }

  /** A spawn keeps every exponent non-negative and, when the board has an
      empty cell, adds exactly one tile. */
  lemma AddTileNonNegative(g: Board, pick: nat, u: real)
    requires IsSquare(g) && NonNegativeBoard(g)
    requires PickFits(g, pick)
    ensures NonNegativeBoard(AddTile(g, pick, u))
    ensures TileCount(AddTile(g, pick, u)) == TileCount(g) + (if |EmptyCells(g)| == 0 then 0 else 1)
  {
    AddTileSpec(g, pick, u);
  }

  /** An accepted move always leaves an empty cell, so the spawn after it adds
      exactly one tile, and the board stays non-negative. */
  lemma AcceptedSpawn(g: Board, k: nat, pick: nat, u: real)
    requires IsSquare(g) && NonNegativeBoard(g) && k < 4
    requires Accepted(Move(g, k)) && PickFits(Move(g, k).board, pick)
    ensures |EmptyCells(Move(g, k).board)| > 0
    ensures NonNegativeBoard(AddTile(Move(g, k).board, pick, u))
    ensures TileCount(AddTile(Move(g, k).board, pick, u)) == TileCount(Move(g, k).board) + 1
  {
    var b := Move(g, k).board;
    var a, c := AcceptedMoveLeavesEmpty(g, k);
    EmptyCellsOrdered(b);
    assert (a, c) in EmptyCells(b);
    MoveNonNegative(g, k);
    AddTileNonNegative(b, pick, u);
  }

  /** A board without tiles. */
  function EmptyBoard(n: nat): (g: Board)
    ensures IsSquare(g) && |g| == n
    ensures TileCount(g) == 0 && SmallTiles(g) && NonNegativeBoard(g)
  {
    var g := seq(n, _ => seq(n, _ => 0));
    NoTiles(g);
    g
  }

  lemma NoTiles(g: Board)
    requires IsSquare(g) && forall i, j :: 0 <= i < |g| && 0 <= j < |g| ==> g[i][j] == 0
    ensures TileCount(g) == 0 && SmallTiles(g)
  {
    forall i | 0 <= i < |g| ensures NonZeros(g[i]) == [] {
      NonZerosOfAllZero(g[i]);
    }
    ZeroTilesFrom(g, 0);
  }

  lemma {:induction false} ZeroTilesFrom(g: Board, i: nat)
    requires IsSquare(g) && i <= |g|
    requires forall a :: 0 <= a < |g| ==> NonZeros(g[a]) == []
    ensures TilesFrom(g, i) == 0
    decreases |g| - i
  {
    if i < |g| { ZeroTilesFrom(g, i + 1); }
  }

  predicate SmallTiles(g: Board)
    requires IsSquare(g)
  {
    forall i, j :: 0 <= i < |g| && 0 <= j < |g| ==> 0 <= g[i][j] <= 2
  }

  lemma AddTileSmall(g: Board, pick: nat, u: real)
    requires IsSquare(g) && SmallTiles(g)
    requires PickFits(g, pick)
    ensures SmallTiles(AddTile(g, pick, u))
    ensures TileCount(AddTile(g, pick, u)) == TileCount(g) + (if |EmptyCells(g)| == 0 then 0 else 1)
  {
    AddTileSpec(g, pick, u);
  }

  /** The two spawns of `reset` on an empty board place two tiles (one on a
      board with a single cell), each of exponent 1 or 2. */
  lemma ResetSpawns(n: nat, pick1: nat, u1: real, pick2: nat, u2: real) returns (g1: Board, g2: Board)
    requires n * n == 0 || pick1 < n * n
    requires n * n < 2 || pick2 < n * n - 1
    ensures IsSquare(g1) && g1 == AddTile(EmptyBoard(n), pick1, u1)
    ensures PickFits(g1, pick2)
    ensures g2 == AddTile(g1, pick2, u2)
    ensures TileCount(g2) == (if n * n >= 2 then 2 else n * n)
    ensures SmallTiles(g2)
  {
    var g0 := EmptyBoard(n);
    assert |EmptyCells(g0)| == n * n;
    AddTileSmall(g0, pick1, u1);
    g1 := AddTile(g0, pick1, u1);
    assert TileCount(g1) == if n * n == 0 then 0 else 1;
    assert |EmptyCells(g1)| == n * n - TileCount(g1);
    AddTileSmall(g1, pick2, u2);
    g2 := AddTile(g1, pick2, u2);
  }
}
