# gym-text2048: a verified model of the 2048 move engine and its heuristic

This project models the engine of the `gym-text2048` environments in Dafny.
The engine is `Text2048Env` and its subclass `Text2048WithHeuristicEnv`.
The board is an n-by-n grid of tile exponents, where 0 is an empty cell.
An action `k` (0 up, 1 right, 2 down, 3 left) looks at the board through
`np.rot90(board, k)`. Through that view the engine:

- slides every column toward index 0 (`_compress`);
- merges equal neighbours once (`_merge`);
- when the move is accepted, slides again and spawns a tile.

The modules follow the program's structure:

- `Line` covers one column of the view: the slide (`CompressLine`, `Moved`) and
  the merge pass (`Merged`, `MergeScore`, `MergeCount`). It proves what they
  keep (length, order, the multiset of tiles, the sum of 2^v) and when they
  change anything.
- `Grid` covers the whole board as a value. It has the rotated view as an
  index map (`RotIndex`), the column-wise view operations, the outcome of a
  move (`Move`), and `_is_done` with its characterisation.
- `Tiles` counts the tiles of a board as a set of cells. It proves that
  turning the board keeps the count, and that a move removes exactly one tile
  per merge.
- `Spawn` covers `_add_random_tile` with its two random draws as parameters:
  the index `pick` into the empty cells in row-major order, and the uniform
  draw `u` that selects exponent 1 (`u < 0.9`) or 2.
- `Heuristic` covers the integer components of `_calculate_state_value`:
  `count_merges`, `score_monotonicity` as the code evaluates it, the sums over
  rows and columns, the empty count, the `moved_cells` rule and the weighted
  sum.
- `Env` holds the class `Text2048Env`. Its field `board` is an `array2<int>`
  that `step` changes in place through the view: `_compress` swaps cells and
  `_merge` writes them, at the coordinates `RotIndex` gives.

The other fields are `prev_board`, `moved_cells`, `score`, `last_action`,
`last_action_score`, the invalid counter, the move counter and
`last_state_value` (heuristic subclass only). The subclass is the same class
with `weights` set to `Some(...)`, which selects its `_get_reward` and its
`reset`. The constructors take the source's keyword defaults: size 4,
penalty -512, warm-up 16, threshold 0.1, and the default weights, which are
all 0 (only the unused monotonicity exponent and the sum exponent are 1), so the
state value is 0 on every board and the reward is the merge reward alone
(`DefaultValueZero`).

The class keeps a ghost value `cells` next to the array. The predicate
`Mirror` says that `cells` holds exactly what the array holds. Every read of
the whole board (`np.copy`, `_is_done`, the heuristic) goes through
`CopyBoard`, which copies the array row by row. Each in-place operation is
proved against a function of the old contents. For example, after `Compress(k)`
the view of the board equals `CompressView(Rotate(old contents, k))`. After an
accepted `Step` the board equals `AddTile(Move(old board, action).board, pick, u)`;
after a rejected one it is the old board.

Some of the code does not do what its names or comments suggest. The model
follows the code:

- The monotonicity test at `text2048_withheuristic_env.py:57` is
  `abs(line[i-1] - line[i] == 1)`, the absolute value of a comparison. It
  holds exactly when the cyclic predecessor is one more than the cell, with
  `line[-1]` being the last cell. The `right` counter is never incremented.
  So the function does not score the monotonicity of a line in the sense of
  the comment at lines 51-53 ("Score the monotonicity of each row and column").
- The second monotonicity sum (line 67) indexes `board[:][j]`, which is row
  `j`, so the term counts every row twice and no column, although that
  comment speaks of rows and columns.
- The second `_compress` of an accepted move overwrites `moved_cells` (line
  125). The previous state value is read in `_get_reward` but never used.

## Model

| member | source | states |
|---|---|---|
| Line.CompressLine | gym_text2048/envs/text2048_env.py:74-82 | the slide of one view column: its tiles in their original order, then empty cells, of the column's length; `CompressLineShape` states its shape and permutation |
| Line.Moved | gym_text2048/envs/text2048_env.py:79-80 | the number of tiles the slide moves, at most one per cell; `MovedClosedForm` gives its closed form |
| Line.Merged | gym_text2048/envs/text2048_env.py:88-93 | one top-down merge pass over a view column, of the column's length; `MergedCells` states what happens to each cell |
| Line.MergeScore | gym_text2048/envs/text2048_env.py:90-93 | the reward of the pass, the sum of the new exponents; `ScorePositiveIff` relates it to the merges |
| Line.CompressLineShape | gym_text2048/envs/text2048_env.py:74-82 | a slid column keeps its length, holds its tiles in their original order at indices 0..c-1 and empty cells after them, and is a permutation (same multiset) of the column |
| Line.CompressedIff | gym_text2048/envs/text2048_env.py:74-82 | the slide leaves a column unchanged iff no tile stands below an empty cell |
| Line.CompressIdempotent | gym_text2048/envs/text2048_env.py:122-125 | sliding a slid column changes nothing and moves no tile |
| Line.MovedClosedForm | gym_text2048/envs/text2048_env.py:76-82 | the moved count is the number of tiles minus the unbroken run of tiles at the head of the column |
| Line.MovedZeroIff | gym_text2048/envs/text2048_env.py:79-84 | the slide moves no tile iff the column is already slid, so `changed` is false exactly on slid columns |
| Line.MergedCells | gym_text2048/envs/text2048_env.py:88-93 | every cell after the merge pass either keeps its value, or is the upper cell of an equal non-zero pair and gains one exponent, or is that pair's emptied lower cell; no tile merges twice |
| Line.NoMergeFixed | gym_text2048/envs/text2048_env.py:89-92 | a pass without merges leaves the column unchanged |
| Line.ScorePositiveIff | gym_text2048/envs/text2048_env.py:90-93 | on non-negative exponents the pass reward is at least the number of merges, and positive iff a merge happened |
| Line.MergeCountIff | gym_text2048/envs/text2048_env.py:90 | the pass merges something iff the column holds two adjacent equal tiles |
| Line.MergePreservesWeight | gym_text2048/envs/text2048_env.py:90-92 | merging keeps exponents non-negative and conserves the sum of displayed values 2^v |
| Line.MergeTileCount | gym_text2048/envs/text2048_env.py:90-92 | each merge removes exactly one tile: the tile count drops by the number of merges |
| Line.AcceptedLineLeavesEmpty | gym_text2048/envs/text2048_env.py:122-125 | a column that an accepted move changes ends, after compress, merge and compress, with an empty last cell |
| Line.MergeExamples | gym_text2048/envs/text2048_env.py:86-94 | [1,1,1,1] merges to [2,0,2,0] with reward 4, and [2,2,2,0] to [3,0,2,0] with reward 3 |
| Grid.UP | gym_text2048/envs/text2048_env.py:14 | the action UP is 0, no quarter-turn, so the slide runs toward row 0 |
| Grid.RIGHT | gym_text2048/envs/text2048_env.py:15 | the action RIGHT is 1, one quarter-turn of the view |
| Grid.DOWN | gym_text2048/envs/text2048_env.py:16 | the action DOWN is 2, two quarter-turns of the view |
| Grid.LEFT | gym_text2048/envs/text2048_env.py:17 | the action LEFT is 3, three quarter-turns of the view |
| Grid.RotIndex | gym_text2048/envs/text2048_env.py:121 | the board cell under cell (i, j) of `np.rot90(board, k)`, in bounds; `RotIndexInverse` and `RotIndexInjective` make it a bijection |
| Grid.Rotate | gym_text2048/envs/text2048_env.py:121 | `np.rot90(board, k)` as a value, square of the same side; `RotateAt` gives its cells and `RotateRoundTrip` its inverse |
| Grid.CompressView | gym_text2048/envs/text2048_env.py:71-84 | `_compress` over the whole view, column by column; `ColumnOfCompressView` makes each column its slide, `CompressViewIdempotent` shows a second slide changes nothing, and `Compress` is proved to turn the view into it in place |
| Grid.ColumnsMoved | gym_text2048/envs/text2048_env.py:73-83 | the `moved_tiles` total of `_compress`, one `Moved` per column; `ColumnsMovedZero` makes it 0 iff no column moves a tile |
| Grid.MergeView | gym_text2048/envs/text2048_env.py:86-94 | `_merge` over the whole view, column by column; `ColumnOfMergeView` makes each column its merge pass, and `Merge` is proved to turn the view into it in place |
| Grid.ColumnsScore | gym_text2048/envs/text2048_env.py:87-94 | the `reward` total of `_merge`, one `MergeScore` per column; `ColumnsScoreBounds` bounds every column's share by it and makes it 0 iff no column scores |
| Grid.Move | gym_text2048/envs/text2048_env.py:121-125 | the outcome of one action: the board after compress, merge and compress through the view, square of the same side, with the first slide's change flag, the merge reward and the second slide's moved count |
| Grid.Accepted | gym_text2048/envs/text2048_env.py:124 | the test `changed or action_score > 0`; `AcceptedIffBoardChanges` proves it holds iff the move changes the board, and `DoneIffNoMoveAccepted` ties it to `_is_done` |
| Grid.CanMerge | gym_text2048/envs/text2048_env.py:97-101 | `can_merge(i, j)`: some in-bounds orthogonal neighbour holds the same value; `MergeableAccepted` ties it to the actions |
| Grid.IsDone | gym_text2048/envs/text2048_env.py:103-106 | the row-major scan of `_is_done`, false at the first empty or mergeable cell; `IsDoneIff` characterises it |
| Grid.Full | gym_text2048/envs/text2048_env.py:103-104 | no cell holds 0, the first half of the test in `_is_done`; `IsDoneIff` and `DoneIffNoMoveAccepted` use it |
| Grid.RotIndexInverse | gym_text2048/envs/text2048_env.py:121 | turning by k and then by the inverse number of quarter-turns lands on the starting cell, both ways round |
| Grid.RotIndexInjective | gym_text2048/envs/text2048_env.py:121 | distinct cells of the view lie on distinct board cells, so writes through the view never collide |
| Grid.RotateAt | gym_text2048/envs/text2048_env.py:121 | cell (i, j) of `np.rot90(board, k)` is the board cell that `RotIndex` names |
| Grid.RotateRoundTrip | gym_text2048/envs/text2048_env.py:121 | rotating by k and then by the inverse turn restores the board |
| Grid.ColumnOfCompressView | gym_text2048/envs/text2048_env.py:74-82 | column j of the slid view is the slid column j: columns are slid independently |
| Grid.ColumnOfMergeView | gym_text2048/envs/text2048_env.py:88-92 | column j of the merged view is the merged column j: columns are merged independently |
| Grid.ColumnsMovedZero | gym_text2048/envs/text2048_env.py:79-84 | the board's moved count is 0 iff no column moved a tile |
| Grid.ColumnsScoreBounds | gym_text2048/envs/text2048_env.py:87-94 | the board's merge reward bounds every column's reward and is 0 iff every column's reward is 0 |
| Grid.CompressViewIdempotent | gym_text2048/envs/text2048_env.py:122-125 | a second slide right after a first changes nothing and sets the moved count to 0 |
| Grid.RejectedMoveUnchanged | gym_text2048/envs/text2048_env.py:122-129 | on a rejected move the compress and the merge leave the view as it was, so the move's board is the original board and its moved count is 0 |
| Grid.MoveNonNegative | gym_text2048/envs/text2048_env.py:121-125 | a move keeps every exponent non-negative |
| Grid.MoveScoreNonNegative | gym_text2048/envs/text2048_env.py:123 | the merge reward of a move on a non-negative board is non-negative |
| Grid.AcceptedMoveLeavesEmpty | gym_text2048/envs/text2048_env.py:124-126 | after an accepted move the board has an empty cell, so the spawn always places a tile |
| Grid.MoveFromView | gym_text2048/envs/text2048_env.py:121-125 | a board whose view is the view after compress, merge and compress is the board the move produces |
| Grid.RejectFromView | gym_text2048/envs/text2048_env.py:122-129 | after a rejected move's compress and merge the board is the original board |
| Grid.DoneFromIff | gym_text2048/envs/text2048_env.py:103-106 | the row-major scan from cell (i, j) returns true iff no later cell is empty or equals an in-bounds orthogonal neighbour |
| Grid.IsDoneIff | gym_text2048/envs/text2048_env.py:96-106 | `_is_done` holds iff every cell holds a tile and no cell equals an in-bounds orthogonal neighbour |
| Grid.ViewFull | gym_text2048/envs/text2048_env.py:74-84 | on a full board no view column moves, so the slide changes nothing |
| Grid.NoMergeableView | gym_text2048/envs/text2048_env.py:90 | on a board where no cell equals a neighbour, no view column holds an equal adjacent pair |
| Grid.DoneRejects | gym_text2048/envs/text2048_env.py:96-106 | on a terminal board every one of the four actions is rejected |
| Grid.PairAccepted | gym_text2048/envs/text2048_env.py:124 | on a full board, two equal adjacent cells in a view column make that action accepted |
| Grid.MergeableAccepted | gym_text2048/envs/text2048_env.py:97-101 | on a full board, a cell equal to a neighbour makes some action accepted |
| Grid.DoneIffNoMoveAccepted | gym_text2048/envs/text2048_env.py:96-106 | a board is terminal iff it is full and none of the four actions is accepted |
| Spawn.AddTile | gym_text2048/envs/text2048_env.py:63-69 | the board after `_add_random_tile` with draws `pick` and `u`, square of the same side; `AddTileSpec` says which cell changes |
| Spawn.TileCount | gym_text2048/envs/text2048_withheuristic_env.py:29 | `np.count_nonzero(board)`, row by row; `TileCountCells` equates it with the set of cells holding a tile and `EmptyCells` with n*n minus the listed empty cells |
| Spawn.EmptyCells | gym_text2048/envs/text2048_env.py:64-65 | the number of empty cells listed is n*n minus the number of tiles |
| Spawn.EmptyCellsValid | gym_text2048/envs/text2048_env.py:64-65 | every listed cell is a board cell and is empty |
| Spawn.EmptyCellsOrdered | gym_text2048/envs/text2048_env.py:64-65 | every empty cell is listed, and the list is in strict row-major order |
| Spawn.TileValue | gym_text2048/envs/text2048_env.py:68 | a new tile has exponent 1 or 2 |
| Spawn.AddTileSpec | gym_text2048/envs/text2048_env.py:63-69 | with an empty cell, exactly the pick-th empty cell in row-major order gets exponent 1 or 2, no other cell changes, and one tile is added; on a full board nothing changes |
| Spawn.AddTileNonNegative | gym_text2048/envs/text2048_env.py:63-69 | a spawn keeps exponents non-negative and adds one tile exactly when there is an empty cell |
| Spawn.AcceptedSpawn | gym_text2048/envs/text2048_env.py:124-126 | the spawn after an accepted move adds exactly one tile and keeps exponents non-negative |
| Spawn.EmptyBoard | gym_text2048/envs/text2048_env.py:149 | `np.zeros((size, size))` is square, of side size, and holds no tile |
| Spawn.ResetSpawns | gym_text2048/envs/text2048_env.py:148-151 | the two spawns of `reset` on an empty board leave two tiles (fewer only on a board of fewer than two cells), and every cell holds an exponent between 0 and 2 |
| Spawn.AddTileSmall | gym_text2048/envs/text2048_env.py:63-69 | a spawn on a board whose exponents lie between 0 and 2 keeps them there, and adds one tile exactly when there is an empty cell |
| Tiles.TileCountCells | gym_text2048/envs/text2048_withheuristic_env.py:29 | `np.count_nonzero(board)` is the number of cells that hold a tile |
| Tiles.TileCountByColumns | gym_text2048/envs/text2048_withheuristic_env.py:29 | counting tiles column by column gives the same count as row by row |
| Tiles.RotateTileCount | gym_text2048/envs/text2048_env.py:121 | turning the board through the view does not change its tile count |
| Tiles.CompressViewTiles | gym_text2048/envs/text2048_env.py:74-82 | the slide keeps the tiles of every view column |
| Tiles.MergeViewTiles | gym_text2048/envs/text2048_env.py:88-93 | on non-negative exponents the merge pass removes exactly one tile per merge, over all view columns |
| Tiles.MoveTileCount | gym_text2048/envs/text2048_env.py:121-125 | a move never adds a tile: the board after the move holds the old tile count minus the move's merges |
| Tiles.AcceptedIffBoardChanges | gym_text2048/envs/text2048_env.py:121-125 | on non-negative exponents the test at line 124 accepts a move iff the board after compress, merge and compress differs from the board before it |
| Tiles.AcceptedStepTileCount | gym_text2048/envs/text2048_env.py:121-126 | an accepted move and its spawn leave exponents non-negative and the tile count at the old count minus the merges plus one |
| Heuristic.TrailRunSpec | gym_text2048/envs/text2048_withheuristic_env.py:36-42 | the run the scan is in is made of equal values and is maximal |
| Heuristic.RunSum | gym_text2048/envs/text2048_withheuristic_env.py:34-45 | the merge potential of a prefix: over its maximal runs of equal tiles of length L >= 2, the sum of L times the exponent; `CountMerges` equates the loop with it |
| Heuristic.CountMerges | gym_text2048/envs/text2048_withheuristic_env.py:34-45 | `count_merges` returns the sum, over maximal runs of equal non-zero values of length L >= 2, of L times the value |
| Heuristic.RunSumPositiveIff | gym_text2048/envs/text2048_withheuristic_env.py:34-45 | on non-negative exponents the merge potential of a prefix is non-negative, and positive iff it contains two adjacent equal tiles |
| Heuristic.MergePotentialPositiveIff | gym_text2048/envs/text2048_withheuristic_env.py:34-45 | `count_merges` of a non-negative line is never negative, and 0 iff no adjacent equal non-zero pair exists |
| Heuristic.RunSumExamples | gym_text2048/envs/text2048_withheuristic_env.py:34-45 | [1,1,1,0] scores 3, [2,2,0,2] scores 4, and an empty line scores 0 |
| Heuristic.DropsBelow | gym_text2048/envs/text2048_withheuristic_env.py:56-59 | the indices below m whose cyclic predecessor is exactly one more, at most m of them |
| Heuristic.Drops | gym_text2048/envs/text2048_withheuristic_env.py:54-64 | the same count over the whole line, at most its length; `DropsBound` makes it smaller than the length |
| Heuristic.ScoreMonotonicity | gym_text2048/envs/text2048_withheuristic_env.py:54-64 | `score_monotonicity` returns the number of indices whose cyclic predecessor is exactly one more, which is less than the line length |
| Heuristic.DropsBound | gym_text2048/envs/text2048_withheuristic_env.py:54-64 | around the cycle the differences add up to zero, so fewer than all indices can drop by one |
| Heuristic.BoardMerges | gym_text2048/envs/text2048_withheuristic_env.py:48-49 | `merges` is `count_merges` summed over every row and every column, and is non-negative on a non-negative board |
| Heuristic.MergesNonNegative | gym_text2048/envs/text2048_withheuristic_env.py:48-49 | the row and column sums of the merge potential are non-negative on a non-negative board |
| Heuristic.Merges | gym_text2048/envs/text2048_withheuristic_env.py:48-49 | `count_merges` summed over the rows `board[i]` and then the columns `board[:,j]`; `BoardMerges` computes it and `MergesNonNegative` bounds it below by 0 |
| Heuristic.BoardMonotonicity | gym_text2048/envs/text2048_withheuristic_env.py:66-67 | `monotonicity` is the sum over `board[i]` plus the sum over `board[:][j]`, which is twice the row sum |
| Heuristic.MonotonicityIsTwiceRows | gym_text2048/envs/text2048_withheuristic_env.py:66-67 | the `board[:][j]` sum equals the row sum, so the total is twice the row sum |
| Heuristic.Monotonicity | gym_text2048/envs/text2048_withheuristic_env.py:66-67 | `score_monotonicity` summed over the rows `board[i]` and over `board[:][j]`, which is row j again; `BoardMonotonicity` computes it and `MonotonicityIsTwiceRows` makes it twice the row sum |
| Heuristic.MonotonicityExample | gym_text2048/envs/text2048_withheuristic_env.py:66-67 | on [[2,1],[2,1]] the term is 4 although its columns contribute nothing |
| Heuristic.EmptyCountIsEmptyCells | gym_text2048/envs/text2048_withheuristic_env.py:29 | `empty` equals the number of cells `_add_random_tile` can pick from |
| Heuristic.ShiftAfterReset | gym_text2048/envs/text2048_withheuristic_env.py:30-31 | `moved_cells` becomes 0 when more than three quarters of the cells are empty, and is otherwise left as it was |
| Heuristic.MostlyEmpty | gym_text2048/envs/text2048_withheuristic_env.py:30 | `empty > size*size*3/4`, compared over the reals; `ShiftAfterReset` restates it as 4·empty > 3·cells |
| Heuristic.TileSum | gym_text2048/envs/text2048_withheuristic_env.py:26 | `np.sum(np.power(board, sum_exp))` for a natural exponent, summed row by row |
| Heuristic.EmptyCount | gym_text2048/envs/text2048_withheuristic_env.py:29 | `size*size - np.count_nonzero(board)`; `EmptyCountIsEmptyCells` equates it with the empty cells a spawn can pick |
| Heuristic.StateValue | gym_text2048/envs/text2048_withheuristic_env.py:73-77 | the weighted sum of the empty count, merges, monotonicity and tile sum, less the shift weight times `moved_cells` |
| Heuristic.BoardValue | gym_text2048/envs/text2048_withheuristic_env.py:24-77 | the state value of a board, with `moved_cells` after the three-quarters rule; `CalculateStateValue` returns it |
| Env.InvalidMoveDone | gym_text2048/envs/text2048_env.py:132-133 | the end rule of a rejected move: more invalid moves than the warm-up, and more than the threshold times all moves; `InvalidMoveDoneBounds` states when it cannot fire |
| Env.InvalidMoveDoneBounds | gym_text2048/envs/text2048_env.py:131-133 | while the invalid counter is at most the move counter, a threshold of 1 or more never ends the episode, nor does a count within the warm-up |
| Env.InvalidMoveDoneExamples | gym_text2048/envs/text2048_env.py:132-133 | with warm-up 16 and threshold 0.1, 17 invalid moves of 17 end the episode, and 17 of 200 or 16 of 16 do not |
| Env.DefaultWeights | gym_text2048/envs/text2048_withheuristic_env.py:12-14 | the keyword defaults: every weight 0, both exponents 1; `DefaultValueZero` shows the state value is then 0 on every board |
| Env.DefaultValueZero | gym_text2048/envs/text2048_withheuristic_env.py:12-14 | under the default weights, all 0, the state value of every board is 0, whatever `moved_cells` holds |
| Env.CompressScanStep | gym_text2048/envs/text2048_env.py:77-82 | one cell of the scan keeps the tiles met so far in order at the top and empty cells up to the cursor, and `count` differs from `i` exactly when an empty cell came before `i` |
| Env.CompressScanDone | gym_text2048/envs/text2048_env.py:74-82 | at the end of the scan the column is the slid column |
| Env.MergeScanMerge | gym_text2048/envs/text2048_env.py:90-93 | merging the pair at i leaves the column on track to the merged column, and adds v+1 to the reward |
| Env.MergeScanSkip | gym_text2048/envs/text2048_env.py:89-90 | skipping index i leaves the column and the reward on track |
| Env.Text2048Env.CopyBoard | gym_text2048/envs/text2048_env.py:120 | `np.copy(board)` returns the board's contents |
| Env.Text2048Env.ViewFromMirror | gym_text2048/envs/text2048_env.py:121 | reading the array through the view gives the rotated contents |
| Env.Text2048Env.MirrorFromView | gym_text2048/envs/text2048_env.py:121 | once the view holds w, the board holds w turned back |
| Env.Text2048Env.SwapInView | gym_text2048/envs/text2048_env.py:78 | the tuple swap exchanges two cells of a view column, and no other view cell changes |
| Env.Text2048Env.SetInView | gym_text2048/envs/text2048_env.py:91-92 | an assignment through the view changes that view cell only |
| Env.Text2048Env.SlideCell | gym_text2048/envs/text2048_env.py:77-82 | one inner step of `_compress` keeps the scan state, touches only column j, and reports a shift exactly when a tile's index changes |
| Env.Text2048Env.CompressColumn | gym_text2048/envs/text2048_env.py:75-82 | the inner loop leaves column j slid, leaves other columns alone, and counts the tiles whose index changed |
| Env.Text2048Env.CompressColumns | gym_text2048/envs/text2048_env.py:72-82 | the column loop slides every view column, totals the moved tiles, and reports a change iff the total is positive |
| Env.Text2048Env.Compress | gym_text2048/envs/text2048_env.py:71-84 | `_compress` turns the view into the slid view in place, sets `moved_cells` to the moved-tile count, and returns true iff it is positive |
| Env.Text2048Env.SetInColumn | gym_text2048/envs/text2048_env.py:91-92 | an assignment to one cell of column j leaves the other columns alone |
| Env.Text2048Env.MergeCell | gym_text2048/envs/text2048_env.py:90-93 | one inner step of `_merge`: an equal pair of tiles at rows i and i+1 becomes v+1 over an empty cell and the gain is v+1; otherwise nothing changes and the gain is 0. The column stays on track to the merged column |
| Env.Text2048Env.MergeColumn | gym_text2048/envs/text2048_env.py:89-93 | the inner loop leaves column j merged, leaves other columns alone, and returns the column's reward |
| Env.Text2048Env.MergeColumns | gym_text2048/envs/text2048_env.py:87-94 | the column loop merges every view column and sums their rewards |
| Env.Text2048Env.Merge | gym_text2048/envs/text2048_env.py:86-94 | `_merge` turns the view into the merged view in place and returns the sum of the exponents the merges produce |
| Env.Text2048Env.AddRandomTile | gym_text2048/envs/text2048_env.py:63-69 | the board in place becomes the board with the pick-th empty cell set to 1 or 2 |
| Env.Text2048Env.CalculateStateValue | gym_text2048/envs/text2048_withheuristic_env.py:24-77 | the returned value is the weighted sum of the board's empty count, merge potential, monotonicity and tile sum, less the shift penalty, and `moved_cells` follows the reset rule; the value is also that of the new `moved_cells`, so a second call on the unchanged board returns the same value, and the board is outside the frame |
| Env.Text2048Env.GetReward | gym_text2048/envs/text2048_withheuristic_env.py:79-83 | the reward is `last_action_score` in the base environment (its `_get_reward` at text2048_env.py:108-109), and `last_action_score` plus the board's state value in the heuristic one |
| Env.Text2048Env.IsDoneNow | gym_text2048/envs/text2048_env.py:96-106 | `_is_done` on the current board |
| Env.Text2048Env.AcceptMove | gym_text2048/envs/text2048_env.py:126-140 | on an accepted move a tile spawns, so the board holds one tile more than after the move and the old tile count minus the merges plus one; the invalid counter falls by one but not below 0, the action and its reward are recorded and added to the score, and the reward and `_is_done` of the new board are returned |
| Env.Text2048Env.RejectMove | gym_text2048/envs/text2048_env.py:129-134 | on a rejected move the invalid counter grows by one, the reward is the penalty, and done follows the warm-up/threshold rule |
| Env.Text2048Env.ApplyMove | gym_text2048/envs/text2048_env.py:121-125 | compress, merge and, on an accepted move, a second compress turn the board into the move's outcome; a rejected move leaves the board unchanged and `moved_cells` at 0 |
| Env.Text2048Env.Play | gym_text2048/envs/text2048_env.py:121-140 | after the bookkeeping, a rejected move leaves the board unchanged, counts an invalid move and returns the penalty and the warm-up/threshold verdict; an accepted one leaves the move's board plus one spawned tile, with the old tile count minus the merges plus one, records the action and its reward, and returns the reward and `_is_done` |
| Env.Text2048Env.Step | gym_text2048/envs/text2048_env.py:116-140 | `step` keeps the object invariant (the invalid counter stays between 0 and the move counter, the score is non-negative), counts the move, copies the board, changes no field but the board, the cells, the counters, the score, the last action and its score and `moved_cells`, and yields either the rejected outcome, with the board unchanged, or the accepted one, whose board is the move's board plus one spawned tile, so it holds the old tile count minus the merges plus one |
| Env.Text2048Env.ClearBoard | gym_text2048/envs/text2048_env.py:149 | `reset` allocates a fresh board without tiles |
| Env.Text2048Env.SpawnStart | gym_text2048/envs/text2048_env.py:149-151 | a fresh empty board with two spawns, holding two tiles (fewer on a board of fewer than two cells) |
| Env.Text2048Env.Reset | gym_text2048/envs/text2048_env.py:142-151 | `reset` zeroes the score and the counters, clears the last action, spawns twice on a fresh board, and in the heuristic subclass (its `reset` at text2048_withheuristic_env.py:85-88) stores the new board's state value after the base reset |
| Env.Text2048Env.constructor | gym_text2048/envs/text2048_env.py:37-57 | the base environment stores its size, penalty, warm-up and threshold (defaults 4, -512, 16, 0.1) and ends construction with `reset` |
| Env.Text2048Env.WithHeuristic | gym_text2048/envs/text2048_withheuristic_env.py:12-22 | the heuristic environment stores its weights, takes the base defaults (-512, 16, 0.1), and its construction ends with its own `reset` |

## Left out

- Observations: `_get_board` (the one-hot `np.eye` projection and the reshape) and `observation_space`. `step` and `reset` return no observation here.
- The `action_space.contains` assert in `step`. It is the precondition `action < 4`.
- Rendering: `render`, `TILE_FORMAT`, `colorize` and the output streams.
- Statistics: `histogram`, `maximum_tile`, `get_histogram` and `reset_histogram`. This includes the histogram update at the start of `reset`.
- Randomness: `seed` and `np_random`. `pick` (the `randint` result) and `u` (the `random()` draw) are parameters. The 0.9/0.1 distribution is not modelled.
- Storage width: the board is `np.int8` in the source. Exponents here are unbounded integers, so an exponent overflow past 127 is not modelled.
- Floating point: the heuristic weights and `invalid_move_threshold` are Dafny `real`s. Their products and comparisons are exact, not IEEE-754.
- Heuristic.TileSum: `sum_exp` is a natural number. The source allows a float exponent for `np.power`.
- `monotonicity_exp` is stored in `Weights` and never used, as in the source, where its uses are commented out.
- Env.Text2048Env.GetReward: `prev_value` is read in the source and never used. The model does not read `last_state_value` there.
- Env.Text2048Env.Step: takes a precondition that `pick` indexes an empty cell of the board after an accepted move. The random draw in the source always does.
- Env.Text2048Env.Play: takes the same precondition as `step` on `pick`.
- Env.Text2048Env.Reset: takes the same kind of precondition for its two spawns.
- Env.Text2048Env.constructor: the four spawn draws come first, so the keyword defaults follow them rather than keeping the source's argument order. `one_hot` is not modelled.
- The gym stack is not part of this model: `gym.Env`, `spaces` and `seeding`.
