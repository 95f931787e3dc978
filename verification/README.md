# Tetris 2048 grid engine in Dafny

This project models the simulation core of a Tetris game whose tiles carry
2048-style numbers. It has three parts.

- **Tiles** (`tiles.dfy`, from `tile.py`): a numbered cell. Its number is 2 or 4, and it has an integer position. It can be moved by a vector or turned a quarter about a centre point, using the clockwise matrix for direction 1 and the counter-clockwise one for any other direction.
- **The game grid** (`grid.dfy`, from `game_grid.py`): a `grid_height x grid_width` array of optional tiles, a score and a game-over flag that is never reset. It supports:
  - bounds and occupancy queries;
  - `update_grid`, which places a landed tetromino's tiles;
  - `clearLines`, which empties every full row and adds the numbers on its tiles to the score.
- **Tetrominoes** (`shapes.dfy`, `matrices.dfy`, `tetromino.dfy`, from `tetromino.py`):
  - the shape table for the seven types;
  - spawning above the grid at a chosen column;
  - one-cell moves guarded by `can_be_moved`, and `drop`;
  - rotation. Each tile is turned about the bottom-left corner plus (1, 1), then the `n x n` tile matrix is turned. `canRotate` checks the result and reverts it on failure.

`points.dfy` holds the integer `Point` with `translate`.

A tetromino is a class. It holds the tile-matrix array, which `rotateTileMatrix` replaces, and the bottom-left corner. Its tiles are `Tile` objects whose positions the methods overwrite. Its state is specified through two views:

- `Matrix()`: the tile matrix as a value;
- `Layout()`: slot by slot, where the tile in that slot is.

Every operation is proved against specification functions on these views:

- `Shifted` and `Lowered` for moves;
- `Spun`, `Turned` and `TurnedLayout` for rotations;
- `Movable` for `can_be_moved`;
- `RotationFits` for `canRotate`.

Lemmas then prove the properties of those functions: inverses, four-fold identities, multiset preservation and termination bounds.

The model keeps the source's behaviour where it is surprising:

- **Partial scan in `canRotate`.** The scan stops at the first empty slot of each row (tetromino.py:158-159). Tiles after an empty slot in the same row are never checked, and neither is a row that starts with an empty slot.
  - `LyingITurnsThroughFloor` exhibits the consequence. The I tetromino is laid down in row 1 of its matrix by one clockwise turn (`StandingITurns`). While its corner is at row 0 or below, a second clockwise turn is accepted on every grid, yet puts a tile below row 0. From there `can_be_moved("down")` holds however far it has fallen, so `drop` would not stop.
- **One rotation centre.** Every type turns about `bottom_left_corner + (1, 1)`, and rotation never updates the corner.
- **Rotation directions other than ±1.** For any `rotDir` other than 1, `rotateTile` uses the counter-clockwise matrix. For any `rotDir` other than -1, `rotateTileMatrix` turns clockwise. The revert uses `rotDir * -1`, so it undoes the rotation only for `rotDir` = ±1. The model states the general case as the revert actually computes it.
- **Verdict dropped.** `rotateTetromino` discards the verdict of `canRotate`.
- **No row shifting.** `clearLines` empties full rows without moving the rows above. The shifting code is commented out in the source.
- **Skip rules in `can_be_moved`.**
  - Left/right skips the occupancy check, but not the wall check, for a row whose edge tile has `y >= grid_height`.
  - Down skips a column whose bottommost tile has `y > grid_height`, with a strict comparison.
  - A cell outside the grid is never occupied.

## Model

| member | source | states |
|---|---|---|
| Tiles.InitialNumber | tile.py:23-27 | a new tile's number is 2 or 4, and it is 2 exactly when the draw is 0 |
| Tiles.Rotated | tile.py:83-99 | rotDir 1 maps the offset (dx, dy) from the centre to (dy, -dx); every other rotDir maps it to (-dy, dx) |
| Tiles.RotatedBack | tile.py:83-99 | turning by rotDir and then by -rotDir about the same centre restores the position, for rotDir = ±1 |
| Tiles.FourRotations | tile.py:83-99 | four turns in the same direction about the same centre are the identity |
| Tiles.RotationIsRigid | tile.py:88-99 | the centre stays fixed and the squared distance to it is preserved |
| Tiles.RotatedInjective | tile.py:83-99 | two positions that turn onto the same point were equal |
| Tiles.Tile.constructor | tile.py:21-37 | the number is InitialNumber of the draw (2 or 4); the position is the one given |
| Tiles.Tile.SetPosition | tile.py:73-75 | the position becomes the given point |
| Tiles.Tile.GetPosition | tile.py:78-80 | returns the position and changes nothing |
| Tiles.Tile.RotateTile | tile.py:83-99 | the new position is Rotated of the old one about the centre |
| Tiles.Tile.Move | tile.py:102-103 | the position moves by exactly (dx, dy); the number is a constant and stays |
| Shapes.Cells | tetromino.py:21-71 | each type's table has exactly four distinct (column, row) cells, all inside [0, n)², with n 4 for I, 2 for O and 3 otherwise |
| Matrices.Rows | tetromino.py:73 | the array's rows as a value, entry for entry |
| Matrices.Turned | tetromino.py:181-193 | the quarter-turned matrix: counter-clockwise for -1, clockwise for anything else, entry by entry |
| Matrices.TurnedBack | tetromino.py:181-193 | rotateTileMatrix(-d) after rotateTileMatrix(d) restores the matrix, for d = ±1 |
| Matrices.FourTurns | tetromino.py:181-193 | four same-direction turns are the identity |
| Matrices.TurnedBag | tetromino.py:181-193 | a turn keeps the multiset of entries, so the same tiles stay in the matrix |
| Matrices.ColumnsBag | tetromino.py:186-192 | reading a matrix column by column visits the same multiset of entries |
| Matrices.ReversedBag | tetromino.py:187 | reversing the rows keeps the multiset of entries |
| Grid.ClearedHasNoFullRow | game_grid.py:62-73 | after clearLines no row of a grid with columns is full |
| Grid.ClearedCount | game_grid.py:62-73 | the occupied-cell count drops by exactly width × number of full rows |
| Grid.ClearTwice | game_grid.py:55-89 | a second clearLines changes nothing and scores nothing |
| Grid.GainSnoc | game_grid.py:62-72 | the score gained over rows 0..r is that over rows 0..r-1 plus row r's sum if it is full |
| Grid.GameGrid.constructor | game_grid.py:10-25 | an empty grid of the given size with score 0 and game not over |
| Grid.GameGrid.IsInside | game_grid.py:134-139 | holds iff 0 ≤ row < grid_height and 0 ≤ col < grid_width |
| Grid.GameGrid.IsOccupied | game_grid.py:125-130 | false outside the grid; inside, whether the cell holds a tile |
| Grid.GameGrid.UpdateGrid | game_grid.py:145-159 | every placed tile with an on-grid position is stored at the cell of its position. Every changed cell holds such a tile at its own position, so no other cell changes. game_over becomes true iff it was true or some placed tile lies off the grid. The flag is returned |
| Grid.GameGrid.PlaceColumn | game_grid.py:148-157 | the same, for the tiles of one column of the tetromino's matrix |
| Grid.GameGrid.ClearLines | game_grid.py:55-89 | every full row becomes empty, other rows are unchanged, and the score rises by exactly the sum of the numbers in the full rows (so it never decreases) |
| Grid.GameGrid.RowIsFull | game_grid.py:62-67 | whether every cell of row r holds a tile |
| Grid.GameGrid.ClearRow | game_grid.py:68-73 | empties full row r, leaves every other cell unchanged, and returns the sum of its numbers |
| Tetrominoes.TurnedKeepsTiles | tetromino.py:181-193 | a turned matrix holds only the tetromino's tiles, and none in two slots |
| Tetrominoes.LayoutOfTurned | tetromino.py:181-193 | the layout read off a turned matrix is the turned layout |
| Tetrominoes.SpunTurned | tetromino.py:135-140 | turning the tiles and turning the matrix commute |
| Tetrominoes.SpunBack | tetromino.py:135-139 | turning every tile back the other way restores every tile, for rotDir = ±1 |
| Tetrominoes.TurnedLayoutBack | tetromino.py:150-179 | canRotate's revert with rotDir * -1 undoes the unchecked rotation, tiles and matrix alike, for rotDir = ±1 |
| Tetrominoes.FourSpins | tetromino.py:135-139 | four quarter turns of every tile about the pivot restore every tile |
| Tetrominoes.FourTurnedLayouts | tetromino.py:131-140 | four unchecked rotations in the same direction give back the layout |
| Tetrominoes.ShiftedTwice | tetromino.py:195-218 | two moves are one move by the summed vector |
| Tetrominoes.LoweredOnce | tetromino.py:145-146 | a layout k rows down, moved down once, is k + 1 rows down |
| Tetrominoes.LoweredBottommost | tetromino.py:257-273 | lowering keeps each column's bottommost slot and moves its tile down k rows |
| Tetrominoes.FallBound | tetromino.py:257-273 | while can_be_moved("down") holds, a column's bottommost tile that has not passed row 0 is still above it |
| Tetrominoes.StandingISpun | tetromino.py:129-139 | turning the upright I's tiles clockwise about its pivot lines them up in the pivot's row |
| Tetrominoes.StandingITurns | tetromino.py:21-27 | one clockwise unchecked rotation lays the spawned upright I down in row 1 of its matrix |
| Tetrominoes.LyingITurnsThroughFloor | tetromino.py:150-179 | the second clockwise turn of the lying I at row 0 or below passes canRotate on every grid. Its lowest tile is then below row 0, and can_be_moved("down") holds however far it falls |
| Tetrominoes.NewTiles | tetromino.py:85-95 | fresh tiles, one per shape cell, placed at corner + (col, n-1-row) with the drawn numbers. No tile is in two slots |
| Tetrominoes.TurnedArray | tetromino.py:183-193 | the new array holds the old one's entries, quarter-turned |
| Tetrominoes.Tetromino.constructor | tetromino.py:13-95 | the shape of the type, with every tile at its slot relative to the preview corner, each with its drawn number |
| Tetrominoes.Tetromino.Position | tetromino.py:98-116 | the corner becomes (x, grid_height) and the tile in slot (row, col) is at (x+col, grid_height+(n-1)-row). So every shape tile has 0 ≤ x < grid_width and y ≥ grid_height |
| Tetrominoes.Tetromino.CanBeMoved | tetromino.py:221-273 | ok iff every edge tile facing the direction is clear (Movable). A leftmost tile at x = 0 or a rightmost tile at x = width-1 blocks, even above the grid. A bottommost tile with y ≤ grid_height at y = 0, or with an occupied neighbour, blocks. The occupancy check is skipped above the grid as the source does |
| Tetrominoes.Tetromino.RowClear | tetromino.py:224-254 | the verdict of one row's scan: its leftmost (rightmost) tile, if any, is clear |
| Tetrominoes.Tetromino.ColumnClear | tetromino.py:258-272 | the verdict of one column's scan: its bottommost tile, if any, is clear |
| Tetrominoes.Tetromino.Move | tetromino.py:195-218 | returns whether can_be_moved held before. If not, neither the corner nor any tile changes. If so, the corner and every tile move by (-1,0), (1,0) or (0,-1) |
| Tetrominoes.Tetromino.ShiftTiles | tetromino.py:208-217 | every tile of the matrix moved by (dx, dy) |
| Tetrominoes.Tetromino.ShiftRow | tetromino.py:210-217 | every tile of one row moved by (dx, dy), the other rows unchanged |
| Tetrominoes.Tetromino.RotateTileMatrix | tetromino.py:181-193 | the matrix is replaced by its quarter turn; no tile moves and the corner stays |
| Tetrominoes.Tetromino.Drop | tetromino.py:144-146 | on return can_be_moved("down") is false, and the tetromino, corner and every tile, has come down some k rows |
| Tetrominoes.Tetromino.Fall | tetromino.py:145-146 | the loop of drop ends, with can_be_moved("down") false, once the tetromino has come down some k rows without its tracked lowest tile passing row 0 |
| Tetrominoes.Tetromino.StepDown | tetromino.py:145-146 | a move down allowed by can_be_moved succeeds and lowers the layout and the corner by one more row, still without the tracked lowest tile passing row 0 |
| Tetrominoes.Tetromino.RotateTetromino | tetromino.py:129-142 | with key 1, the unchecked rotation. Otherwise: the rotation if the rotated layout passes canRotate's scan, else the rotation followed by the revert. The revert restores matrix and tile positions exactly for rotDir = ±1 |
| Tetrominoes.Tetromino.RotateUnchecked | tetromino.py:131-140 | every tile turned about corner + (1, 1), then the matrix turned; the corner stays |
| Tetrominoes.Tetromino.SpinTiles | tetromino.py:135-139 | every tile turned a quarter about the centre, the matrix unchanged |
| Tetrominoes.Tetromino.SpinRow | tetromino.py:136-139 | every tile of one row turned, the other rows unchanged |
| Tetrominoes.Tetromino.CanRotate | tetromino.py:150-179 | returns RotationFits of the rotated layout. True leaves the rotation in place, with every inspected tile at x ≥ 0, y ≥ 0, x ≤ width-1 (x ≤ width-2 for S and Z) and on a free cell. False leaves the rotation followed by rotDir * -1 |
| Tetrominoes.Tetromino.RotateAndCheck | tetromino.py:152-179 | the unchecked rotation, then the verdict of the scan on the rotated tetromino |
| Tetrominoes.Tetromino.Revert | tetromino.py:162 | the unchecked rotation by rotDir * -1, which turns the tiles and the matrix by -rotDir |
| Tetrominoes.Tetromino.TilesFit | tetromino.py:156-179 | whether every tile the row-by-row scan reaches, up to each row's first empty slot, fits |
| Tetrominoes.Tetromino.RowFits | tetromino.py:157-177 | the same, for one row |

## Left out

- Drawing, colours and the display are not modelled. This covers `draw`, `display`, `draw_grid`, `draw_boundaries`, `draw_information_grid`, `Tile.draw` and `updateTileColor`. They are visual output only.
- `Tetris_2048.py` is not part of this model. That file holds the main loop, the menu, keyboard input, `create_tetromino` and the current/next tetromino fields the grid keeps for it.
  - The randomly chosen type is a constructor parameter.
  - The column of `position` is a parameter.
  - The tile-number draws are parameters too.
- Tetrominoes.Tetromino.constructor: the preview corner x is `grid_width + 0.5` for every type but O, and `full_grid_width` is `grid_width + grid_width/3`. Both are fractional. The model uses the integer corner `(grid_width + 1, 1)` for every type and leaves `full_grid_width` out. Only the corner set by `position` takes part in the game.
- Tetrominoes.Tetromino.Position requires the shape cells of the matrix to still hold tiles. That is the state after construction, when the source calls it. After a rotation the source would fail on an empty slot.
- Tetrominoes.Tetromino.Drop requires some column's bottommost tile to be at or above row 0. Without that, the source loop does not stop (see `LyingITurnsThroughFloor`), and a total method cannot model that.
- Grid.GameGrid.UpdateGrid requires the tiles' array to be a different array from the grid's own. Aliasing of the two is not modelled, and the source never passes the grid's matrix. It also requires at least one row, as the source reads `tiles_to_place[0]`.
- Tetrominoes.Tetromino.RotateTetromino and Tetrominoes.Tetromino.CanRotate do not state that the revert restores the state for a `rotDir` other than ±1, because it does not: the revert then repeats the same turn. Their contracts state what is computed instead.
- Structure:
  - The nested loops of `move`, `rotateTetromino`, `canRotate`, `update_grid` and `can_be_moved` are split into one method per loop.
  - `canRotate` computes the scan's verdict first (`RotateAndCheck`) and applies the revert (`Revert`) after it. It reverts with the same unchecked rotation the source calls, at the first failing check.
  - The loop of `drop` is the method `Fall`, and one pass of it is `StepDown`. The ghost step count they carry is what proves that the loop ends.
  - The key-1 branch of `rotateTetromino` is the method `RotateUnchecked`.
- Directions are the datatype `Left | Right | Down`. The source treats every string other than "left" and "right" as down.
- `Point` is a value, so the copies made by `set_position`, `get_position` and `Tile(position)` need no modelling. `point.py` is not part of this model.
- A tile's number is a constant. The source never changes it in the modelled code: the merge call is commented out.
- Merge, gap removal and row shifting are not modelled, because they are absent or commented out in the source.
