/** The game grid (game_grid.py): a grid_height x grid_width matrix of
    optional tiles, indexed [row][col] with row 0 at the bottom, a score and
    a game-over flag that is never reset. */
module Grid {

  import opened Points
  import opened Tiles
  import opened Matrices

  /** A row is full when every cell holds a tile. */
  predicate IsFull(row: seq<Tile?>) {
    forall c :: 0 <= c < |row| ==> row[c] != null
  }

  /** The sum of the numbers on the tiles of a row. */
  function RowSum(row: seq<Tile?>): nat {
    if row == [] then 0
    else RowSum(row[..|row| - 1]) + (if row[|row| - 1] == null then 0 else row[|row| - 1].number)
  }

  /** The number of cells of a row that hold a tile. */
  function Occupancy(row: seq<Tile?>): nat {
    if row == [] then 0
    else Occupancy(row[..|row| - 1]) + (if row[|row| - 1] == null then 0 else 1)
  }

  function EmptyRow(w: nat): seq<Tile?> {
    seq(w, _ => null)
  }

  /** The matrix clearLines leaves: every full row emptied, every other row
      as it was. No row moves. */
  function Cleared(m: seq<seq<Tile?>>): seq<seq<Tile?>> {
    seq(|m|, r requires 0 <= r < |m| => if IsFull(m[r]) then EmptyRow(|m[r]|) else m[r])
  }

  /** What clearLines adds to the score: the numbers on the tiles of the
      full rows. */
  function Gain(m: seq<seq<Tile?>>): nat {
    if m == [] then 0
    else Gain(m[..|m| - 1]) + (if IsFull(m[|m| - 1]) then RowSum(m[|m| - 1]) else 0)
  }

  lemma GainSnoc(m: seq<seq<Tile?>>, r: nat)
    requires r < |m|
    ensures Gain(m[..r + 1]) == Gain(m[..r]) + (if IsFull(m[r]) then RowSum(m[r]) else 0)
  {
    assert m[..r + 1][..r] == m[..r];
  }

  /** A matrix whose full rows are empty and whose other rows are those of m
      is Cleared(m). */
  lemma ClearedEntries(c: seq<seq<Tile?>>, m: seq<seq<Tile?>>)
    requires |c| == |m| && forall i :: 0 <= i < |m| ==> |c[i]| == |m[i]|
    requires forall i, j :: 0 <= i < |m| && 0 <= j < |m[i]| ==>
      c[i][j] == if IsFull(m[i]) then null else m[i][j]
    ensures c == Cleared(m)
  {
    SameEntries(c, Cleared(m));
  }

  function FullRows(m: seq<seq<Tile?>>): nat {
    if m == [] then 0
    else FullRows(m[..|m| - 1]) + (if IsFull(m[|m| - 1]) then 1 else 0)
  }

  function OccupiedCells(m: seq<seq<Tile?>>): nat {
    if m == [] then 0
    else OccupiedCells(m[..|m| - 1]) + Occupancy(m[|m| - 1])
  }

  lemma {:induction false} FullRowOccupancy(row: seq<Tile?>)
    requires IsFull(row)
    ensures Occupancy(row) == |row|
  {
    if row != [] {
      FullRowOccupancy(row[..|row| - 1]);
    }
  }

  lemma {:induction false} EmptyRowOccupancy(w: nat)
    ensures Occupancy(EmptyRow(w)) == 0
  {
    if w > 0 {
      assert EmptyRow(w)[..w - 1] == EmptyRow(w - 1);
      EmptyRowOccupancy(w - 1);
    }
  }

  lemma ClearedLast(m: seq<seq<Tile?>>)
    requires m != []
    ensures Cleared(m)[..|m| - 1] == Cleared(m[..|m| - 1])
  {
  }

  /** After clearLines no row is full (on a grid at least one cell wide). */
  lemma ClearedHasNoFullRow(m: seq<seq<Tile?>>)
    requires forall r :: 0 <= r < |m| ==> |m[r]| > 0
    ensures forall r :: 0 <= r < |m| ==> !IsFull(Cleared(m)[r])
  {
    forall r | 0 <= r < |m| ensures !IsFull(Cleared(m)[r]) {
      if IsFull(m[r]) {
        assert Cleared(m)[r][0] == null;
      } else {
        assert Cleared(m)[r] == m[r];
      }
    }
  }

  /** clearLines removes exactly grid_width tiles per full row. */
  lemma {:induction false} ClearedCount(m: seq<seq<Tile?>>, w: nat)
    requires HasWidth(m, w)
    ensures OccupiedCells(Cleared(m)) + w * FullRows(m) == OccupiedCells(m)
  {
    if m != [] {
      var k := |m| - 1;
      var c := Cleared(m);
      var before := m[..k];
      ClearedLast(m);
      assert c[..k] == Cleared(before);
      ClearedCount(before, w);
      var f, o, oc := FullRows(before), OccupiedCells(before), OccupiedCells(Cleared(before));
      assert oc + w * f == o;
      assert OccupiedCells(m) == o + Occupancy(m[k]);
      assert OccupiedCells(c) == oc + Occupancy(c[k]);
      if IsFull(m[k]) {
        FullRowOccupancy(m[k]);
        EmptyRowOccupancy(w);
        assert c[k] == EmptyRow(w);
        MulSucc(w, f);
      } else {
        assert c[k] == m[k];
      }
    }
  }

  lemma MulSucc(w: nat, f: nat)
    ensures w * (f + 1) == w * f + w
  {
  }

  /** Clearing a second time changes nothing and scores nothing. */
  lemma {:induction false} ClearTwice(m: seq<seq<Tile?>>)
    requires forall r :: 0 <= r < |m| ==> |m[r]| > 0
    ensures Cleared(Cleared(m)) == Cleared(m)
    ensures Gain(Cleared(m)) == 0
  {
    ClearedHasNoFullRow(m);
    var c := Cleared(m);
    assert forall r :: 0 <= r < |c| ==> Cleared(c)[r] == c[r];
    if m != [] {
      var k := |m| - 1;
      ClearedLast(m);
      ClearTwice(m[..k]);
    }
  }

  /** A placed tile: slot (i, j) of the array holds a tile. */
  ghost predicate Placed(a: array2<Tile?>, i: int, j: int)
    reads a
  {
    0 <= i < a.Length0 && 0 <= j < a.Length1 && a[i, j] != null
  }

  /** Tile t is one of the tiles of a and its position is p. */
  ghost predicate LandedAt(a: array2<Tile?>, t: Tile?, p: Point)
    reads a, t
  {
    t != null && t.position == p &&
    exists i, j :: Placed(a, i, j) && a[i, j] == t
  }

  class GameGrid {
    const gridHeight: int
    const gridWidth: int
    /** tile_matrix[row][col]; null is an empty cell. */
    const tileMatrix: array2<Tile?>
    var score: nat
    var gameOver: bool

    predicate Valid() {
      0 < gridHeight && 0 < gridWidth &&
      tileMatrix.Length0 == gridHeight && tileMatrix.Length1 == gridWidth
    }

    ghost function Cells(): seq<seq<Tile?>>
      reads tileMatrix
    {
      Rows(tileMatrix)
    }

    /** GameGrid(grid_h, grid_w): an empty grid, score 0, game not over. */
    constructor (gridH: int, gridW: int)
      requires 0 < gridH && 0 < gridW
      ensures Valid() && fresh(tileMatrix)
      ensures gridHeight == gridH && gridWidth == gridW
      ensures score == 0 && !gameOver
      ensures forall r, c :: 0 <= r < gridH && 0 <= c < gridW ==> tileMatrix[r, c] == null
    {
      gridHeight, gridWidth := gridH, gridW;
      score := 0;
      tileMatrix := new Tile?[gridH, gridW]((_, _) => null);
      gameOver := false;
    }

    /** Whether (row, col) is a cell of the grid. */
    function IsInside(row: int, col: int): (inside: bool)
      ensures inside <==> 0 <= row < gridHeight && 0 <= col < gridWidth
    {
      if row < 0 || row >= gridHeight then false
      else if col < 0 || col >= gridWidth then false
      else true
    }

    /** Whether (row, col) holds a tile; a cell outside the grid never does. */
    function IsOccupied(row: int, col: int): (occupied: bool)
      requires Valid()
      reads tileMatrix
      ensures !IsInside(row, col) ==> !occupied
      ensures IsInside(row, col) ==> (occupied <==> tileMatrix[row, col] != null)
    {
      if !IsInside(row, col) then false
      else tileMatrix[row, col] != null
    }

    /** Places the tiles of a stopped tetromino, column by column: each tile
        inside the grid goes to the cell at its position, and a tile outside
        the grid ends the game. Returns the (never reset) game-over flag. */
    method UpdateGrid(tilesToPlace: array2<Tile?>) returns (over: bool)
      requires Valid() && 0 < tilesToPlace.Length0 && tilesToPlace != tileMatrix
      modifies this`gameOver, tileMatrix
      ensures over == gameOver
      ensures gameOver <==>
                (old(gameOver) || exists i, j :: Placed(tilesToPlace, i, j) && !OnGrid(tilesToPlace[i, j]))
      ensures forall i, j :: Placed(tilesToPlace, i, j) && OnGrid(tilesToPlace[i, j]) ==>
                LandedAt(tilesToPlace, CellAt(tilesToPlace[i, j].position), tilesToPlace[i, j].position)
      ensures forall r, c :: Changed(r, c) ==> LandedAt(tilesToPlace, tileMatrix[r, c], Point(c, r))
    {
      var nCols := tilesToPlace.Length1;
      for col := 0 to nCols
        invariant gameOver <==>
                  (old(gameOver) || exists i, j :: j < col && Placed(tilesToPlace, i, j) && !OnGrid(tilesToPlace[i, j]))
        invariant forall i, j :: j < col && Placed(tilesToPlace, i, j) && OnGrid(tilesToPlace[i, j]) ==>
                    LandedAt(tilesToPlace, CellAt(tilesToPlace[i, j].position), tilesToPlace[i, j].position)
        invariant forall r, c :: Changed(r, c) ==> LandedAt(tilesToPlace, tileMatrix[r, c], Point(c, r))
      {
        PlaceColumn(tilesToPlace, col);
      }
      over := gameOver;
    }

    /** One pass of the outer loop of update_grid: the tiles of column col of
        a, from the top row down, each copied to the cell at its position, or
        the game over flag raised for one outside the grid. */
    method PlaceColumn(a: array2<Tile?>, col: int)
      requires Valid() && 0 <= col < a.Length1 && a != tileMatrix
      modifies this`gameOver, tileMatrix
      ensures gameOver <==> (old(gameOver) || exists i :: Placed(a, i, col) && !OnGrid(a[i, col]))
      ensures forall i :: Placed(a, i, col) && OnGrid(a[i, col]) ==>
                LandedAt(a, CellAt(a[i, col].position), a[i, col].position)
      ensures forall r, c :: Changed(r, c) ==> LandedAt(a, tileMatrix[r, c], Point(c, r))
    {
      for row := 0 to a.Length0
        invariant gameOver <==> (old(gameOver) || exists i :: i < row && Placed(a, i, col) && !OnGrid(a[i, col]))
        invariant forall i :: i < row && Placed(a, i, col) && OnGrid(a[i, col]) ==>
                    LandedAt(a, CellAt(a[i, col].position), a[i, col].position)
        invariant forall r, c :: Changed(r, c) ==> LandedAt(a, tileMatrix[r, c], Point(c, r))
      {
        if a[row, col] != null {
          var pos := a[row, col].GetPosition();
          assert Placed(a, row, col);
          if IsInside(pos.y, pos.x) {
            tileMatrix[pos.y, pos.x] := a[row, col];
          } else {
            gameOver := true;
          }
        }
      }
    }

    /** Slot (i, j) comes before slot (row, col) in the column-by-column scan. */
    predicate Before(i: int, j: int, row: int, col: int) {
      j < col || (j == col && i < row)
    }

    /** The tile's position is a cell of the grid. */
    ghost predicate OnGrid(t: Tile)
      reads t
    {
      IsInside(t.position.y, t.position.x)
    }

    /** What the grid holds at p, null outside the grid. */
    function CellAt(p: Point): Tile?
      requires Valid()
      reads tileMatrix
    {
      if IsInside(p.y, p.x) then tileMatrix[p.y, p.x] else null
    }

    /** Cell (r, c) holds something else than it did on entry. */
    twostate predicate Changed(r: int, c: int)
      requires Valid()
      reads tileMatrix
    {
      0 <= r < gridHeight && 0 <= c < gridWidth && tileMatrix[r, c] != old(tileMatrix[r, c])
    }

    /** Empties every full row, scanning from the bottom row up, and adds the
        numbers on the removed tiles to the score. Rows above a cleared row
        stay where they are. */
    method ClearLines()
      requires Valid()
      modifies this`score, tileMatrix
      ensures Cells() == Cleared(old(Cells()))
      ensures score == old(score) + Gain(old(Cells()))
      ensures score >= old(score)
    {
      var col := tileMatrix.Length1;
      var row := tileMatrix.Length0;
      var gained: nat := 0;
      ghost var m := old(Cells());
      for r := 0 to row
        modifies tileMatrix
        invariant forall i, j :: 0 <= i < r && 0 <= j < col ==>
          tileMatrix[i, j] == if IsFull(m[i]) then null else m[i][j]
        invariant forall i, j :: r <= i < row && 0 <= j < col ==> tileMatrix[i, j] == m[i][j]
        invariant gained == Gain(m[..r])
      {
        assert Cells()[r] == m[r];
        var rowFull := RowIsFull(r);
        GainSnoc(m, r);
        if rowFull {
          var sum := ClearRow(r);
          gained := gained + sum;
        }
      }
      score := score + gained;
      assert m[..row] == m;
      ClearedEntries(Cells(), m);
    }

    /** The scan of clearLines over row r: whether every cell of it holds a
        tile. */
    method RowIsFull(r: int) returns (rowFull: bool)
      requires Valid() && 0 <= r < gridHeight
      ensures rowFull == IsFull(Cells()[r])
    {
      rowFull := true;
      for c := 0 to gridWidth
        invariant rowFull
        invariant forall j :: 0 <= j < c ==> tileMatrix[r, j] != null
      {
        if tileMatrix[r, c] == null {
          rowFull := false;
          break;
        }
      }
    }

    /** The clearing of a full row r in clearLines: every cell of the row
        emptied, nothing else changed, and the numbers of its tiles summed. */
    method ClearRow(r: int) returns (sum: nat)
      requires Valid() && 0 <= r < gridHeight && IsFull(Cells()[r])
      modifies tileMatrix
      ensures forall j :: 0 <= j < gridWidth ==> tileMatrix[r, j] == null
      ensures forall i, j :: 0 <= i < gridHeight && i != r && 0 <= j < gridWidth ==>
        tileMatrix[i, j] == old(tileMatrix[i, j])
      ensures sum == RowSum(old(Cells())[r])
    {
      ghost var line := Cells()[r];
      sum := 0;
      for c := 0 to gridWidth
        invariant forall i, j :: 0 <= i < gridHeight && i != r && 0 <= j < gridWidth ==>
          tileMatrix[i, j] == old(tileMatrix[i, j])
        invariant forall j :: 0 <= j < c ==> tileMatrix[r, j] == null
        invariant forall j :: c <= j < gridWidth ==> tileMatrix[r, j] == line[j]
        invariant sum == RowSum(line[..c])
      {
        assert line[..c + 1][..c] == line[..c];
        sum := sum + tileMatrix[r, c].number;
        tileMatrix[r, c] := null;
      }
      assert line[..gridWidth] == line;
    }
  }
}
