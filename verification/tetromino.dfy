/** A tetromino (tetromino.py): an n x n matrix of tiles with a bottom-left
    corner on the grid, moved one cell at a time, rotated about the point
    diagonally above its corner and dropped until it rests. */
module Tetrominoes {
  import opened Points
  import opened Tiles
  import opened Matrices
  import opened Shapes
  import opened Grid

  datatype Direction = Left | Right | Down

  datatype Option<T> = None | Some(value: T)

  /** Where the tiles of a tetromino are: slot [row][col] of its tile matrix
      holds the position of the tile in that slot, or None when it is empty. */
  type Layout = seq<seq<Option<Point>>>

  /** The unit step of a move in each direction. */
  function Delta(dir: Direction): (int, int) {
    match dir
    case Left => (-1, 0)
    case Right => (1, 0)
    case Down => (0, -1)
  }

  function MovedSlot(s: Option<Point>, dx: int, dy: int): Option<Point> {
    match s
    case None => None
    case Some(p) => Some(p.Translate(dx, dy))
  }

  /** Every tile moved by (dx, dy); the slots stay as they are. */
  function Shifted(l: Layout, dx: int, dy: int): (l': Layout)
    requires IsSquare(l)
    ensures |l'| == |l| && IsSquare(l')
    ensures forall r, c :: 0 <= r < |l| && 0 <= c < |l| ==> l'[r][c] == MovedSlot(l[r][c], dx, dy)
  {
    seq(|l|, r requires 0 <= r < |l| => seq(|l|, c requires 0 <= c < |l| => MovedSlot(l[r][c], dx, dy)))
  }

  /** The layout k cells lower. */
  function Lowered(l: Layout, k: nat): (l': Layout)
    requires IsSquare(l)
    ensures IsSquare(l') && |l'| == |l|
  {
    Shifted(l, 0, -(k as int))
  }

  function SpunSlot(s: Option<Point>, center: Point, rotDir: int): Option<Point> {
    match s
    case None => None
    case Some(p) => Some(Rotated(p, center, rotDir))
  }

  /** Every tile turned a quarter about center; the slots stay as they are. */
  function Spun(l: Layout, center: Point, rotDir: int): (l': Layout)
    requires IsSquare(l)
    ensures |l'| == |l| && IsSquare(l')
    ensures forall r, c :: 0 <= r < |l| && 0 <= c < |l| ==> l'[r][c] == SpunSlot(l[r][c], center, rotDir)
  {
    seq(|l|, r requires 0 <= r < |l| => seq(|l|, c requires 0 <= c < |l| => SpunSlot(l[r][c], center, rotDir)))
  }

  /** What an unchecked rotation makes of a layout: each tile turned about
      center, then the slots of the matrix turned the same way. */
  function TurnedLayout(l: Layout, center: Point, rotDir: int): (l': Layout)
    requires IsSquare(l)
    ensures |l'| == |l| && IsSquare(l')
  {
    Turned(Spun(l, center, rotDir), rotDir)
  }

  /** The rotation centre: one cell right of and one cell above the corner. */
  function Pivot(corner: Point): Point {
    corner.Translate(1, 1)
  }

  /** Slot (r, c) is the first filled slot of row r. */
  predicate Leftmost(l: Layout, r: int, c: int) {
    0 <= r < |l| && 0 <= c < |l[r]| && l[r][c].Some? &&
    forall c' :: 0 <= c' < c ==> l[r][c'].None?
  }

  /** Slot (r, c) is the last filled slot of row r. */
  predicate Rightmost(l: Layout, r: int, c: int) {
    0 <= r < |l| && 0 <= c < |l[r]| && l[r][c].Some? &&
    forall c' :: c < c' < |l[r]| ==> l[r][c'].None?
  }

  /** Slot (r, c) is the lowest filled slot of column c. */
  predicate Bottommost(l: Layout, r: int, c: int) {
    0 <= r < |l| && 0 <= c < |l[r]| && l[r][c].Some? &&
    forall r' :: r < r' < |l| && c < |l[r']| ==> l[r'][c].None?
  }

  /** A leftmost tile at p lets the tetromino go left: it is not in column 0
      and, unless it is at or above the top of the grid, the cell on its left
      is empty. */
  predicate LeftClear(p: Point, height: int, grid: GameGrid)
    requires grid.Valid()
    reads grid.tileMatrix
  {
    p.x != 0 && (p.y >= height || !grid.IsOccupied(p.y, p.x - 1))
  }

  /** The mirror image of LeftClear for a rightmost tile. */
  predicate RightClear(p: Point, height: int, width: int, grid: GameGrid)
    requires grid.Valid()
    reads grid.tileMatrix
  {
    p.x != width - 1 && (p.y >= height || !grid.IsOccupied(p.y, p.x + 1))
  }

  /** A bottommost tile at p lets the tetromino go down: it is more than one
      row above the top of the grid, or it is not in row 0 and the cell below
      it is empty. */
  predicate DownClear(p: Point, height: int, grid: GameGrid)
    requires grid.Valid()
    reads grid.tileMatrix
  {
    p.y > height || (p.y != 0 && !grid.IsOccupied(p.y - 1, p.x))
  }

  /** The check can_be_moved makes of slot (r, c): if it is an edge tile
      facing dir, it is clear. */
  predicate EdgeClear(dir: Direction, l: Layout, r: int, c: int, height: int, width: int, grid: GameGrid)
    requires grid.Valid()
    requires 0 <= r < |l| && 0 <= c < |l[r]|
    reads grid.tileMatrix
  {
    match dir
    case Left => Leftmost(l, r, c) ==> LeftClear(l[r][c].value, height, grid)
    case Right => Rightmost(l, r, c) ==> RightClear(l[r][c].value, height, width, grid)
    case Down => Bottommost(l, r, c) ==> DownClear(l[r][c].value, height, grid)
  }

  /** The verdict of can_be_moved: every edge tile facing dir is clear. */
  predicate Movable(dir: Direction, l: Layout, height: int, width: int, grid: GameGrid)
    requires grid.Valid()
    reads grid.tileMatrix
  {
    forall r, c :: 0 <= r < |l| && 0 <= c < |l[r]| ==> EdgeClear(dir, l, r, c, height, width, grid)
  }

  /** Slot (r, c) is one that canRotate inspects: the scan of a row stops at
      its first empty slot, so every slot of row r up to c must hold a tile. */
  predicate Inspected(l: Layout, r: int, c: int) {
    0 <= r < |l| && 0 <= c < |l[r]| &&
    forall c' :: 0 <= c' <= c ==> l[r][c'].Some?
  }

  /** An inspected tile at p passes canRotate: inside the columns (S and Z
      must also stay off the last column), not below row 0, and on a free
      cell. */
  predicate TileFits(p: Point, kind: Kind, width: int, grid: GameGrid)
    requires grid.Valid()
    reads grid.tileMatrix
  {
    p.x >= 0 &&
    (if kind == S || kind == Z then p.x < width - 1 else p.x <= width - 1) &&
    p.y >= 0 && !grid.IsOccupied(p.y, p.x)
  }

  /** The verdict of canRotate on the rotated layout l. */
  predicate RotationFits(l: Layout, kind: Kind, width: int, grid: GameGrid)
    requires grid.Valid()
    reads grid.tileMatrix
  {
    forall r, c :: 0 <= r < |l| && 0 <= c < |l[r]| && Inspected(l, r, c) ==> TileFits(l[r][c].value, kind, width, grid)
  }

  /** The bottom-left corner of a tetromino that is shown as the next one,
      to the right of the grid. */
  function PreviewCorner(width: int): Point {
    Point(width + 1, 1)
  }

  /** The layout read off a tile matrix, given where each tile is. */
  function LayoutOf(m: seq<seq<Tile?>>, at: map<Tile, Point>): (l: Layout)
    ensures |l| == |m| && forall r :: 0 <= r < |m| ==> |l[r]| == |m[r]|
  {
    seq(|m|, r requires 0 <= r < |m| =>
      seq(|m[r]|, c requires 0 <= c < |m[r]| =>
        if m[r][c] == null || m[r][c] !in at then None else Some(at[m[r][c]])))
  }

  /** No tile fills two slots of m. */
  predicate NoTileTwice(m: seq<seq<Tile?>>) {
    forall r, c, r', c' ::
      (0 <= r < |m| && 0 <= c < |m[r]| && 0 <= r' < |m| && 0 <= c' < |m[r']| &&
       m[r][c] != null && m[r][c] == m[r'][c']) ==> r == r' && c == c'
  }

  /** Every tile in m is one of tiles. */
  predicate TilesAmong(m: seq<seq<Tile?>>, tiles: set<Tile>) {
    forall r, c :: 0 <= r < |m| && 0 <= c < |m[r]| && m[r][c] != null ==> m[r][c] in tiles
  }

  /** A quarter turn of the matrix keeps the tiles and puts no tile in two
      slots. */
  lemma TurnedKeepsTiles(m: seq<seq<Tile?>>, tiles: set<Tile>, rotDir: int)
    requires IsSquare(m) && TilesAmong(m, tiles) && NoTileTwice(m)
    ensures TilesAmong(Turned(m, rotDir), tiles) && NoTileTwice(Turned(m, rotDir))
  {
    var t, n := Turned(m, rotDir), |m|;
    forall r, c, r', c' |
      0 <= r < n && 0 <= c < n && 0 <= r' < n && 0 <= c' < n && t[r][c] != null && t[r][c] == t[r'][c']
      ensures r == r' && c == c'
    {
      var (i, j) := TurnedFrom(rotDir, n, r, c);
      var (i', j') := TurnedFrom(rotDir, n, r', c');
      assert m[i][j] == m[i'][j'];
    }
  }

  /** Four distinct (column, row) slots of an n x n matrix. */
  predicate WellShaped(cells: seq<(int, int)>, n: int) {
    |cells| == 4 &&
    (forall a, b :: 0 <= a < b < |cells| ==> cells[a] != cells[b]) &&
    forall a :: 0 <= a < |cells| ==> 0 <= cells[a].0 < n && 0 <= cells[a].1 < n
  }

  /** Where the tile in slot (r, c) of a is, if there is one. */
  ghost function SlotAt(a: array2<Tile?>, r: int, c: int): Option<Point>
    requires 0 <= r < a.Length0 && 0 <= c < a.Length1
    reads a, a[r, c]
  {
    if a[r, c] == null then None else Some(a[r, c].position)
  }

  /** Slot (r, c) of an n x n tile matrix whose filled slots are the
      (column, row) pairs in cells and whose bottom-left corner is at corner. */
  function PlacedSlot(cells: seq<(int, int)>, corner: Point, n: int, r: int, c: int): Option<Point> {
    if (c, r) in cells then Some(Point(corner.x + c, corner.y + (n - 1) - r)) else None
  }

  /** The slot of an n x n matrix that a quarter turn brings to slot (i, j). */
  function TurnedFrom(rotDir: int, n: int, i: int, j: int): (int, int) {
    if rotDir == -1 then (j, n - 1 - i) else (n - 1 - j, i)
  }

  /** Reading the layout off a turned matrix is turning the layout. */
  lemma LayoutOfTurned(m: seq<seq<Tile?>>, at: map<Tile, Point>, rotDir: int)
    requires IsSquare(m)
    ensures IsSquare(LayoutOf(m, at))
    ensures LayoutOf(Turned(m, rotDir), at) == Turned(LayoutOf(m, at), rotDir)
  {
    var a, b := LayoutOf(Turned(m, rotDir), at), Turned(LayoutOf(m, at), rotDir);
    var n := |m|;
    forall i, j | 0 <= i < n && 0 <= j < n
      ensures a[i][j] == b[i][j]
    {
      var (i', j') := TurnedFrom(rotDir, n, i, j);
      assert Turned(m, rotDir)[i][j] == m[i'][j'];
      assert b[i][j] == LayoutOf(m, at)[i'][j'];
    }
    SameEntries(a, b);
  }

  /** Turning the tiles and turning the slots can be done in either order. */
  lemma SpunTurned(l: Layout, center: Point, spin: int, turn: int)
    requires IsSquare(l)
    ensures Spun(Turned(l, turn), center, spin) == Turned(Spun(l, center, spin), turn)
  {
    var a, b := Spun(Turned(l, turn), center, spin), Turned(Spun(l, center, spin), turn);
    var n := |l|;
    forall i, j | 0 <= i < n && 0 <= j < n
      ensures a[i][j] == b[i][j]
    {
      var (i', j') := TurnedFrom(turn, n, i, j);
      assert Turned(l, turn)[i][j] == l[i'][j'];
      assert b[i][j] == Spun(l, center, spin)[i'][j'];
    }
    SameEntries(a, b);
  }

  /** Turning every tile back the other way restores every tile. */
  lemma SpunBack(l: Layout, center: Point, rotDir: int)
    requires IsSquare(l) && (rotDir == 1 || rotDir == -1)
    ensures Spun(Spun(l, center, rotDir), center, -rotDir) == l
  {
    var back := Spun(Spun(l, center, rotDir), center, -rotDir);
    forall i, j | 0 <= i < |l| && 0 <= j < |l|
      ensures back[i][j] == l[i][j]
    {
      if l[i][j].Some? {
        RotatedBack(l[i][j].value, center, rotDir);
      }
    }
    SameEntries(back, l);
  }

  /** The revert of canRotate: an unchecked rotation by -rotDir about the same
      centre undoes one by rotDir, tiles and slots alike. */
  lemma {:induction false} TurnedLayoutBack(l: Layout, center: Point, rotDir: int)
    requires IsSquare(l) && (rotDir == 1 || rotDir == -1)
    ensures TurnedLayout(TurnedLayout(l, center, rotDir), center, -rotDir) == l
  {
    var s := Spun(l, center, rotDir);
    calc {
      TurnedLayout(TurnedLayout(l, center, rotDir), center, -rotDir);
    ==
      Turned(Spun(Turned(s, rotDir), center, -rotDir), -rotDir);
    == { SpunTurned(s, center, -rotDir, rotDir); }
      Turned(Turned(Spun(s, center, -rotDir), rotDir), -rotDir);
    == { TurnedBack(Spun(s, center, -rotDir), rotDir); }
      Spun(s, center, -rotDir);
    == { SpunBack(l, center, rotDir); }
      l;
    }
  }

  /** Four quarter turns of every tile about the same centre restore every
      tile. */
  lemma FourSpins(l: Layout, center: Point, rotDir: int)
    requires IsSquare(l)
    ensures Spun(Spun(Spun(Spun(l, center, rotDir), center, rotDir), center, rotDir), center, rotDir) == l
  {
    var s4 := Spun(Spun(Spun(Spun(l, center, rotDir), center, rotDir), center, rotDir), center, rotDir);
    forall i, j | 0 <= i < |l| && 0 <= j < |l|
      ensures s4[i][j] == l[i][j]
    {
      if l[i][j].Some? {
        FourRotations(l[i][j].value, center, rotDir);
      }
    }
    SameEntries(s4, l);
  }

  /** Four unchecked rotations in the same direction about the same centre
      give back the layout, tiles and slots alike. */
  lemma {:induction false} FourTurnedLayouts(l: Layout, center: Point, rotDir: int)
    requires IsSquare(l)
    ensures TurnedLayout(TurnedLayout(TurnedLayout(TurnedLayout(l, center, rotDir), center, rotDir), center, rotDir), center, rotDir) == l
  {
    var s1 := Spun(l, center, rotDir);
    var s2 := Spun(s1, center, rotDir);
    var s3 := Spun(s2, center, rotDir);
    var s4 := Spun(s3, center, rotDir);
    var t2 := Turned(Turned(s2, rotDir), rotDir);
    calc {
      TurnedLayout(TurnedLayout(l, center, rotDir), center, rotDir);
    ==
      Turned(Spun(Turned(s1, rotDir), center, rotDir), rotDir);
    == { SpunTurned(s1, center, rotDir, rotDir); }
      t2;
    }
    calc {
      TurnedLayout(TurnedLayout(t2, center, rotDir), center, rotDir);
    == { SpunTurned(Turned(s2, rotDir), center, rotDir, rotDir);
         SpunTurned(s2, center, rotDir, rotDir); }
      Turned(Spun(Turned(Turned(Turned(s3, rotDir), rotDir), rotDir), center, rotDir), rotDir);
    == { SpunTurned(Turned(Turned(s3, rotDir), rotDir), center, rotDir, rotDir);
         SpunTurned(Turned(s3, rotDir), center, rotDir, rotDir);
         SpunTurned(s3, center, rotDir, rotDir); }
      Turned(Turned(Turned(Turned(s4, rotDir), rotDir), rotDir), rotDir);
    == { FourTurns(s4, rotDir); FourSpins(l, center, rotDir); }
      l;
    }
  }

  /** Two shifts are one shift by the sum. */
  lemma ShiftedTwice(l: Layout, dx: int, dy: int, dx': int, dy': int)
    requires IsSquare(l)
    ensures Shifted(Shifted(l, dx, dy), dx', dy') == Shifted(l, dx + dx', dy + dy')
  {
    SameEntries(Shifted(Shifted(l, dx, dy), dx', dy'), Shifted(l, dx + dx', dy + dy'));
  }

  /** One more step down: a layout k cells lower, lowered by one, is k + 1
      cells lower. */
  lemma LoweredOnce(l0: Layout, k: nat, before: Layout, after: Layout)
    requires IsSquare(l0) && before == Lowered(l0, k) && after == Shifted(before, 0, -1)
    ensures after == Lowered(l0, k + 1)
  {
    ShiftedTwice(l0, 0, -(k as int), 0, -1);
  }

  /** Lowering keeps the lowest tile of a column the lowest, k rows down. */
  lemma LoweredBottommost(l: Layout, k: nat, r: int, c: int)
    requires IsSquare(l) && Bottommost(l, r, c)
    ensures Bottommost(Lowered(l, k), r, c)
    ensures Lowered(l, k)[r][c].value == Point(l[r][c].value.x, l[r][c].value.y - k)
  {
  }

  /** While can_be_moved allows a move down, the lowest tile of column c,
      which started at row y0 of the grid and has come down k rows without
      passing row 0, is still above row 0. */
  lemma FallBound(l0: Layout, k: nat, r: int, c: int, height: int, width: int, grid: GameGrid)
    requires grid.Valid() && IsSquare(l0) && 0 < height && Bottommost(l0, r, c)
    requires k <= l0[r][c].value.y
    requires Movable(Down, Lowered(l0, k), height, width, grid)
    ensures k < l0[r][c].value.y
  {
    LoweredBottommost(l0, k, r, c);
    assert EdgeClear(Down, Lowered(l0, k), r, c, height, width, grid);
  }

  /** The I tetromino as Tetromino.__init__ and position place it: upright
      in column 1 of its matrix, with its bottom-left corner at (x, y). */
  function StandingI(x: int, y: int): (l: Layout)
    ensures IsSquare(l) && |l| == Size(I)
  {
    seq(4, r requires 0 <= r < 4 => seq(4, c requires 0 <= c < 4 => PlacedSlot(Cells(I), Point(x, y), 4, r, c)))
  }

  /** The I tetromino lying in row 1 of its matrix, one row above its
      corner (x, y). */
  function LyingI(x: int, y: int): (l: Layout)
    ensures IsSquare(l) && |l| == Size(I)
  {
    seq(4, r requires 0 <= r < 4 => seq(4, c requires 0 <= c < 4 => if r == 1 then Some(Point(x + c, y + 1)) else None))
  }

  /** Turning the tiles of the upright I clockwise about its pivot lines
      them up in the row of the pivot; the slots stay as they are. */
  lemma StandingISpun(x: int, y: int)
    ensures forall r, c :: 0 <= r < 4 && 0 <= c < 4 ==>
      Spun(StandingI(x, y), Pivot(Point(x, y)), 1)[r][c] == if c == 1 then Some(Point(x + 3 - r, y + 1)) else None
  {
    var s := Spun(StandingI(x, y), Pivot(Point(x, y)), 1);
    forall r, c | 0 <= r < 4 && 0 <= c < 4
      ensures s[r][c] == if c == 1 then Some(Point(x + 3 - r, y + 1)) else None
    {
      if c == 1 {
        assert (c, r) in Cells(I);
      }
    }
  }

  /** A clockwise rotation lays the upright I down in row 1. */
  lemma {:induction false} StandingITurns(x: int, y: int)
    ensures TurnedLayout(StandingI(x, y), Pivot(Point(x, y)), 1) == LyingI(x, y)
  {
    var a, b := TurnedLayout(StandingI(x, y), Pivot(Point(x, y)), 1), LyingI(x, y);
    var s := Spun(StandingI(x, y), Pivot(Point(x, y)), 1);
    StandingISpun(x, y);
    forall i, j | 0 <= i < 4 && 0 <= j < 4
      ensures a[i][j] == b[i][j]
    {
      assert a[i][j] == s[3 - j][i];
    }
    SameEntries(a, b);
  }

  /** The lying I with its corner on row 0 or below, turned clockwise once
      more: canRotate inspects no slot of the result (each row starts with
      an empty slot), so the rotation is accepted on every grid, although
      the lowest tile then sits below row 0. From there can_be_moved allows
      a move down however far the tetromino has already fallen, so drop
      would never stop. */
  lemma {:induction false} LyingITurnsThroughFloor(x: int, y: int, height: int, width: int, grid: GameGrid)
    requires grid.Valid() && 0 < height && y <= 0
    ensures var turned := TurnedLayout(LyingI(x, y), Pivot(Point(x, y)), 1);
            RotationFits(turned, I, width, grid) &&
            turned[3][2] == Some(Point(x + 1, y - 1)) &&
            forall k: nat :: Movable(Down, Lowered(turned, k), height, width, grid)
  {
    var l := LyingI(x, y);
    var turned := TurnedLayout(l, Pivot(Point(x, y)), 1);
    var s := Spun(l, Pivot(Point(x, y)), 1);
    forall i, j | 0 <= i < 4 && 0 <= j < 4
      ensures turned[i][j] == if j == 2 then Some(Point(x + 1, y + 2 - i)) else None
    {
      assert turned[i][j] == s[3 - j][i];
    }
    forall r, c | 0 <= r < 4 && 0 <= c < 4
      ensures !Inspected(turned, r, c)
    {
      assert turned[r][0] == None;
    }
    forall k: nat
      ensures Movable(Down, Lowered(turned, k), height, width, grid)
    {
      var low := Lowered(turned, k);
      forall r, c | 0 <= r < 4 && 0 <= c < 4
        ensures EdgeClear(Down, low, r, c, height, width, grid)
      {
        if c == 2 && r < 3 {
          assert low[3][2].Some?;
        }
      }
    }
  }

  /** (r, c) comes before (row, col) in row-major order. */
  predicate RowMajorBefore(r: int, c: int, row: int, col: int) {
    r < row || (r == row && c < col)
  }

  /** The tiles of a new tetromino: one fresh tile for each slot in cells,
      placed relative to corner and numbered by the matching draw. */
  method NewTiles(cells: seq<(int, int)>, size: nat, corner: Point, draws: seq<int>)
    returns (matrix: array2<Tile?>, ghost made: set<Tile>)
    requires WellShaped(cells, size) && |draws| == |cells|
    ensures fresh(matrix) && fresh(made) && matrix.Length0 == size && matrix.Length1 == size
    ensures forall r, c :: 0 <= r < size && 0 <= c < size ==>
      SlotAt(matrix, r, c) == PlacedSlot(cells, corner, size, r, c)
    ensures TilesAmong(Rows(matrix), made) && NoTileTwice(Rows(matrix))
    ensures forall i :: 0 <= i < |cells| ==>
      matrix[cells[i].1, cells[i].0] != null && matrix[cells[i].1, cells[i].0].number == InitialNumber(draws[i])
  {
    matrix := new Tile?[size, size]((_, _) => null);
    made := {};
    for i := 0 to |cells|
      invariant forall r, c :: 0 <= r < size && 0 <= c < size ==>
        SlotAt(matrix, r, c) == PlacedSlot(cells[..i], corner, size, r, c)
      invariant forall r, c :: 0 <= r < size && 0 <= c < size && matrix[r, c] != null ==> matrix[r, c] in made
      invariant forall r, c, r', c' ::
        (0 <= r < size && 0 <= c < size && 0 <= r' < size && 0 <= c' < size &&
         matrix[r, c] != null && matrix[r, c] == matrix[r', c']) ==> r == r' && c == c'
      invariant forall j :: 0 <= j < i ==>
        matrix[cells[j].1, cells[j].0] != null && matrix[cells[j].1, cells[j].0].number == InitialNumber(draws[j])
      invariant fresh(made)
    {
      var colIndex, rowIndex := cells[i].0, cells[i].1;
      var position := Point(corner.x + colIndex, corner.y + (size - 1) - rowIndex);
      assert cells[..i + 1] == cells[..i] + [cells[i]];
      assert cells[i] !in cells[..i];
      label Step:
      var tile := new Tile(position, draws[i]);
      matrix[rowIndex, colIndex] := tile;
      made := made + {tile};
      forall r, c | 0 <= r < size && 0 <= c < size
        ensures SlotAt(matrix, r, c) == PlacedSlot(cells[..i + 1], corner, size, r, c)
      {
        if r != rowIndex || c != colIndex {
          assert (c, r) in cells[..i + 1] <==> (c, r) in cells[..i];
          assert SlotAt(matrix, r, c) == old@Step(SlotAt(matrix, r, c));
        }
      }
    }
    assert cells[..|cells|] == cells;
  }

  /** The loops of rotateTileMatrix: a new matrix holding the entries of a,
      filled column by column from the bottom row up, each entry at its slot
      after a quarter turn. */
  method TurnedArray(a: array2<Tile?>, rotDir: int) returns (newArr: array2<Tile?>)
    requires a.Length0 == a.Length1
    ensures fresh(newArr) && newArr.Length0 == a.Length0 && newArr.Length1 == a.Length1
    ensures Rows(newArr) == Turned(Rows(a), rotDir)
  {
    var rows, cols := a.Length0, a.Length1;
    newArr := new Tile?[cols, rows]((_, _) => null);
    if rotDir == -1 {
      for c := 0 to cols
        invariant forall c', r :: 0 <= c' < c && 0 <= r < rows ==> newArr[cols - c' - 1, r] == a[r, c']
      {
        for r := rows downto 0
          invariant forall c', r' :: 0 <= c' < c && 0 <= r' < rows ==> newArr[cols - c' - 1, r'] == a[r', c']
          invariant forall r' :: r <= r' < rows ==> newArr[cols - c - 1, r'] == a[r', c]
        {
          newArr[cols - c - 1, r] := a[r, c];
        }
      }
    } else {
      for c := 0 to cols
        invariant forall c', r :: 0 <= c' < c && 0 <= r < rows ==> newArr[c', rows - r - 1] == a[r, c']
      {
        for r := rows downto 0
          invariant forall c', r' :: 0 <= c' < c && 0 <= r' < rows ==> newArr[c', rows - r' - 1] == a[r', c']
          invariant forall r' :: r <= r' < rows ==> newArr[c, rows - r' - 1] == a[r', c]
        {
          newArr[c, rows - r - 1] := a[r, c];
        }
      }
    }
    ghost var m, t := Rows(a), Turned(Rows(a), rotDir);
    forall i, j | 0 <= i < rows && 0 <= j < rows
      ensures Rows(newArr)[i][j] == t[i][j]
    {
      var (i', j') := TurnedFrom(rotDir, rows, i, j);
      assert a[i', j'] == newArr[i, j];
      assert t[i][j] == m[i'][j'];
    }
    SameEntries(Rows(newArr), t);
  }

  class Tetromino {
    const kind: Kind
    const gridHeight: int
    const gridWidth: int
    /** Rows and columns of the tile matrix. */
    const n: nat
    /** The (column, row) slots filled in the initial orientation. */
    const occupiedTiles: seq<(int, int)>
    var tileMatrix: array2<Tile?>
    var bottomLeftCorner: Point
    /** The four tiles of the tetromino. */
    ghost const tiles: set<Tile>

    /** The matrix is n x n, every tile in it is one of the tetromino's and
        no tile fills two slots. */
    ghost predicate Valid()
      reads this, tileMatrix
    {
      n == Size(kind) && WellShaped(occupiedTiles, n) &&
      0 < gridHeight && 0 < gridWidth &&
      tileMatrix.Length0 == n && tileMatrix.Length1 == n &&
      TilesAmong(Matrix(), tiles) && NoTileTwice(Matrix())
    }

    /** The tile matrix as a value. */
    ghost function Matrix(): (m: seq<seq<Tile?>>)
      reads this, tileMatrix
    {
      Rows(tileMatrix)
    }

    /** Where the tiles are, slot by slot. */
    ghost function Layout(): (l: Layout)
      requires Valid()
      reads this, tileMatrix, tiles
      ensures |l| == n && IsSquare(l)
      ensures forall r, c :: 0 <= r < n && 0 <= c < n ==>
        l[r][c] == SlotAt(tileMatrix, r, c)
    {
      LayoutOf(Matrix(), Positions())
    }

    /** Where each of the tetromino's tiles is. */
    ghost function Positions(): map<Tile, Point>
      reads tiles
    {
      map t | t in tiles :: t.position
    }

    /** A tetromino of the given type waiting beside the grid, its tiles
        numbered by the four draws in turn. */
    constructor (kind: Kind, gridHeight: int, gridWidth: int, draws: seq<int>)
      requires 0 < gridHeight && 0 < gridWidth && |draws| == 4
      ensures Valid() && fresh(tileMatrix) && fresh(tiles)
      ensures this.kind == kind && this.gridHeight == gridHeight && this.gridWidth == gridWidth
      ensures occupiedTiles == Cells(kind)
      ensures bottomLeftCorner == PreviewCorner(gridWidth)
      ensures forall r, c :: 0 <= r < n && 0 <= c < n ==>
        Layout()[r][c] == PlacedSlot(occupiedTiles, bottomLeftCorner, n, r, c)
      ensures forall i :: 0 <= i < |occupiedTiles| ==>
        tileMatrix[occupiedTiles[i].1, occupiedTiles[i].0] != null &&
        tileMatrix[occupiedTiles[i].1, occupiedTiles[i].0].number == InitialNumber(draws[i])
    {
      this.kind := kind;
      this.gridHeight := gridHeight;
      this.gridWidth := gridWidth;
      var cells := Cells(kind);
      var size := Size(kind);
      occupiedTiles := cells;
      n := size;
      var corner := PreviewCorner(gridWidth);
      var matrix;
      ghost var made;
      matrix, made := NewTiles(cells, size, corner, draws);
      tileMatrix := matrix;
      bottomLeftCorner := corner;
      tiles := made;
    }

    /** Puts the tetromino just above the top of the grid with its corner in
        column x (the source draws x at random from 0 to gridWidth - n). The
        slots of the shape must still hold their tiles, as they do before the
        first rotation. */
    method Position(x: int)
      requires Valid()
      requires 0 <= x <= gridWidth - n
      requires forall i :: 0 <= i < |occupiedTiles| ==> tileMatrix[occupiedTiles[i].1, occupiedTiles[i].0] != null
      modifies this, tiles
      ensures Valid() && tileMatrix == old(tileMatrix)
      ensures bottomLeftCorner == Point(x, gridHeight)
      ensures forall r, c :: 0 <= r < n && 0 <= c < n ==>
        Layout()[r][c] == if (c, r) in occupiedTiles then PlacedSlot(occupiedTiles, bottomLeftCorner, n, r, c)
                          else old(Layout())[r][c]
      ensures forall r, c :: 0 <= r < n && 0 <= c < n && (c, r) in occupiedTiles ==>
        Layout()[r][c].Some? && 0 <= Layout()[r][c].value.x < gridWidth && Layout()[r][c].value.y >= gridHeight
    {
      bottomLeftCorner := Point(x, gridHeight);
      for i := 0 to |occupiedTiles|
        invariant Valid() && tileMatrix == old(tileMatrix) && bottomLeftCorner == Point(x, gridHeight)
        invariant forall r, c :: 0 <= r < n && 0 <= c < n ==>
          SlotAt(tileMatrix, r, c) == if (c, r) in occupiedTiles[..i] then PlacedSlot(occupiedTiles, bottomLeftCorner, n, r, c)
                                      else old(SlotAt(tileMatrix, r, c))
      {
        var colIndex, rowIndex := occupiedTiles[i].0, occupiedTiles[i].1;
        var position := Point(bottomLeftCorner.x + colIndex, bottomLeftCorner.y + (n - 1) - rowIndex);
        assert occupiedTiles[..i + 1] == occupiedTiles[..i] + [occupiedTiles[i]];
        label Step:
        tileMatrix[rowIndex, colIndex].SetPosition(position);
        forall r, c | 0 <= r < n && 0 <= c < n
          ensures SlotAt(tileMatrix, r, c) == if (c, r) in occupiedTiles[..i + 1] then PlacedSlot(occupiedTiles, bottomLeftCorner, n, r, c)
                                              else old(SlotAt(tileMatrix, r, c))
        {
          if r != rowIndex || c != colIndex {
            assert SlotAt(tileMatrix, r, c) == old@Step(SlotAt(tileMatrix, r, c));
          }
        }
      }
      assert occupiedTiles[..|occupiedTiles|] == occupiedTiles;
    }

    /** can_be_moved: whether every edge tile facing dir is clear. Left and
        right scan the rows, down scans the columns. */
    method CanBeMoved(dir: Direction, grid: GameGrid) returns (ok: bool)
      requires Valid() && grid.Valid()
      ensures ok == Movable(dir, Layout(), gridHeight, gridWidth, grid)
    {
      var size := tileMatrix.Length0;
      if dir == Left || dir == Right {
        for row := 0 to size
          invariant forall r, c :: 0 <= r < row && 0 <= c < size ==> EdgeClear(dir, Layout(), r, c, gridHeight, gridWidth, grid)
        {
          ok := RowClear(dir, grid, row);
          if !ok {
            return;
          }
        }
      } else {
        for col := 0 to size
          invariant forall r, c :: 0 <= r < size && 0 <= c < col ==> EdgeClear(dir, Layout(), r, c, gridHeight, gridWidth, grid)
        {
          ok := ColumnClear(grid, col);
          assert dir == Down;
          if !ok {
            return;
          }
        }
      }
      return true;
    }

    /** The scan of can_be_moved along one row for a move left or right:
        whether the row's leftmost (rightmost) tile, if any, is clear. */
    method RowClear(dir: Direction, grid: GameGrid, row: int) returns (ok: bool)
      requires Valid() && grid.Valid() && (dir == Left || dir == Right) && 0 <= row < n
      ensures ok == forall c :: 0 <= c < n ==> EdgeClear(dir, Layout(), row, c, gridHeight, gridWidth, grid)
    {
      ghost var l: seq<seq<Option<Point>>> := Layout();
      var size := tileMatrix.Length0;
      for col := 0 to size
        invariant forall c :: 0 <= c < size && (if dir == Left then c < col else size - col <= c) ==> l[row][c].None?
      {
        if dir == Left && tileMatrix[row, col] != null {
          var leftmost := tileMatrix[row, col].GetPosition();
          assert Leftmost(l, row, col) && l[row][col].value == leftmost;
          if leftmost.x == 0 {
            assert !EdgeClear(dir, Layout(), row, col, gridHeight, gridWidth, grid);
            return false;
          }
          if leftmost.y >= gridHeight {
            break;
          }
          if grid.IsOccupied(leftmost.y, leftmost.x - 1) {
            assert !EdgeClear(dir, Layout(), row, col, gridHeight, gridWidth, grid);
            return false;
          }
          break;
        } else if dir == Right && tileMatrix[row, size - 1 - col] != null {
          var rightmost := tileMatrix[row, size - 1 - col].GetPosition();
          assert Rightmost(l, row, size - 1 - col) && l[row][size - 1 - col].value == rightmost;
          if rightmost.x == gridWidth - 1 {
            assert !EdgeClear(dir, Layout(), row, size - 1 - col, gridHeight, gridWidth, grid);
            return false;
          }
          if rightmost.y >= gridHeight {
            break;
          }
          if grid.IsOccupied(rightmost.y, rightmost.x + 1) {
            assert !EdgeClear(dir, Layout(), row, size - 1 - col, gridHeight, gridWidth, grid);
            return false;
          }
          break;
        }
      }
      return true;
    }

    /** The scan of can_be_moved up one column for a move down: whether the
        column's bottommost tile, if any, is clear. */
    method ColumnClear(grid: GameGrid, col: int) returns (ok: bool)
      requires Valid() && grid.Valid() && 0 <= col < n
      ensures ok == forall r :: 0 <= r < n ==> EdgeClear(Down, Layout(), r, col, gridHeight, gridWidth, grid)
    {
      ghost var l: seq<seq<Option<Point>>> := Layout();
      var size := tileMatrix.Length0;
      for row := size downto 0
        invariant forall r :: row <= r < size ==> l[r][col].None?
      {
        if tileMatrix[row, col] != null {
          var bottommost := tileMatrix[row, col].GetPosition();
          assert Bottommost(l, row, col) && l[row][col].value == bottommost;
          if bottommost.y > gridHeight {
            break;
          }
          if bottommost.y == 0 {
            assert !EdgeClear(Down, Layout(), row, col, gridHeight, gridWidth, grid);
            return false;
          }
          if grid.IsOccupied(bottommost.y - 1, bottommost.x) {
            assert !EdgeClear(Down, Layout(), row, col, gridHeight, gridWidth, grid);
            return false;
          }
          break;
        }
      }
      return true;
    }

    /** move: shifts the tetromino one cell in dir when can_be_moved allows
        it, and reports whether it did. */
    method Move(dir: Direction, grid: GameGrid) returns (moved: bool)
      requires Valid() && grid.Valid()
      modifies this, tiles
      ensures Valid() && tileMatrix == old(tileMatrix)
      ensures moved == Movable(dir, old(Layout()), gridHeight, gridWidth, grid)
      ensures moved ==> Layout() == Shifted(old(Layout()), Delta(dir).0, Delta(dir).1) &&
                        bottomLeftCorner == old(bottomLeftCorner).Translate(Delta(dir).0, Delta(dir).1)
      ensures !moved ==> Layout() == old(Layout()) && bottomLeftCorner == old(bottomLeftCorner)
    {
      moved := CanBeMoved(dir, grid);
      if !moved {
        return;
      }
      var (dx, dy) := Delta(dir);
      bottomLeftCorner := bottomLeftCorner.Translate(dx, dy);
      ShiftTiles(dx, dy);
    }

    /** The loops of move: every tile of the matrix moved by (dx, dy), row by
        row. */
    method ShiftTiles(dx: int, dy: int)
      requires Valid()
      modifies tiles
      ensures Layout() == Shifted(old(Layout()), dx, dy)
    {
      ghost var l := Layout();
      var size := tileMatrix.Length0;
      for row := 0 to size
        invariant forall r, c :: 0 <= r < size && 0 <= c < size ==>
          SlotAt(tileMatrix, r, c) == if r < row then MovedSlot(l[r][c], dx, dy) else l[r][c]
      {
        ShiftRow(row, dx, dy);
      }
      SameEntries(Layout(), Shifted(l, dx, dy));
    }

    /** The inner loop of move over one row. */
    method ShiftRow(row: int, dx: int, dy: int)
      requires Valid() && 0 <= row < n
      modifies tiles
      ensures forall r, c :: 0 <= r < n && 0 <= c < n ==>
        SlotAt(tileMatrix, r, c) == if r == row then MovedSlot(old(SlotAt(tileMatrix, r, c)), dx, dy)
                                    else old(SlotAt(tileMatrix, r, c))
    {
      var size := tileMatrix.Length0;
      for col := 0 to size
        invariant forall r, c :: 0 <= r < size && 0 <= c < size ==>
          SlotAt(tileMatrix, r, c) == if r == row && c < col then MovedSlot(old(SlotAt(tileMatrix, r, c)), dx, dy)
                                      else old(SlotAt(tileMatrix, r, c))
      {
        if tileMatrix[row, col] != null {
          label Step:
          tileMatrix[row, col].Move(dx, dy);
          forall r, c | 0 <= r < size && 0 <= c < size && (r != row || c != col)
            ensures SlotAt(tileMatrix, r, c) == old@Step(SlotAt(tileMatrix, r, c))
          {
          }
        }
      }
    }

    /** rotateTileMatrix: moves every tile to its slot in the matrix turned a
        quarter (counter-clockwise for -1, clockwise otherwise); no tile moves
        on the grid. */
    method RotateTileMatrix(rotDir: int)
      requires Valid()
      modifies this
      ensures Valid() && fresh(tileMatrix) && bottomLeftCorner == old(bottomLeftCorner)
      ensures Matrix() == Turned(old(Matrix()), rotDir)
      ensures Layout() == Turned(old(Layout()), rotDir)
    {
      ghost var m, p := Matrix(), Positions();
      var newArr := TurnedArray(tileMatrix, rotDir);
      TurnedKeepsTiles(m, tiles, rotDir);
      LayoutOfTurned(m, p, rotDir);
      ghost var l := Layout();
      assert l == LayoutOf(m, p);
      tileMatrix := newArr;
      assert Positions() == p;
      assert Matrix() == Turned(m, rotDir);
      assert Layout() == LayoutOf(Turned(m, rotDir), p);
    }

    /** drop: moves the tetromino down for as long as can_be_moved allows.
        The loop ends only when the lowest tile of some column starts at or
        above row 0, which is required here. */
    method Drop(grid: GameGrid) returns (ghost k: nat)
      requires Valid() && grid.Valid()
      requires exists r, c :: Bottommost(Layout(), r, c) && Layout()[r][c].value.y >= 0
      modifies this, tiles
      ensures Valid() && tileMatrix == old(tileMatrix)
      ensures !Movable(Down, Layout(), gridHeight, gridWidth, grid)
      ensures Layout() == Lowered(old(Layout()), k)
      ensures bottomLeftCorner == old(bottomLeftCorner).Translate(0, -(k as int))
    {
      ghost var l0: seq<seq<Option<Point>>> := old(Layout());
      ghost var r0, c0 :| Bottommost(l0, r0, c0) && l0[r0][c0].value.y >= 0;
      ghost var corner := bottomLeftCorner;
      SameEntries(Lowered(l0, 0), l0);
      k := Fall(grid, l0, corner, r0, c0);
    }

    /** The loop of drop, from a tetromino that has not yet come down. */
    method Fall(grid: GameGrid, ghost l0: Layout, ghost corner: Point, ghost r: int, ghost c: int)
      returns (ghost k: nat)
      requires grid.Valid() && Fallen(l0, corner, r, c, 0)
      modifies this, tiles
      ensures tileMatrix == old(tileMatrix) && Fallen(l0, corner, r, c, k)
      ensures !Movable(Down, Layout(), gridHeight, gridWidth, grid)
    {
      k := 0;
      while true
        invariant Fallen(l0, corner, r, c, k) && tileMatrix == old(tileMatrix)
        decreases l0[r][c].value.y - k
      {
        var more := CanBeMoved(Down, grid);
        if !more {
          break;
        }
        k := StepDown(grid, l0, corner, r, c, k);
      }
    }

    /** The tetromino has come down k rows from layout l0 and corner corner,
        and the lowest tile of column c of l0 has not passed row 0. */
    ghost predicate Fallen(l0: Layout, corner: Point, r: int, c: int, k: nat)
      reads this, tileMatrix, tiles
    {
      Valid() && IsSquare(l0) && Layout() == Lowered(l0, k) &&
      bottomLeftCorner == corner.Translate(0, -(k as int)) &&
      Bottommost(l0, r, c) && k <= l0[r][c].value.y
    }

    /** The move down in the loop of drop, once can_be_moved has allowed it;
        the move then succeeds, and the tetromino has come down one row
        more. */
    method StepDown(grid: GameGrid, ghost l0: Layout, ghost corner: Point, ghost r: int, ghost c: int, ghost k: nat)
      returns (ghost k': nat)
      requires grid.Valid() && Fallen(l0, corner, r, c, k)
      requires Movable(Down, Layout(), gridHeight, gridWidth, grid)
      modifies this, tiles
      ensures tileMatrix == old(tileMatrix)
      ensures k' == k + 1 && Fallen(l0, corner, r, c, k')
    {
      FallBound(l0, k, r, c, gridHeight, gridWidth, grid);
      k' := k + 1;
      ghost var before: seq<seq<Option<Point>>> := Layout();
      var moved := Move(Down, grid);
      LoweredOnce(l0, k, before, Layout());
    }

    /** rotateTetromino: with key 1, the unchecked rotation; with any other
        key, canRotate, whose verdict is dropped. */
    method RotateTetromino(rotDir: int, grid: GameGrid, key: int)
      requires Valid() && grid.Valid()
      modifies this, tiles
      ensures Valid() && bottomLeftCorner == old(bottomLeftCorner)
      ensures key == 1 ==>
        Matrix() == Turned(old(Matrix()), rotDir) &&
        Layout() == TurnedLayout(old(Layout()), Pivot(bottomLeftCorner), rotDir)
      ensures key != 1 ==>
        var turned := TurnedLayout(old(Layout()), Pivot(bottomLeftCorner), rotDir);
        if RotationFits(turned, kind, gridWidth, grid) then
          Matrix() == Turned(old(Matrix()), rotDir) && Layout() == turned
        else
          Matrix() == Turned(Turned(old(Matrix()), rotDir), -rotDir) &&
          Layout() == TurnedLayout(turned, Pivot(bottomLeftCorner), -rotDir)
      ensures key != 1 && (rotDir == 1 || rotDir == -1) &&
              !RotationFits(TurnedLayout(old(Layout()), Pivot(bottomLeftCorner), rotDir), kind, gridWidth, grid) ==>
        Matrix() == old(Matrix()) && Layout() == old(Layout())
    {
      if key == 1 {
        RotateUnchecked(rotDir);
      } else {
        ghost var m, l := Matrix(), Layout();
        var ok := CanRotate(grid, rotDir);
        if !ok && (rotDir == 1 || rotDir == -1) {
          assert Matrix() == m by { TurnedBack(m, rotDir); }
          assert Layout() == l by { TurnedLayoutBack(l, Pivot(bottomLeftCorner), rotDir); }
        }
      }
    }

    /** The key-1 branch of rotateTetromino: every tile turned a quarter about
        the pivot, then the matrix turned the same way, with no check. */
    method RotateUnchecked(rotDir: int)
      requires Valid()
      modifies this, tiles
      ensures Valid() && bottomLeftCorner == old(bottomLeftCorner)
      ensures Matrix() == Turned(old(Matrix()), rotDir)
      ensures Layout() == TurnedLayout(old(Layout()), Pivot(bottomLeftCorner), rotDir)
    {
      var center := Pivot(bottomLeftCorner);
      SpinTiles(center, rotDir);
      RotateTileMatrix(rotDir);
    }

    /** The loops of rotateTetromino: every tile turned a quarter about center,
        row by row; the matrix is left as it is. */
    method SpinTiles(center: Point, rotDir: int)
      requires Valid()
      modifies tiles
      ensures Layout() == Spun(old(Layout()), center, rotDir)
    {
      ghost var l := Layout();
      var size := tileMatrix.Length0;
      for row := 0 to size
        invariant forall r, c :: 0 <= r < size && 0 <= c < size ==>
          SlotAt(tileMatrix, r, c) == if r < row then SpunSlot(l[r][c], center, rotDir) else l[r][c]
      {
        SpinRow(row, center, rotDir);
      }
      SameEntries(Layout(), Spun(l, center, rotDir));
    }

    /** The inner loop of rotateTetromino over one row. */
    method SpinRow(row: int, center: Point, rotDir: int)
      requires Valid() && 0 <= row < n
      modifies tiles
      ensures forall r, c :: 0 <= r < n && 0 <= c < n ==>
        SlotAt(tileMatrix, r, c) == if r == row then SpunSlot(old(SlotAt(tileMatrix, r, c)), center, rotDir)
                                    else old(SlotAt(tileMatrix, r, c))
    {
      var size := tileMatrix.Length0;
      for col := 0 to size
        invariant forall r, c :: 0 <= r < size && 0 <= c < size ==>
          SlotAt(tileMatrix, r, c) == if r == row && c < col then SpunSlot(old(SlotAt(tileMatrix, r, c)), center, rotDir)
                                      else old(SlotAt(tileMatrix, r, c))
      {
        var tile := tileMatrix[row, col];
        if tile != null {
          label Step:
          tile.RotateTile(center, rotDir);
          forall r, c | 0 <= r < size && 0 <= c < size && (r != row || c != col)
            ensures SlotAt(tileMatrix, r, c) == old@Step(SlotAt(tileMatrix, r, c))
          {
          }
        }
      }
    }

    /** canRotate: rotates unchecked, then inspects the rotated tiles row by
        row; on the first one that does not fit, rotates back the other way
        and reports false. */
    method CanRotate(grid: GameGrid, rotDir: int) returns (ok: bool)
      requires Valid() && grid.Valid()
      modifies this, tiles
      ensures Valid() && bottomLeftCorner == old(bottomLeftCorner)
      ensures ok == RotationFits(TurnedLayout(old(Layout()), Pivot(bottomLeftCorner), rotDir), kind, gridWidth, grid)
      ensures ok ==>
        Matrix() == Turned(old(Matrix()), rotDir) &&
        Layout() == TurnedLayout(old(Layout()), Pivot(bottomLeftCorner), rotDir)
      ensures !ok ==>
        Matrix() == Turned(Turned(old(Matrix()), rotDir), -rotDir) &&
        Layout() == TurnedLayout(TurnedLayout(old(Layout()), Pivot(bottomLeftCorner), rotDir), Pivot(bottomLeftCorner), -rotDir)
    {
      ghost var m, l, center := Matrix(), Layout(), Pivot(bottomLeftCorner);
      ok := RotateAndCheck(grid, rotDir);
      ghost var fits := RotationFits(TurnedLayout(l, center, rotDir), kind, gridWidth, grid);
      assert ok == fits;
      if !ok {
        ghost var m1, l1 := Matrix(), Layout();
        assert m1 == Turned(m, rotDir);
        assert l1 == TurnedLayout(l, center, rotDir);
        Revert(rotDir);
        assert RotationFits(TurnedLayout(l, center, rotDir), kind, gridWidth, grid) == fits;
        assert Matrix() == Turned(m1, -rotDir);
        assert Layout() == TurnedLayout(l1, center, -rotDir);
      }
    }

    /** The revert of canRotate: the unchecked rotation by rotDir * -1. */
    method Revert(rotDir: int)
      requires Valid()
      modifies this, tiles
      ensures Valid() && bottomLeftCorner == old(bottomLeftCorner)
      ensures Matrix() == Turned(old(Matrix()), -rotDir)
      ensures Layout() == TurnedLayout(old(Layout()), Pivot(bottomLeftCorner), -rotDir)
    {
      RotateUnchecked(rotDir * -1);
    }

    /** The first half of canRotate: the unchecked rotation, then the scan of
        the rotated tetromino. */
    method RotateAndCheck(grid: GameGrid, rotDir: int) returns (ok: bool)
      requires Valid() && grid.Valid()
      modifies this, tiles
      ensures Valid() && bottomLeftCorner == old(bottomLeftCorner)
      ensures Matrix() == Turned(old(Matrix()), rotDir)
      ensures Layout() == TurnedLayout(old(Layout()), Pivot(bottomLeftCorner), rotDir)
      ensures ok == RotationFits(Layout(), kind, gridWidth, grid)
    {
      RotateUnchecked(rotDir);
      ok := TilesFit(grid);
    }

    /** The loops of canRotate: whether every tile the row-by-row scan reaches
        fits. */
    method TilesFit(grid: GameGrid) returns (ok: bool)
      requires Valid() && grid.Valid()
      ensures ok == RotationFits(Layout(), kind, gridWidth, grid)
    {
      var size := tileMatrix.Length0;
      for row := 0 to size
        invariant forall r, c :: 0 <= r < row && 0 <= c < size && Inspected(Layout(), r, c) ==>
          TileFits(Layout()[r][c].value, kind, gridWidth, grid)
      {
        ok := RowFits(grid, row);
        if !ok {
          return;
        }
      }
      return true;
    }

    /** The inner loop of canRotate over one row: whether every tile up to the
        row's first empty slot fits. */
    method RowFits(grid: GameGrid, row: int) returns (ok: bool)
      requires Valid() && grid.Valid() && 0 <= row < n
      ensures ok == forall c :: 0 <= c < n && Inspected(Layout(), row, c) ==>
        TileFits(Layout()[row][c].value, kind, gridWidth, grid)
    {
      ghost var l: seq<seq<Option<Point>>> := Layout();
      var size := tileMatrix.Length0;
      for col := 0 to size
        invariant forall c :: 0 <= c < col ==> l[row][c].Some? && TileFits(l[row][c].value, kind, gridWidth, grid)
      {
        if tileMatrix[row, col] == null {
          assert l[row][col] == None;
          assert !Inspected(l, row, col);
          break;
        }
        var currTile := tileMatrix[row, col].GetPosition();
        assert Inspected(l, row, col) && l[row][col].value == currTile;
        if currTile.x < 0 {
          return false;
        }
        if currTile.x > gridWidth - 1 && !(kind == S || kind == Z) {
          return false;
        }
        if (kind == S || kind == Z) && currTile.x >= gridWidth - 1 {
          return false;
        }
        if currTile.y < 0 {
          return false;
        }
        if grid.IsOccupied(currTile.y, currTile.x) {
          return false;
        }
      }
      return true;
    }
  }
}
