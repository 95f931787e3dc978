/** The fixed shape table of Tetromino.__init__ (tetromino.py): for each of
    the seven types, the size n of its n x n tile matrix and the
    (column, row) slots its four tiles occupy in the initial orientation.
    Row 0 is the top row of the matrix. */
module Shapes {

  datatype Kind = I | O | Z | L | J | S | T

  /** n: 4 for I, 2 for O, 3 for every other type. */
  function Size(kind: Kind): nat {
    match kind
    case I => 4
    case O => 2
    case _ => 3
  }

  /** The occupied (column, row) slots, in the order the source lists them. */
  function Cells(kind: Kind): (cells: seq<(int, int)>)
    ensures |cells| == 4
    ensures forall a, b :: 0 <= a < b < |cells| ==> cells[a] != cells[b]
    ensures forall a :: 0 <= a < |cells| ==> 0 <= cells[a].0 < Size(kind) && 0 <= cells[a].1 < Size(kind)
  {
    match kind
    case I => [(1, 0), (1, 1), (1, 2), (1, 3)]
    case O => [(0, 0), (1, 0), (0, 1), (1, 1)]
    case Z => [(0, 0), (1, 0), (1, 1), (2, 1)]
    case L => [(1, 0), (1, 1), (1, 2), (2, 2)]
    case J => [(1, 0), (1, 1), (1, 2), (0, 2)]
    case S => [(0, 1), (1, 1), (1, 0), (2, 0)]
    case T => [(0, 1), (1, 1), (1, 2), (2, 1)]
  }
}
