/** Numbered tiles (tile.py): a number and a position that the tile's own
    methods overwrite. */
module Tiles {

  import opened Points

  /** The number a new tile shows, from the draw random.randint(0, 1). */
  function InitialNumber(draw: int): (number: nat)
    ensures number == 2 || number == 4
    ensures number == 2 <==> draw == 0
  {
    if draw == 0 then 2 else 4
  }

  /** A 2x2 integer matrix, row by row: ((a, b), (c, d)) is [[a, b], [c, d]]. */
  type Matrix2 = ((int, int), (int, int))

  const Clockwise: Matrix2 := ((0, 1), (-1, 0))
  const CounterClockwise: Matrix2 := ((0, -1), (1, 0))

  /** The matrix-vector product numpy.dot computes for a 2x2 matrix. */
  function Dot(m: Matrix2, v: (int, int)): (int, int) {
    (m.0.0 * v.0 + m.0.1 * v.1, m.1.0 * v.0 + m.1.1 * v.1)
  }

  /** Where rotateTile moves a tile at p about the centre c: rotDir == 1
      applies the clockwise matrix to the offset from c, every other rotDir
      the counter-clockwise one. */
  function Rotated(p: Point, c: Point, rotDir: int): (q: Point)
    ensures rotDir == 1 ==> q.x - c.x == p.y - c.y && q.y - c.y == -(p.x - c.x)
    ensures rotDir != 1 ==> q.x - c.x == -(p.y - c.y) && q.y - c.y == p.x - c.x
  {
    var offset := Dot(if rotDir == 1 then Clockwise else CounterClockwise, (p.x - c.x, p.y - c.y));
    Point(offset.0 + c.x, offset.1 + c.y)
  }

  function SquaredDistance(p: Point, q: Point): nat {
    (p.x - q.x) * (p.x - q.x) + (p.y - q.y) * (p.y - q.y)
  }

  /** Rotating back with the opposite direction restores the position. */
  lemma RotatedBack(p: Point, c: Point, rotDir: int)
    requires rotDir == 1 || rotDir == -1
    ensures Rotated(Rotated(p, c, rotDir), c, -rotDir) == p
  {
  }

  /** Four rotations in the same direction are the identity. */
  lemma FourRotations(p: Point, c: Point, rotDir: int)
    ensures Rotated(Rotated(Rotated(Rotated(p, c, rotDir), c, rotDir), c, rotDir), c, rotDir) == p
  {
  }

  /** The centre stays where it is and every point keeps its distance to it. */
  lemma RotationIsRigid(p: Point, c: Point, rotDir: int)
    ensures Rotated(c, c, rotDir) == c
    ensures SquaredDistance(Rotated(p, c, rotDir), c) == SquaredDistance(p, c)
  {
  }

  /** Two points that rotate onto the same point were the same point. */
  lemma RotatedInjective(p: Point, q: Point, c: Point, rotDir: int)
    requires Rotated(p, c, rotDir) == Rotated(q, c, rotDir)
    ensures p == q
  {
  }

  class Tile {
    /** The number on the tile. The modelled code assigns it only here
        (merging, which would double it, is not part of the source). */
    const number: nat
    var position: Point

    /** Tile(position): the number comes from the draw, the position is copied. */
    constructor (position: Point, draw: int)
      ensures number == InitialNumber(draw)
      ensures number == 2 || number == 4
      ensures this.position == position
    {
      number := InitialNumber(draw);
      this.position := position;
    }

    method SetPosition(p: Point)
      modifies this
      ensures position == p
    {
      position := p;
    }

    method GetPosition() returns (p: Point)
      ensures p == position
    {
      p := position;
    }

    /** Rotates the tile by 90 degrees about the centre. */
    method RotateTile(center: Point, rotDir: int)
      modifies this
      ensures position == Rotated(old(position), center, rotDir)
    {
      var offset := Dot(if rotDir == 1 then Clockwise else CounterClockwise,
                        (position.x - center.x, position.y - center.y));
      position := Point(offset.0 + center.x, offset.1 + center.y);
    }

    /** Moves the tile by dx along x and dy along y. */
    method Move(dx: int, dy: int)
      modifies this
      ensures position == old(position).Translate(dx, dy)
      ensures position.x - old(position).x == dx && position.y - old(position).y == dy
    {
      position := position.Translate(dx, dy);
    }
  }
}
