/** Integer points on the board. (0, 0) is the bottom-left cell, x grows to
    the right and y grows upwards. The game's Point class (point.py) is not
    part of this model: the modelled code only uses its two integer
    coordinates and `translate`. */
module Points {

  datatype Point = Point(x: int, y: int) {

    /** The point moved by (dx, dy), as Point.translate does. */
    function Translate(dx: int, dy: int): Point {
      Point(x + dx, y + dy)
    }
  }
}
