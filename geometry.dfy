/** A plane point, the source's [x, y] pair, with image coordinates (y grows downward). */
module Geometry {
  datatype Point = Point(x: real, y: real)
}
