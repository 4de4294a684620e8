/** Value types of the layout engine: the size and the position of an element. */
module Geometry {

  /** Height and width of an element; widths are what the layout arranges. */
  datatype Size = Size(height: real, width: real)

  /** A point in 3D space; the layout writes x and y, and never z. */
  datatype Position = Position(x: real, y: real, z: real)

  /** Every element starts at the origin. */
  const Origin: Position := Position(0.0, 0.0, 0.0)

  /** Half of the width: the distance from an element's centre to either of its edges. */
  function HalfWidth(s: Size): (h: real)
    ensures h + h == s.width
    ensures s.width >= 0.0 ==> 0.0 <= h <= s.width
  {
    s.width / 2.0
  }
}
