/** Points and line segments of the plane (QPointF, QLineF), with exact real
    coordinates. */
module Geometry {

  datatype Point = Point(x: real, y: real)

  /** A segment from p1 to p2. */
  datatype Line = Line(p1: Point, p2: Point)

  function Abs(v: real): (r: real)
    ensures r >= 0.0 && (r == v || r == -v)
  {
    if v < 0.0 then -v else v
  }

  /** The point QPointF() default-constructs. */
  const Origin: Point := Point(0.0, 0.0)
}
