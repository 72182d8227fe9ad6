/** Proximity: the squared distance between two points, and the point of a
    line segment nearest to a given point. Coordinates are exact reals, and
    the perpendicular through the point is intersected with the segment's
    line exactly. */
module Proximities {
  import opened Geometry

  /** A proximity value: the squared distance it was built from. Proximity
      values are ordered by that distance. */
  datatype Proximity = Proximity(sqDist: real)

  function Sq(v: real): real {
    v * v
  }

  /** v itself under a name of its own. It models nothing of the source and
      exists only for the proofs: writing a square as v * Copy(v) lets the
      arithmetic solver derive its sign from the signs of two separate
      factors, which it does not do for v * v. */
  function Copy(v: real): real {
    v
  }

  /** A square is never negative, and positive unless its root is zero. */
  lemma SquareSign(v: real)
    ensures Sq(v) >= 0.0
    ensures v != 0.0 ==> Sq(v) > 0.0
  {
    assert Sq(v) == v * Copy(v);
  }

  /** Squaring is monotone on non-negative reals. */
  lemma SquareMonotone(a: real, b: real)
    requires 0.0 <= a <= b
    ensures Sq(a) <= Sq(b)
  {
    assert Sq(a) == a * Copy(a);
    assert Sq(b) == b * Copy(b);
    assert a * Copy(a) <= a * Copy(b);
    assert a * Copy(b) <= b * Copy(b);
  }

  /** The squared distance dx * dx + dy * dy. */
  function SqDist(p1: Point, p2: Point): real {
    Sq(p1.x - p2.x) + Sq(p1.y - p2.y)
  }

  lemma SqDistSign(p1: Point, p2: Point)
    ensures SqDist(p1, p2) >= 0.0
    ensures SqDist(p1, p2) == 0.0 <==> p1 == p2
  {
    SquareSign(p1.x - p2.x);
    SquareSign(p1.y - p2.y);
  }

  /** Proximity(p1, p2): never negative, and zero exactly for identical
      points. */
  function Between(p1: Point, p2: Point): (r: Proximity)
    ensures r.sqDist >= 0.0
    ensures r.sqDist == 0.0 <==> p1 == p2
  {
    SqDistSign(p1, p2);
    Proximity(SqDist(p1, p2))
  }

  /** The argument order does not matter. */
  lemma BetweenSymmetric(p1: Point, p2: Point)
    ensures Between(p1, p2) == Between(p2, p1)
  {
  }

  /** The point p1 + s * (p2 - p1) of the segment's line; s in [0, 1] gives
      the points of the segment itself. */
  function PointAt(segment: Line, s: real): Point {
    var p1, p2 := segment.p1, segment.p2;
    Point(p1.x + s * (p2.x - p1.x), p1.y + s * (p2.y - p1.y))
  }

  function SqLength(segment: Line): real {
    SqDist(segment.p2, segment.p1)
  }

  /** The parameter of the foot of the perpendicular from pt. */
  function FootParameter(pt: Point, segment: Line): real
    requires segment.p1 != segment.p2
  {
    var p1, p2 := segment.p1, segment.p2;
    SqDistSign(p2, p1);
    ((pt.x - p1.x) * (p2.x - p1.x) + (pt.y - p1.y) * (p2.y - p1.y)) / SqLength(segment)
  }

  /** Where the perpendicular through pt meets the segment's line. */
  function Foot(pt: Point, segment: Line): Point
    requires segment.p1 != segment.p2
  {
    PointAt(segment, FootParameter(pt, segment))
  }

  /** The product of two endpoints' offsets from c along one axis. */
  function OffsetProduct(e1: real, e2: real, c: real): real {
    (e1 - c) * (e2 - c)
  }

  /** The test for "the intersection lies on the segment": the endpoints'
      offsets from it have opposite signs along x or along y, or both
      products of offsets are zero. */
  predicate OnSegmentTest(intersection: Point, segment: Line) {
    var dx12 := OffsetProduct(segment.p1.x, segment.p2.x, intersection.x);
    var dy12 := OffsetProduct(segment.p1.y, segment.p2.y, intersection.y);
    dx12 < 0.0 || dy12 < 0.0 || (dx12 == 0.0 && dy12 == 0.0)
  }

  /** t(1 - t): positive strictly between 0 and 1, zero at both ends and
      negative outside. */
  function Parabola(t: real): real {
    t * (1.0 - t)
  }

  /** At the point of parameter t, the endpoints' offsets along each axis
      multiply to -t(1 - t) times the square of the segment's extent along
      that axis. */
  lemma OffsetsAt(segment: Line, t: real)
    ensures OffsetProduct(segment.p1.x, segment.p2.x, PointAt(segment, t).x)
      == -Parabola(t) * Sq(segment.p2.x - segment.p1.x)
    ensures OffsetProduct(segment.p1.y, segment.p2.y, PointAt(segment, t).y)
      == -Parabola(t) * Sq(segment.p2.y - segment.p1.y)
  {
  }

  /** The sign of -t(1 - t) * q for q >= 0: negative strictly inside
      (0, 1) when q > 0, zero at the ends or when q = 0, and positive
      outside [0, 1] when q > 0. */
  lemma ScaledParabolaSign(t: real, q: real)
    requires q >= 0.0
    ensures 0.0 < t < 1.0 && q > 0.0 ==> -Parabola(t) * q < 0.0
    ensures t == 0.0 || t == 1.0 || q == 0.0 ==> -Parabola(t) * q == 0.0
    ensures t < 0.0 || t > 1.0 ==> -Parabola(t) * q >= 0.0
    ensures (t < 0.0 || t > 1.0) && q > 0.0 ==> -Parabola(t) * q > 0.0
  {
    if 0.0 < t < 1.0 {
      assert Parabola(t) > 0.0;
    } else if t < 0.0 || t > 1.0 {
      assert Parabola(t) < 0.0;
    }
  }

  /** The segment's extent along x or along y is non-zero. */
  lemma ExtentSign(segment: Line)
    requires segment.p1 != segment.p2
    ensures Sq(segment.p2.x - segment.p1.x) >= 0.0 && Sq(segment.p2.y - segment.p1.y) >= 0.0
    ensures Sq(segment.p2.x - segment.p1.x) > 0.0 || Sq(segment.p2.y - segment.p1.y) > 0.0
  {
    SquareSign(segment.p2.x - segment.p1.x);
    SquareSign(segment.p2.y - segment.p1.y);
  }

  /** Every point of the segment passes the test. */
  lemma OnSegmentTestInside(segment: Line, t: real)
    requires segment.p1 != segment.p2 && 0.0 <= t <= 1.0
    ensures OnSegmentTest(PointAt(segment, t), segment)
  {
    OffsetsAt(segment, t);
    ExtentSign(segment);
    ScaledParabolaSign(t, Sq(segment.p2.x - segment.p1.x));
    ScaledParabolaSign(t, Sq(segment.p2.y - segment.p1.y));
  }

  /** No other point of the segment's line passes the test. */
  lemma OnSegmentTestOutside(segment: Line, t: real)
    requires segment.p1 != segment.p2 && (t < 0.0 || t > 1.0)
    ensures !OnSegmentTest(PointAt(segment, t), segment)
  {
    OffsetsAt(segment, t);
    ExtentSign(segment);
    ScaledParabolaSign(t, Sq(segment.p2.x - segment.p1.x));
    ScaledParabolaSign(t, Sq(segment.p2.y - segment.p1.y));
  }

  /** At the point of parameter t the test passes iff t lies in [0, 1]. */
  lemma OnSegmentTestAt(segment: Line, t: real)
    requires segment.p1 != segment.p2
    ensures OnSegmentTest(PointAt(segment, t), segment) <==> 0.0 <= t <= 1.0
  {
    if 0.0 <= t <= 1.0 {
      OnSegmentTestInside(segment, t);
    } else {
      OnSegmentTestOutside(segment, t);
    }
  }

  /** For the foot of the perpendicular the test is exact: it passes iff the
      foot's parameter lies in [0, 1], i.e. iff the foot is a point of the
      segment. */
  lemma OnSegmentTestExact(pt: Point, segment: Line)
    requires segment.p1 != segment.p2
    ensures OnSegmentTest(Foot(pt, segment), segment) <==> 0.0 <= FootParameter(pt, segment) <= 1.0
  {
    OnSegmentTestAt(segment, FootParameter(pt, segment));
  }

  /** What pointAndLineSegment reports: the proximity and the point of the
      segment it was measured to. */
  datatype Nearest = Nearest(prx: Proximity, point: Point)

  /** Proximity::pointAndLineSegment. A zero-length segment reports its
      only point. Otherwise the foot of the perpendicular is reported when
      it lies on the segment, i.e. when the endpoints' offsets from it have
      opposite signs along x or along y, or are zero along both axes; else
      the nearer endpoint, p1 on a tie. */
  function PointAndLineSegment(pt: Point, segment: Line): (r: Nearest)
    ensures r.prx.sqDist == SqDist(pt, r.point)
    ensures segment.p1 == segment.p2 ==> r.point == segment.p1
    ensures r.point == segment.p1 || r.point == segment.p2
      || (segment.p1 != segment.p2 && r.point == Foot(pt, segment))
  {
    if segment.p1 == segment.p2 then
      Nearest(Between(pt, segment.p1), segment.p1)
    else
      var intersection := Foot(pt, segment);
      if OnSegmentTest(intersection, segment) then
        Nearest(Between(intersection, pt), intersection)
      else
        var prx0, prx1 := Between(segment.p1, pt), Between(segment.p2, pt);
        if prx1.sqDist < prx0.sqDist then Nearest(prx1, segment.p2) else Nearest(prx0, segment.p1)
  }

  /** The offset of pt from the foot is orthogonal to the segment. */
  lemma FootOrthogonal(pt: Point, segment: Line)
    requires segment.p1 != segment.p2
    ensures var p1, p2, f := segment.p1, segment.p2, PointAt(segment, FootParameter(pt, segment));
      (pt.x - f.x) * (p2.x - p1.x) + (pt.y - f.y) * (p2.y - p1.y) == 0.0
  {
    var p1, p2 := segment.p1, segment.p2;
    var t := FootParameter(pt, segment);
    var dx, dy := p2.x - p1.x, p2.y - p1.y;
    var len := SqLength(segment);
    SqDistSign(p2, p1);
    assert len == dx * dx + dy * dy;
    assert t * len == (pt.x - p1.x) * dx + (pt.y - p1.y) * dy;
  }

  /** Moving by k times d from a point whose offset w is orthogonal to d
      adds k^2 |d|^2 to the squared length: the offset a = w + k d has
      |a|^2 = |w|^2 + k^2 |d|^2. */
  lemma Pythagoras(wx: real, wy: real, dx: real, dy: real, k: real, ax: real, ay: real)
    requires wx * dx + wy * dy == 0.0
    requires ax == wx + k * dx && ay == wy + k * dy
    ensures Sq(ax) + Sq(ay) == Sq(wx) + Sq(wy) + Sq(k) * (Sq(dx) + Sq(dy))
  {
    assert Sq(ax) == wx * wx + 2.0 * k * (wx * dx) + k * k * (dx * dx);
    assert Sq(ay) == wy * wy + 2.0 * k * (wy * dy) + k * k * (dy * dy);
  }

  lemma SquareOfNegation(a: real, b: real)
    ensures Sq(a - b) == Sq(b - a)
  {
  }

  /** Moving along the segment's line from a point of parameter t whose
      offset from pt is orthogonal to the segment, the squared distance
      from pt grows with the square of the parameter's change. */
  lemma DistanceFromOrthogonal(pt: Point, segment: Line, t: real, s: real)
    requires var p1, p2, f := segment.p1, segment.p2, PointAt(segment, t);
      (pt.x - f.x) * (p2.x - p1.x) + (pt.y - f.y) * (p2.y - p1.y) == 0.0
    ensures SqDist(pt, PointAt(segment, s))
      == SqDist(pt, PointAt(segment, t)) + Sq(s - t) * SqLength(segment)
  {
    var p1, p2, f, q := segment.p1, segment.p2, PointAt(segment, t), PointAt(segment, s);
    var wx, wy, dx, dy := pt.x - f.x, pt.y - f.y, p2.x - p1.x, p2.y - p1.y;
    assert pt.x - q.x == wx + (t - s) * dx;
    assert pt.y - q.y == wy + (t - s) * dy;
    Pythagoras(wx, wy, dx, dy, t - s, pt.x - q.x, pt.y - q.y);
    SquareOfNegation(t, s);
  }

  /** Scaling by a non-negative factor keeps the order. */
  lemma ScaleMonotone(a: real, b: real, c: real)
    requires a <= b && c >= 0.0
    ensures a * c <= b * c
  {
  }

  /** No point of the segment is nearer to pt than the foot of the
      perpendicular. */
  lemma FootIsNearest(pt: Point, segment: Line, s: real)
    requires segment.p1 != segment.p2
    ensures SqDist(pt, Foot(pt, segment)) <= SqDist(pt, PointAt(segment, s))
  {
    var t := FootParameter(pt, segment);
    FootOrthogonal(pt, segment);
    SquareSign(s - t);
    assert Sq(t - t) == 0.0;
    NearerAlongLine(pt, segment, t, t, s);
  }

  /** Of two points on the line, the one whose parameter is nearer to the
      parameter t of the perpendicular's foot is the nearer to pt. */
  lemma NearerAlongLine(pt: Point, segment: Line, t: real, a: real, s: real)
    requires var p1, p2, f := segment.p1, segment.p2, PointAt(segment, t);
      (pt.x - f.x) * (p2.x - p1.x) + (pt.y - f.y) * (p2.y - p1.y) == 0.0
    requires Sq(a - t) <= Sq(s - t)
    ensures SqDist(pt, PointAt(segment, a)) <= SqDist(pt, PointAt(segment, s))
  {
    DistanceFromOrthogonal(pt, segment, t, a);
    DistanceFromOrthogonal(pt, segment, t, s);
    SqDistSign(segment.p2, segment.p1);
    ScaleMonotone(Sq(a - t), Sq(s - t), SqLength(segment));
  }

  /** When the foot lies before p1 (or after p2) on the line, p1 (or p2) is
      at least as near to pt as every point of the segment. */
  lemma EndpointIsNearest(pt: Point, segment: Line, s: real)
    requires segment.p1 != segment.p2 && 0.0 <= s <= 1.0
    ensures FootParameter(pt, segment) < 0.0 ==> SqDist(pt, segment.p1) <= SqDist(pt, PointAt(segment, s))
    ensures FootParameter(pt, segment) > 1.0 ==> SqDist(pt, segment.p2) <= SqDist(pt, PointAt(segment, s))
  {
    var t := FootParameter(pt, segment);
    FootOrthogonal(pt, segment);
    if t < 0.0 {
      assert PointAt(segment, 0.0) == segment.p1;
      SquareMonotone(0.0 - t, s - t);
      NearerAlongLine(pt, segment, t, 0.0, s);
    } else if t > 1.0 {
      assert PointAt(segment, 1.0) == segment.p2;
      SquareMonotone(t - 1.0, t - s);
      SquareOfNegation(1.0, t);
      SquareOfNegation(s, t);
      NearerAlongLine(pt, segment, t, 1.0, s);
    }
  }

  /** The reported distance is the smallest distance from pt to any point
      of the segment; in particular it is at most the distance to either
      endpoint. */
  lemma PointAndLineSegmentIsNearest(pt: Point, segment: Line, s: real)
    requires 0.0 <= s <= 1.0
    ensures PointAndLineSegment(pt, segment).prx.sqDist <= SqDist(pt, PointAt(segment, s))
    ensures PointAndLineSegment(pt, segment).prx.sqDist <= SqDist(pt, segment.p1)
    ensures PointAndLineSegment(pt, segment).prx.sqDist <= SqDist(pt, segment.p2)
  {
    var p1, p2 := segment.p1, segment.p2;
    assert PointAt(segment, 0.0) == p1;
    assert PointAt(segment, 1.0) == p2;
    if p1 == p2 {
      assert PointAt(segment, s) == p1;
    } else {
      OnSegmentTestExact(pt, segment);
      if OnSegmentTest(Foot(pt, segment), segment) {
        FootIsNearest(pt, segment, s);
        FootIsNearest(pt, segment, 0.0);
        FootIsNearest(pt, segment, 1.0);
      } else {
        EndpointIsNearest(pt, segment, s);
      }
    }
  }

  /** The reported point is a point of the segment: together with
      PointAndLineSegmentIsNearest, the report is the nearest point of the
      segment and its squared distance. */
  lemma ReportedPointOnSegment(pt: Point, segment: Line)
    ensures exists s :: 0.0 <= s <= 1.0 && PointAndLineSegment(pt, segment).point == PointAt(segment, s)
  {
    var p1, p2 := segment.p1, segment.p2;
    assert PointAt(segment, 0.0) == p1;
    assert PointAt(segment, 1.0) == p2;
    if p1 != p2 {
      OnSegmentTestExact(pt, segment);
      if OnSegmentTest(Foot(pt, segment), segment) {
        assert PointAndLineSegment(pt, segment).point == PointAt(segment, FootParameter(pt, segment));
      }
    }
  }
}
