/** Polygon helpers: rounding to a 1/4096 grid, the dominant-axis point
    order `Before`, edge extraction and normalisation, and the fuzzy
    structural comparison of two polygons. Coordinates are exact reals. */
module PolygonUtils {
  import opened Geometry
  import opened Sorting

  /** ROUNDING_MULTIPLIER, `1 << 12`. */
  const RoundingMultiplier: real := 4096.0

  /** ROUNDING_RECIP_MULTIPLIER, the grid step and the fuzzy tolerance. */
  const RoundingRecip: real := 1.0 / 4096.0

  // ---------------------------------------------------------------------
  // Before: compare by the dominant axis.
  // ---------------------------------------------------------------------

  function Sign(v: real): int {
    if v < 0.0 then -1 else if v > 0.0 then 1 else 0
  }

  /** Before::compare: the sign of the coordinate difference along the axis
      where the points differ most, the y axis winning ties. Only identical
      points compare equal. */
  function Compare(lhs: Point, rhs: Point): (r: int)
    ensures r == -1 || r == 0 || r == 1
    ensures r == 0 <==> lhs == rhs
  {
    var dx := lhs.x - rhs.x;
    var dy := lhs.y - rhs.y;
    if Abs(dx) > Abs(dy) then Sign(dx) else Sign(dy)
  }

  /** Swapping the operands negates the comparison. */
  lemma CompareAntisymmetric(a: Point, b: Point)
    ensures Compare(a, b) == -Compare(b, a)
  {
  }

  /** Before()(lhs, rhs) for points. */
  predicate PointBefore(lhs: Point, rhs: Point) {
    Compare(lhs, rhs) < 0
  }

  /** Before()(lhs, rhs) for lines: by first endpoint, then by second. */
  predicate LineBefore(lhs: Line, rhs: Line) {
    var comp := Compare(lhs.p1, rhs.p1);
    if comp != 0 then comp < 0 else Compare(lhs.p2, rhs.p2) < 0
  }

  /** The dominant-axis order is the order by x + y, ties broken by y. */
  lemma {:induction false} PointBeforeBySum(a: Point, b: Point)
    ensures PointBefore(a, b) <==> a.x + a.y < b.x + b.y || (a.x + a.y == b.x + b.y && a.y < b.y)
  {
    var dx, dy := a.x - b.x, a.y - b.y;
    if Abs(dx) > Abs(dy) {
      assert PointBefore(a, b) <==> dx < 0.0;
    } else {
      assert PointBefore(a, b) <==> dy < 0.0;
    }
  }

  /** Hence Before is a strict weak order (indeed a total one) on points and
      on lines, and sorting by it is well defined. */
  lemma {:induction false} BeforeIsStrictWeakOrder()
    ensures Asymmetric(PointBefore) && NegativelyTransitive(PointBefore)
    ensures Asymmetric(LineBefore) && NegativelyTransitive(LineBefore)
  {
    forall a, b ensures PointBefore(a, b) ==> !PointBefore(b, a) {
      PointBeforeBySum(a, b);
      PointBeforeBySum(b, a);
    }
    forall a, b, c | !PointBefore(a, b) && !PointBefore(b, c) ensures !PointBefore(a, c) {
      PointBeforeBySum(a, b);
      PointBeforeBySum(b, c);
      PointBeforeBySum(a, c);
    }
    forall l, m ensures LineBefore(l, m) ==> !LineBefore(m, l) {
      CompareAntisymmetric(l.p1, m.p1);
      CompareAntisymmetric(l.p2, m.p2);
    }
    forall l, m, n | !LineBefore(l, m) && !LineBefore(m, n) ensures !LineBefore(l, n) {
      PointBeforeBySum(l.p1, m.p1);
      PointBeforeBySum(m.p1, n.p1);
      PointBeforeBySum(l.p1, n.p1);
      PointBeforeBySum(l.p2, m.p2);
      PointBeforeBySum(m.p2, n.p2);
      PointBeforeBySum(l.p2, n.p2);
    }
  }

  // ---------------------------------------------------------------------
  // Rounding.
  // ---------------------------------------------------------------------

  /** roundValue: `floor(v * 4096 + 0.5) / 4096`, the nearest multiple of
      1/4096, halves rounding up. */
  function RoundValue(v: real): (r: real)
    ensures (r * RoundingMultiplier).Floor as real == r * RoundingMultiplier
    ensures -RoundingRecip / 2.0 < r - v <= RoundingRecip / 2.0
  {
    (v * RoundingMultiplier + 0.5).Floor as real * RoundingRecip
  }

  /** Rounding a value already on the grid leaves it alone. */
  lemma {:induction false} RoundValueIdempotent(v: real)
    ensures RoundValue(RoundValue(v)) == RoundValue(v)
  {
    var k := (v * RoundingMultiplier + 0.5).Floor;
    assert RoundValue(v) * RoundingMultiplier == k as real;
    assert (k as real + 0.5).Floor == k;
  }

  /** roundPoint: both coordinates rounded; the result is fuzzily equal to
      the point it came from. */
  function RoundPoint(p: Point): (r: Point)
    ensures PointsFuzzyEqual(r, p)
  {
    Point(RoundValue(p.x), RoundValue(p.y))
  }

  /** The polygon `round` returns: every vertex rounded, in order. */
  function Rounded(poly: seq<Point>): (r: seq<Point>)
    ensures |r| == |poly|
  {
    seq(|poly|, i requires 0 <= i < |poly| => RoundPoint(poly[i]))
  }

  /** Rounding a rounded polygon changes nothing. */
  lemma {:induction false} RoundedIdempotent(poly: seq<Point>)
    ensures Rounded(Rounded(poly)) == Rounded(poly)
  {
    forall i | 0 <= i < |poly| ensures RoundPoint(RoundPoint(poly[i])) == RoundPoint(poly[i]) {
      RoundValueIdempotent(poly[i].x);
      RoundValueIdempotent(poly[i].y);
    }
  }

  /** round: pushes the rounded vertices one by one. */
  method Round(poly: seq<Point>) returns (rounded: seq<Point>)
    ensures rounded == Rounded(poly)
    ensures |rounded| == |poly| && forall i :: 0 <= i < |poly| ==> PointsFuzzyEqual(rounded[i], poly[i])
  {
    rounded := [];
    for i := 0 to |poly|
      invariant |rounded| == i
      invariant forall j :: 0 <= j < i ==> rounded[j] == RoundPoint(poly[j])
    {
      rounded := rounded + [RoundPoint(poly[i])];
    }
  }

  // ---------------------------------------------------------------------
  // Fuzzy equality.
  // ---------------------------------------------------------------------

  /** fuzzyCompareImpl for points: both coordinate differences are at most
      1/4096. */
  predicate PointsFuzzyEqual(p1: Point, p2: Point) {
    Abs(p1.x - p2.x) <= RoundingRecip && Abs(p1.y - p2.y) <= RoundingRecip
  }

  /** Point fuzzy equality is reflexive and symmetric. */
  lemma PointsFuzzyEqualReflexiveSymmetric(p: Point, q: Point)
    ensures PointsFuzzyEqual(p, p)
    ensures PointsFuzzyEqual(p, q) == PointsFuzzyEqual(q, p)
  {
  }

  /** fuzzyCompareImpl for lines: first endpoints and second endpoints are
      fuzzily equal. */
  predicate LinesFuzzyEqual(l1: Line, l2: Line) {
    PointsFuzzyEqual(l1.p1, l2.p1) && PointsFuzzyEqual(l1.p2, l2.p2)
  }

  /** Two equally long edge lists match at every index. */
  predicate AllLinesFuzzyEqual(lines1: seq<Line>, lines2: seq<Line>)
    requires |lines1| == |lines2|
  {
    forall i :: 0 <= i < |lines1| ==> LinesFuzzyEqual(lines1[i], lines2[i])
  }

  /** fuzzyCompareImpl for edge vectors, which asserts equal sizes: stops at
      the first mismatching index. */
  method EdgesFuzzyEqual(lines1: seq<Line>, lines2: seq<Line>) returns (r: bool)
    requires |lines1| == |lines2|
    ensures r <==> forall i :: 0 <= i < |lines1| ==> LinesFuzzyEqual(lines1[i], lines2[i])
  {
    for i := 0 to |lines1|
      invariant forall j :: 0 <= j < i ==> LinesFuzzyEqual(lines1[j], lines2[j])
    {
      if !LinesFuzzyEqual(lines1[i], lines2[i]) {
        return false;
      }
    }
    return true;
  }

  // ---------------------------------------------------------------------
  // Edges.
  // ---------------------------------------------------------------------

  /** The edge between p1 and p2 with its endpoints ordered so that the
      second is not Before the first. */
  function NormalizedEdge(p1: Point, p2: Point): (e: Line)
    ensures !PointBefore(e.p2, e.p1)
    ensures (e.p1 == p1 && e.p2 == p2) || (e.p1 == p2 && e.p2 == p1)
  {
    if PointBefore(p2, p1) then
      CompareAntisymmetric(p2, p1);
      Line(p2, p1)
    else Line(p1, p2)
  }

  /** What maybeAddNormalizedEdge adds: nothing for a fuzzily degenerate
      edge, otherwise its normalised form. */
  function EdgeFor(p1: Point, p2: Point): seq<Line> {
    if PointsFuzzyEqual(p1, p2) then [] else [NormalizedEdge(p1, p2)]
  }

  /** The edges between consecutive vertices, without the closing one. */
  function ChainEdges(poly: seq<Point>): seq<Line> {
    if |poly| < 2 then []
    else ChainEdges(poly[..|poly| - 1]) + EdgeFor(poly[|poly| - 2], poly[|poly| - 1])
  }

  /** What extractAndNormalizeEdges returns: the consecutive edges and then
      the edge from the last vertex back to the first. */
  function NormalizedEdges(poly: seq<Point>): seq<Line> {
    if |poly| > 1 then ChainEdges(poly) + EdgeFor(poly[|poly| - 1], poly[0]) else []
  }

  /** maybeAddNormalizedEdge: appends the edge unless its endpoints are
      fuzzily equal, putting the Before-smaller endpoint first. */
  method MaybeAddNormalizedEdge(edges: seq<Line>, p1: Point, p2: Point) returns (r: seq<Line>)
    ensures PointsFuzzyEqual(p1, p2) ==> r == edges
    ensures !PointsFuzzyEqual(p1, p2) ==>
      |r| == |edges| + 1 && r[..|edges|] == edges && !PointBefore(r[|edges|].p2, r[|edges|].p1)
      && (r[|edges|] == Line(p1, p2) || r[|edges|] == Line(p2, p1))
    ensures r == edges + EdgeFor(p1, p2)
  {
    if PointsFuzzyEqual(p1, p2) {
      return edges;
    }
    if PointBefore(p2, p1) {
      r := edges + [Line(p2, p1)];
    } else {
      r := edges + [Line(p1, p2)];
    }
  }

  /** extractAndNormalizeEdges: one edge per consecutive pair and one
      closing edge, each filtered and normalised. */
  method ExtractAndNormalizeEdges(poly: seq<Point>) returns (edges: seq<Line>)
    ensures edges == NormalizedEdges(poly)
  {
    edges := [];
    var numEdges := |poly|;
    if numEdges > 1 {
      for i := 1 to numEdges
        invariant edges == ChainEdges(poly[..i])
      {
        assert poly[..i + 1][..i] == poly[..i];
        edges := MaybeAddNormalizedEdge(edges, poly[i - 1], poly[i]);
      }
      assert poly[..numEdges] == poly;
      edges := MaybeAddNormalizedEdge(edges, poly[numEdges - 1], poly[0]);
    }
  }

  /** Every extracted edge is normalised, joins two polygon vertices that
      are not fuzzily equal, and there are at most as many edges as
      vertices. */
  lemma {:induction false} NormalizedEdgesShape(poly: seq<Point>)
    ensures |NormalizedEdges(poly)| <= |poly|
    ensures forall e :: e in NormalizedEdges(poly) ==>
      !PointBefore(e.p2, e.p1) && !PointsFuzzyEqual(e.p1, e.p2) && e.p1 in poly && e.p2 in poly
  {
    if |poly| > 1 {
      ChainEdgesShape(poly);
    }
  }

  lemma {:induction false} ChainEdgesShape(poly: seq<Point>)
    ensures |ChainEdges(poly)| <= if |poly| == 0 then 0 else |poly| - 1
    ensures forall e :: e in ChainEdges(poly) ==>
      !PointBefore(e.p2, e.p1) && !PointsFuzzyEqual(e.p1, e.p2) && e.p1 in poly && e.p2 in poly
    decreases |poly|
  {
    if |poly| >= 2 {
      var init := poly[..|poly| - 1];
      ChainEdgesShape(init);
      forall e | e in ChainEdges(poly)
        ensures !PointBefore(e.p2, e.p1) && !PointsFuzzyEqual(e.p1, e.p2) && e.p1 in poly && e.p2 in poly
      {
        if e in ChainEdges(init) {
          assert e.p1 in init && e.p2 in init;
        } else {
          var p, q := poly[|poly| - 2], poly[|poly| - 1];
          assert e == NormalizedEdge(p, q);
          PointsFuzzyEqualReflexiveSymmetric(p, q);
        }
      }
    }
  }

  /** Closing a polygon before extracting its edges changes nothing: the
      added closing edge duplicates the wrap-around edge, and the new
      wrap-around edge joins a vertex to itself and is dropped. */
  lemma {:induction false} ClosingKeepsEdges(poly: seq<Point>)
    requires |poly| >= 2
    ensures NormalizedEdges(Closed(poly)) == NormalizedEdges(poly)
  {
    if poly[|poly| - 1] != poly[0] {
      var c := Closed(poly);
      assert c[..|c| - 1] == poly;
      assert EdgeFor(c[|c| - 1], c[0]) == [];
    }
  }

  /** On a polygon whose last vertex repeats the first, the wrap-around
      edge is dropped. */
  lemma {:induction false} ClosedDropsWrapEdge(poly: seq<Point>)
    requires |poly| >= 2 && poly[|poly| - 1] == poly[0]
    ensures NormalizedEdges(poly) == ChainEdges(poly)
  {
    assert PointsFuzzyEqual(poly[|poly| - 1], poly[0]);
  }

  // ---------------------------------------------------------------------
  // fuzzyCompare.
  // ---------------------------------------------------------------------

  /** The polygon with its first vertex appended when it is not closed. */
  function Closed(poly: seq<Point>): (r: seq<Point>)
    requires |poly| >= 1
    ensures |r| == |poly| || |r| == |poly| + 1
    ensures r[|r| - 1] == r[0] && r[..|poly|] == poly
    ensures poly[|poly| - 1] == poly[0] ==> r == poly
  {
    if poly[|poly| - 1] != poly[0] then poly + [poly[0]] else poly
  }

  /** What fuzzyCompare decides. */
  predicate PolygonsFuzzyEqual(poly1: seq<Point>, poly2: seq<Point>) {
    if |poly1| < 2 && |poly2| < 2 then true
    else if |poly1| < 2 || |poly2| < 2 then false
    else
      var edges1, edges2 := NormalizedEdges(Closed(poly1)), NormalizedEdges(Closed(poly2));
      |edges1| == |edges2|
      && AllLinesFuzzyEqual(SortBy(edges1, LineBefore), SortBy(edges2, LineBefore))
  }

  /** fuzzyCompare: two polygons of fewer than two vertices match, one such
      polygon matches nothing else, and otherwise the closed polygons'
      normalised edges, sorted, must match pairwise. */
  method FuzzyCompare(poly1: seq<Point>, poly2: seq<Point>) returns (r: bool)
    ensures |poly1| < 2 && |poly2| < 2 ==> r
    ensures (|poly1| < 2) != (|poly2| < 2) ==> !r
    ensures |poly1| >= 2 && |poly2| >= 2 && |NormalizedEdges(poly1)| != |NormalizedEdges(poly2)| ==> !r
    ensures r == PolygonsFuzzyEqual(poly1, poly2)
  {
    if |poly1| < 2 && |poly2| < 2 {
      return true;
    } else if |poly1| < 2 || |poly2| < 2 {
      return false;
    }
    var closed1, closed2 := poly1, poly2;
    if closed1[|closed1| - 1] != closed1[0] {
      closed1 := closed1 + [closed1[0]];
    }
    if closed2[|closed2| - 1] != closed2[0] {
      closed2 := closed2 + [closed2[0]];
    }
    var edges1 := ExtractAndNormalizeEdges(closed1);
    var edges2 := ExtractAndNormalizeEdges(closed2);
    ClosingKeepsEdges(poly1);
    ClosingKeepsEdges(poly2);
    if |edges1| != |edges2| {
      return false;
    }
    var sorted1 := SortBy(edges1, LineBefore);
    var sorted2 := SortBy(edges2, LineBefore);
    r := EdgesFuzzyEqual(sorted1, sorted2);
  }

  /** The edge lists handed to the pairwise comparison are fully ordered by
      Before. */
  lemma SortedEdgesOrdered(poly: seq<Point>)
    ensures Ordered(SortBy(NormalizedEdges(poly), LineBefore), LineBefore)
  {
    BeforeIsStrictWeakOrder();
    SortByOrdered(NormalizedEdges(poly), LineBefore);
  }

  /** Every polygon matches itself. */
  lemma PolygonsFuzzyEqualReflexive(poly: seq<Point>)
    ensures PolygonsFuzzyEqual(poly, poly)
  {
  }

  /** The comparison does not depend on the order of its operands. */
  lemma PolygonsFuzzyEqualSymmetric(poly1: seq<Point>, poly2: seq<Point>)
    ensures PolygonsFuzzyEqual(poly1, poly2) == PolygonsFuzzyEqual(poly2, poly1)
  {
    if |poly1| >= 2 && |poly2| >= 2 {
      var edges1, edges2 := NormalizedEdges(Closed(poly1)), NormalizedEdges(Closed(poly2));
      if |edges1| == |edges2| {
        var sorted1, sorted2 := SortBy(edges1, LineBefore), SortBy(edges2, LineBefore);
        forall i | 0 <= i < |sorted1|
          ensures LinesFuzzyEqual(sorted1[i], sorted2[i]) == LinesFuzzyEqual(sorted2[i], sorted1[i])
        {
          PointsFuzzyEqualReflexiveSymmetric(sorted1[i].p1, sorted2[i].p1);
          PointsFuzzyEqualReflexiveSymmetric(sorted1[i].p2, sorted2[i].p2);
        }
        assert AllLinesFuzzyEqual(sorted1, sorted2) == AllLinesFuzzyEqual(sorted2, sorted1);
      }
    }
  }
}
