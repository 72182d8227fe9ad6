/** PolygonUtils::convexHull: Andrew's monotone chain. The points are sorted
    by x and then y; a lower chain is built left to right and an upper chain
    right to left in one buffer of 2n slots, popping every point that does
    not make a strict left turn. */
module ConvexHulls {
  import opened Geometry
  import opened Sorting

  /** LexicographicPointComparator: by x, then by y. */
  predicate LexLess(p1: Point, p2: Point) {
    if p1.x != p2.x then p1.x < p2.x else p1.y < p2.y
  }

  /** The lexicographic order is a strict weak order. */
  lemma LexLessIsStrictWeakOrder()
    ensures Asymmetric(LexLess) && NegativelyTransitive(LexLess)
  {
  }

  /** cross(O, A, B): the z component of OA x OB; positive for a
      counter-clockwise turn, negative for a clockwise one, zero when the
      points are collinear. */
  function Cross(o: Point, a: Point, b: Point): real {
    (a.x - o.x) * (b.y - o.y) - (a.y - o.y) * (b.x - o.x)
  }

  /** Every three consecutive entries of h[lo..hi] turn strictly left, as
      measured by `turn` (Cross for the hull; the chain loops are proved for
      any measure). */
  ghost predicate LeftTurns(h: seq<Point>, turn: (Point, Point, Point) -> real, lo: int, hi: int)
    requires 0 <= lo && hi <= |h|
  {
    forall j :: lo <= j && j + 2 < hi ==> turn(h[j], h[j + 1], h[j + 2]) > 0.0
  }

  /** The test that pops slot j - 1: the two entries below slot j of h do
      not turn strictly left towards p. */
  ghost predicate NonLeftTurnBelow(h: seq<Point>, turn: (Point, Point, Point) -> real, j: int, p: Point) {
    2 <= j <= |h| && turn(h[j - 2], h[j - 1], p) <= 0.0
  }

  /** The first k entries of h are all points of pts. */
  ghost predicate Within(h: seq<Point>, k: int, pts: seq<Point>)
    requires k <= |h|
  {
    forall j :: 0 <= j < k ==> h[j] in pts
  }

  /** Popping entries off the stack keeps both chain properties. */
  lemma Shrink(h: seq<Point>, turn: (Point, Point, Point) -> real, lo: nat, k: nat, k': nat, pts: seq<Point>)
    requires k' <= k <= |h|
    requires LeftTurns(h, turn, lo, k) && Within(h, k, pts)
    ensures LeftTurns(h, turn, lo, k') && Within(h, k', pts)
  {
  }

  /** Pushing p onto a stack of k entries keeps the left turns of h[lo..]
      when p turns strictly left from the top two entries, and keeps every
      entry a point of pts when p is one. */
  lemma Push(h: seq<Point>, turn: (Point, Point, Point) -> real, lo: nat, k: nat, p: Point, pts: seq<Point>)
    requires k < |h|
    requires LeftTurns(h, turn, lo, k) && Within(h, k, pts) && p in pts
    requires k >= lo + 2 ==> turn(h[k - 2], h[k - 1], p) > 0.0
    ensures LeftTurns(h[k := p], turn, lo, k + 1) && Within(h[k := p], k + 1, pts)
  {
    var g := h[k := p];
    forall j | lo <= j && j + 2 < k + 1 ensures turn(g[j], g[j + 1], g[j + 2]) > 0.0 {
      if j + 2 < k {
        assert g[j] == h[j] && g[j + 1] == h[j + 1] && g[j + 2] == h[j + 2];
      }
    }
    forall j | 0 <= j < k + 1 ensures g[j] in pts {
      if j < k {
        assert g[j] == h[j];
      }
    }
  }

  /** Left turns within a prefix carry over to any sequence with the same
      prefix. */
  lemma LeftTurnsPrefix(h: seq<Point>, g: seq<Point>, turn: (Point, Point, Point) -> real, hi: nat)
    requires hi <= |h| && hi <= |g| && h[..hi] == g[..hi]
    requires LeftTurns(h, turn, 0, hi)
    ensures LeftTurns(g, turn, 0, hi)
  {
    forall j | 0 <= j && j + 2 < hi ensures turn(g[j], g[j + 1], g[j + 2]) > 0.0 {
      assert g[j] == h[..hi][j] && g[j + 1] == h[..hi][j + 1] && g[j + 2] == h[..hi][j + 2];
    }
  }

  /** Cutting h down to its first hi entries keeps the left turns within
      h[lo..hi] and the points of its first hi entries. */
  lemma Take(h: seq<Point>, turn: (Point, Point, Point) -> real, lo: nat, hi: nat, pts: seq<Point>)
    requires hi <= |h| && LeftTurns(h, turn, lo, hi) && Within(h, hi, pts)
    ensures LeftTurns(h[..hi], turn, lo, hi)
    ensures forall p :: p in h[..hi] ==> p in pts
  {
    var g := h[..hi];
    forall j | lo <= j && j + 2 < hi ensures turn(g[j], g[j + 1], g[j + 2]) > 0.0 {
      assert g[j] == h[j] && g[j + 1] == h[j + 1] && g[j + 2] == h[j + 2];
    }
    forall p | p in g ensures p in pts {
      var j :| 0 <= j < hi && g[j] == p;
      assert h[j] == p;
    }
  }

  /** Sorting keeps exactly the input points. */
  lemma SortedSameMembers(pointCloud: seq<Point>)
    ensures forall p :: p in SortBy(pointCloud, LexLess) <==> p in pointCloud
    ensures |pointCloud| == 1 ==> SortBy(pointCloud, LexLess) == pointCloud
  {
    var pts := SortBy(pointCloud, LexLess);
    forall p ensures p in pts <==> p in pointCloud {
      assert p in pts <==> p in multiset(pts);
      assert p in pointCloud <==> p in multiset(pointCloud);
    }
    if |pts| == 1 {
      assert pts[0] in multiset(pointCloud);
    }
  }

  /** Sorting puts the lexicographically smallest point first and the
      largest last. */
  lemma SortedExtremes(pointCloud: seq<Point>)
    requires |pointCloud| >= 1
    ensures var pts := SortBy(pointCloud, LexLess);
      forall p :: p in pointCloud ==> !LexLess(p, pts[0]) && !LexLess(pts[|pts| - 1], p)
  {
    var pts := SortBy(pointCloud, LexLess);
    assert Ordered(pts, LexLess) by {
      LexLessIsStrictWeakOrder();
      SortByOrdered(pointCloud, LexLess);
    }
    SortedSameMembers(pointCloud);
    forall p | p in pointCloud
      ensures !LexLess(p, pts[0]) && !LexLess(pts[|pts| - 1], p)
    {
      assert p in pts;
      var q :| 0 <= q < |pts| && pts[q] == p;
    }
  }

  /** The popping loop of both chains: drops the top of the stack while
      the stack holds at least `floor` entries and its top two entries do
      not turn strictly left towards p. */
  method PopNonLeftTurns(buffer: array<Point>, k: nat, p: Point, turn: (Point, Point, Point) -> real, floor: nat)
    returns (k': nat)
    requires 2 <= floor && k <= buffer.Length
    ensures k' <= k && (k >= floor - 1 ==> k' >= floor - 1) && (k < floor ==> k' == k)
    ensures k' >= floor ==> turn(buffer[k' - 2], buffer[k' - 1], p) > 0.0
    ensures forall j :: k' < j <= k ==> j >= floor && NonLeftTurnBelow(buffer[..], turn, j, p)
  {
    k' := k;
    while k' >= floor && turn(buffer[k' - 2], buffer[k' - 1], p) <= 0.0
      invariant k' <= k && (k >= floor - 1 ==> k' >= floor - 1) && (k < floor ==> k' == k)
      invariant forall j :: k' < j <= k ==> j >= floor && NonLeftTurnBelow(buffer[..], turn, j, p)
      decreases k'
    {
      k' := k' - 1;
    }
  }

  /** One step of either chain: pops the entries that do not turn strictly
      left towards p, never below lo + 1 entries, and pushes p. The left
      turns from entry lo onwards are kept. Every popped top (slots k' - 1
      up to k - 1 of the old stack) failed the turn test, and the entry now
      below p passed it or could not be popped. */
  method PushPoint(buffer: array<Point>, k: nat, p: Point, turn: (Point, Point, Point) -> real, lo: nat, ghost pts: seq<Point>)
    returns (k': nat)
    requires k < buffer.Length && p in pts
    requires Within(buffer[..], k, pts) && LeftTurns(buffer[..], turn, lo, k)
    modifies buffer
    ensures 1 <= k' <= k + 1 && buffer[k' - 1] == p
    ensures k >= lo + 1 ==> lo + 2 <= k'
    ensures buffer[..] == old(buffer[..])[k' - 1 := p]
    ensures forall j :: k' <= j <= k ==> j >= lo + 2 && NonLeftTurnBelow(old(buffer[..]), turn, j, p)
    ensures Within(buffer[..], k', pts) && LeftTurns(buffer[..], turn, lo, k')
  {
    var popped := PopNonLeftTurns(buffer, k, p, turn, lo + 2);
    ghost var h := buffer[..];
    Shrink(h, turn, lo, k, popped, pts);
    Push(h, turn, lo, popped, p, pts);
    buffer[popped] := p;
    assert buffer[..] == h[popped := p];
    k' := popped + 1;
  }

  /** The lower-hull loop: walks the sorted points left to right, popping
      the top of the stack while it does not make a strict left turn with
      the next point. */
  method BuildLowerChain(pts: seq<Point>, buffer: array<Point>, turn: (Point, Point, Point) -> real) returns (k: nat)
    requires buffer.Length >= |pts|
    modifies buffer
    ensures k <= |pts|
    ensures |pts| >= 1 ==> k >= 1 && buffer[0] == pts[0] && buffer[k - 1] == pts[|pts| - 1]
    ensures |pts| >= 2 ==> k >= 2
    ensures Within(buffer[..], k, pts) && LeftTurns(buffer[..], turn, 0, k)
  {
    k := 0;
    for i := 0 to |pts|
      invariant 0 <= k <= i
      invariant i >= 1 ==> k >= 1 && buffer[0] == pts[0] && buffer[k - 1] == pts[i - 1]
      invariant i >= 2 ==> k >= 2
      invariant Within(buffer[..], k, pts) && LeftTurns(buffer[..], turn, 0, k)
    {
      k := PushPoint(buffer, k, pts[i], turn, 0, pts);
    }
  }

  /** The upper-hull loop: walks the sorted points from the second last
      back to the first, never popping into the lower chain except for its
      last point, which the upper chain starts from. */
  method BuildUpperChain(pts: seq<Point>, buffer: array<Point>, lower: nat, turn: (Point, Point, Point) -> real) returns (k: nat)
    requires buffer.Length >= 2 * |pts| && lower <= |pts|
    requires |pts| >= 1 ==> lower >= 1
    requires |pts| >= 2 ==> lower >= 2
    requires Within(buffer[..], lower, pts)
    modifies buffer
    ensures lower <= k <= 2 * |pts|
    ensures |pts| <= 1 ==> k == lower
    ensures |pts| >= 2 ==> k > lower && buffer[k - 1] == pts[0]
    ensures buffer[..lower] == old(buffer[..lower])
    ensures Within(buffer[..], k, pts)
    ensures lower >= 1 ==> LeftTurns(buffer[..], turn, lower - 1, k)
  {
    var n := |pts|;
    k := lower;
    var lo: nat := if lower >= 1 then lower - 1 else 0;
    var i := n - 2;
    while i >= 0
      invariant n >= 1 ==> -1 <= i <= n - 2
      invariant n == 0 ==> i == -2
      invariant lower <= k <= lower + (n - 2 - i)
      invariant i < n - 2 ==> k > lower && buffer[k - 1] == pts[i + 1]
      invariant buffer[..lower] == old(buffer[..lower])
      invariant Within(buffer[..], k, pts) && LeftTurns(buffer[..], turn, lo, k)
      decreases i
    {
      ghost var prev := buffer[..];
      k := PushPoint(buffer, k, pts[i], turn, lo, pts);
      assert buffer[..lower] == prev[..lower];
      i := i - 1;
    }
  }

  /** Both chains over points already in lexicographic order, in one
      buffer of 2n slots (`std::vector<QPointF> hull(n * 2)`), cut down to
      the k entries in use. */
  method ChainsOfSorted(pts: seq<Point>, turn: (Point, Point, Point) -> real) returns (hull: seq<Point>, ghost lower: nat)
    ensures |pts| == 0 ==> hull == []
    ensures |pts| == 1 ==> hull == pts
    ensures |hull| <= 2 * |pts|
    ensures forall p :: p in hull ==> p in pts
    ensures |pts| >= 1 ==> 1 <= lower <= |hull| && hull[0] == pts[0] && hull[lower - 1] == pts[|pts| - 1]
    ensures |pts| >= 1 ==> LeftTurns(hull, turn, 0, lower) && LeftTurns(hull, turn, lower - 1, |hull|)
    ensures |pts| >= 2 ==> |hull| > lower && hull[|hull| - 1] == hull[0]
  {
    var n := |pts|;
    // The vector starts as 2n default points; no slot is read before it is
    // written, so the initial contents are left unspecified here.
    var buffer := new Point[2 * n];
    var k := BuildLowerChain(pts, buffer, turn);
    lower := k;
    ghost var lowerChain := buffer[..];
    k := BuildUpperChain(pts, buffer, k, turn);
    ghost var whole := buffer[..];
    hull := buffer[..k];
    assert hull == whole[..k];
    assert hull[..lower] == lowerChain[..lower];
    LeftTurnsPrefix(lowerChain, hull, turn, lower);
    Take(whole, turn, if n >= 1 then lower - 1 else 0, k, pts);
    if n >= 1 {
      assert hull[0] == lowerChain[0];
      assert hull[lower - 1] == lowerChain[lower - 1];
    }
  }

  /** convexHull with its result taken to be the hull vector itself (the
      intended result; see ConvexHullAsWritten). `lower` is the length of
      the lower chain, which runs from the lexicographically smallest point
      to the largest; the upper chain starts there and, for two or more
      points, ends back at the smallest. Every three consecutive points of
      either chain turn strictly left. */
  method ConvexHull(pointCloud: seq<Point>) returns (hull: seq<Point>, ghost lower: nat)
    ensures |pointCloud| == 0 ==> hull == []
    ensures |pointCloud| == 1 ==> hull == pointCloud
    ensures |hull| <= 2 * |pointCloud|
    ensures forall p :: p in hull ==> p in pointCloud
    ensures |pointCloud| >= 1 ==> 1 <= lower <= |hull|
    ensures |pointCloud| >= 1 ==> forall p :: p in pointCloud ==> !LexLess(p, hull[0]) && !LexLess(hull[lower - 1], p)
    ensures |pointCloud| >= 1 ==> LeftTurns(hull, Cross, 0, lower) && LeftTurns(hull, Cross, lower - 1, |hull|)
    ensures |pointCloud| >= 2 ==> |hull| > lower && hull[|hull| - 1] == hull[0]
  {
    var pts := SortBy(pointCloud, LexLess);
    SortedSameMembers(pointCloud);
    if |pointCloud| >= 1 {
      SortedExtremes(pointCloud);
    }
    hull, lower := ChainsOfSorted(pts, Cross);
  }

  /** convexHull as written: `QPolygonF poly(k)` already holds k default
      (origin) points, and the k points of the hull vector are appended
      after them. `hull` is that vector, the result of ConvexHull. */
  method ConvexHullAsWritten(pointCloud: seq<Point>) returns (poly: seq<Point>, hull: seq<Point>)
    ensures |poly| == 2 * |hull|
    ensures forall j :: 0 <= j < |hull| ==> poly[j] == Origin
    ensures poly[|hull|..] == hull
    ensures |hull| <= 2 * |pointCloud| && forall p :: p in hull ==> p in pointCloud
    ensures |pointCloud| == 1 ==> hull == pointCloud
    ensures |pointCloud| >= 2 ==> |hull| >= 2 && hull[|hull| - 1] == hull[0]
    ensures |pointCloud| >= 1 ==> poly[0] == Origin
    ensures |pointCloud| == 1 ==> poly == [Origin, pointCloud[0]]
  {
    ghost var lower;
    hull, lower := ConvexHull(pointCloud);
    poly := seq(|hull|, _ => Origin) + hull;
  }
}
