/**
  The segment-intersection and polygon-simplicity checks of the vertex generator
  script (scripts/src/generate_vertices.py). Python integers are unbounded, as
  Dafny's are.
*/
module GenerateVertices {
  import Vector2Ints
  import Triangles
  import opened IntOrder

  /** A point as the script's (x, y) tuple. */
  datatype Point = Point(x: int, y: int)

  /**
    `orient(p, q, r)`: the cross product (q - p) x (r - p), which is the signed
    double area the triangle code calls `Sign`: positive for a counter-clockwise
    turn p, q, r.
  */
  function Orient(p: Point, q: Point, r: Point): (o: int)
    ensures o == Triangles.Sign(Vector2Ints.Vector2Int(p.x, p.y), Vector2Ints.Vector2Int(q.x, q.y),
                                Vector2Ints.Vector2Int(r.x, r.y))
  {
    Triangles.SignFromFirstCorner(Vector2Ints.Vector2Int(p.x, p.y), Vector2Ints.Vector2Int(q.x, q.y),
                                  Vector2Ints.Vector2Int(r.x, r.y));
    (q.x - p.x) * (r.y - p.y) - (q.y - p.y) * (r.x - p.x)
  }

  /** Exchanging the first two points negates the orientation; rotating keeps it. */
  lemma OrientSymmetries(p: Point, q: Point, r: Point)
    ensures Orient(q, p, r) == -Orient(p, q, r)
    ensures Orient(q, r, p) == Orient(p, q, r)
  {
    var xp, yp, xq, yq, xr, yr := p.x, p.y, q.x, q.y, r.x, r.y;
    assert Orient(p, q, r) == xq * yr - xq * yp - xp * yr - yq * xr + yq * xp + yp * xr;
    assert Orient(q, p, r) == xp * yr - xp * yq - xq * yr - yp * xr + yp * xq + yq * xr;
    assert Orient(q, r, p) == xr * yp - xr * yq - xq * yp - yr * xp + yr * xq + yq * xp;
  }

  /** `on_segment(p, q, r)`: q lies in the axis-aligned box spanned by p and r. */
  function OnSegment(p: Point, q: Point, r: Point): (b: bool)
    ensures b <==> ((p.x <= q.x <= r.x || r.x <= q.x <= p.x) && (p.y <= q.y <= r.y || r.y <= q.y <= p.y))
  {
    Min(p.x, r.x) <= q.x <= Max(p.x, r.x) && Min(p.y, r.y) <= q.y <= Max(p.y, r.y)
  }

  /** The box test does not depend on which end of the segment comes first, and holds at both ends. */
  lemma OnSegmentProperties(p: Point, q: Point, r: Point)
    ensures OnSegment(p, q, r) == OnSegment(r, q, p)
    ensures OnSegment(p, p, r) && OnSegment(p, r, r)
  {
  }

  /** `segments_intersect(a, b, c, d)`: a proper crossing, or a collinear endpoint lying on the other segment. */
  function SegmentsIntersect(a: Point, b: Point, c: Point, d: Point): (r: bool)
    ensures a == c || a == d || b == c || b == d ==> r
  {
    assert Orient(a, b, a) == 0 && Orient(a, b, b) == 0;
    var o1 := Orient(a, b, c);
    var o2 := Orient(a, b, d);
    var o3 := Orient(c, d, a);
    var o4 := Orient(c, d, b);
    if o1 * o2 < 0 && o3 * o4 < 0 then true
    else if o1 == 0 && OnSegment(a, c, b) then true
    else if o2 == 0 && OnSegment(a, d, b) then true
    else if o3 == 0 && OnSegment(c, a, d) then true
    else if o4 == 0 && OnSegment(c, b, d) then true
    else false
  }

  /**
    A proper crossing: each segment's endpoints lie strictly on opposite sides of
    the other segment's line.
  */
  lemma ProperCrossingIntersects(a: Point, b: Point, c: Point, d: Point)
    requires Orient(a, b, c) < 0 < Orient(a, b, d) || Orient(a, b, d) < 0 < Orient(a, b, c)
    requires Orient(c, d, a) < 0 < Orient(c, d, b) || Orient(c, d, b) < 0 < Orient(c, d, a)
    ensures SegmentsIntersect(a, b, c, d)
  {
    MulNegative(Orient(a, b, c), Orient(a, b, d));
    MulNegative(Orient(c, d, a), Orient(c, d, b));
  }

  lemma MulNegative(x: int, y: int)
    requires x < 0 < y || y < 0 < x
    ensures x * y < 0
  {
    if x < 0 {
      assert x * y <= -y;
    } else {
      assert x * y <= -x;
    }
  }

  /** The test is symmetric in the two segments. */
  lemma SegmentsIntersectSymmetric(a: Point, b: Point, c: Point, d: Point)
    ensures SegmentsIntersect(a, b, c, d) == SegmentsIntersect(c, d, a, b)
  {
    var o1, o2, o3, o4 := Orient(a, b, c), Orient(a, b, d), Orient(c, d, a), Orient(c, d, b);
    assert o1 * o2 == o2 * o1;
    assert o3 * o4 == o4 * o3;
  }

  /** The test does not depend on the direction of the first segment. */
  lemma SegmentsIntersectReversed(a: Point, b: Point, c: Point, d: Point)
    ensures SegmentsIntersect(a, b, c, d) == SegmentsIntersect(b, a, c, d)
  {
    OrientSymmetries(a, b, c);
    OrientSymmetries(a, b, d);
    var o1, o2, o3, o4 := Orient(a, b, c), Orient(a, b, d), Orient(c, d, a), Orient(c, d, b);
    assert (-o1) * (-o2) == o1 * o2;
    assert o4 * o3 == o3 * o4;
  }

  /**
    The pairs of edges the nested loops compare: edge i against a later edge j,
    skipping neighbours (|i - j| <= 1) and the pair (first edge, last edge).
  */
  predicate Examined(i: int, j: int, n: int)
  {
    0 <= i < j < n && !(j - i <= 1) && !(i == 0 && j == n - 1)
  }

  /** Edge i runs from point i to point (i + 1) mod n. */
  predicate EdgesCross(points: seq<Point>, i: nat, j: nat)
    requires i < |points| && j < |points|
  {
    var n := |points|;
    SegmentsIntersect(points[i], points[(i + 1) % n], points[j], points[(j + 1) % n])
  }

  /**
    The nested loops from pair (i, j) on: false at the first examined pair that
    crosses, true when the loops run out.
  */
  function ScanFrom(points: seq<Point>, i: nat, j: nat): (r: bool)
    requires i <= |points| && j <= |points| + 1
    requires i < |points| ==> i < j
    ensures r <==> forall i', j' :: Examined(i', j', |points|) && (i' > i || (i' == i && j' >= j)) ==>
                      !EdgesCross(points, i', j')
    decreases |points| - i, |points| + 1 - j
  {
    var n := |points|;
    if i >= n then true
    else if j >= n then ScanFrom(points, i + 1, i + 2)
    else if Examined(i, j, n) && EdgesCross(points, i, j) then false
    else ScanFrom(points, i, j + 1)
  }

  /** `is_simple_polygon`: no examined pair of edges intersects. */
  function IsSimplePolygon(points: seq<Point>): (r: bool)
    ensures r <==> forall i, j :: Examined(i, j, |points|) ==> !EdgesCross(points, i, j)
  {
    ScanFrom(points, 0, 1)
  }

  /** Every polygon of at most three points is reported simple: all its edge pairs are skipped. */
  lemma SmallPolygonsSimple(points: seq<Point>)
    requires |points| <= 3
    ensures IsSimplePolygon(points)
  {
  }

  /** A bow tie, whose first and third edges cross, is not simple. */
  lemma BowTieNotSimple()
    ensures !IsSimplePolygon([Point(0, 0), Point(2, 2), Point(2, 0), Point(0, 2)])
  {
    var points := [Point(0, 0), Point(2, 2), Point(2, 0), Point(0, 2)];
    assert Examined(0, 2, 4);
    assert EdgesCross(points, 0, 2) by {
      assert (0 + 1) % 4 == 1 && (2 + 1) % 4 == 3;
      ProperCrossingIntersects(points[0], points[1], points[2], points[3]);
    }
  }
}
