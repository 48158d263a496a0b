/** Triangles on the integer grid (Geometry/Primitives/Triangle.cs). */
module Triangles {
  import opened LongFractions
  import opened Vector2Fractions
  import opened Vector2Ints
  import opened BoundingBoxes

  /**
    The corners as stored. Every triangle the constructor `NewTriangle` builds is
    counter-clockwise or degenerate: `Sign(A, B, C) >= 0`.
  */
  datatype Triangle = Triangle(A: Vector2Int, B: Vector2Int, C: Vector2Int)

  /**
    Twice the signed area of (v0, v1, v2): positive when the corners turn
    counter-clockwise, negative when clockwise, zero when they are collinear.
  */
  function Sign(v0: Vector2Int, v1: Vector2Int, v2: Vector2Int): (r: int)
    ensures v0 == v1 || v1 == v2 || v2 == v0 ==> r == 0
  {
    (v0.X - v2.X) * (v1.Y - v2.Y) - (v1.X - v2.X) * (v0.Y - v2.Y)
  }

  /** The same quantity as the cross product of the two edges leaving `v0`. */
  lemma SignFromFirstCorner(v0: Vector2Int, v1: Vector2Int, v2: Vector2Int)
    ensures Sign(v0, v1, v2) == (v1.X - v0.X) * (v2.Y - v0.Y) - (v1.Y - v0.Y) * (v2.X - v0.X)
  {
    var x0, y0, x1, y1, x2, y2 := v0.X, v0.Y, v1.X, v1.Y, v2.X, v2.Y;
    assert (x0 - x2) * (y1 - y2) - (x1 - x2) * (y0 - y2)
        == x0 * y1 - x0 * y2 - x2 * y1 - x1 * y0 + x1 * y2 + x2 * y0;
    assert (x1 - x0) * (y2 - y0) - (y1 - y0) * (x2 - x0)
        == x1 * y2 - x1 * y0 - x0 * y2 - y1 * x2 + y1 * x0 + y0 * x2;
  }

  /** Exchanging two corners negates the sign; rotating the corners keeps it. */
  lemma SignSymmetries(a: Vector2Int, b: Vector2Int, c: Vector2Int)
    ensures Sign(a, c, b) == -Sign(a, b, c)
    ensures Sign(b, c, a) == Sign(a, b, c)
  {
    var xa, ya, xb, yb, xc, yc := a.X, a.Y, b.X, b.Y, c.X, c.Y;
    assert Sign(a, c, b) == (xa - xb) * (yc - yb) - (xc - xb) * (ya - yb);
    assert Sign(a, b, c) == (xa - xc) * (yb - yc) - (xb - xc) * (ya - yc);
    assert Sign(b, c, a) == (xb - xa) * (yc - ya) - (xc - xa) * (yb - ya);
    assert (xa - xb) * (yc - yb) - (xc - xb) * (ya - yb)
        == xa * yc - xa * yb - xb * yc - xc * ya + xc * yb + xb * ya;
    assert (xa - xc) * (yb - yc) - (xb - xc) * (ya - yc)
        == xa * yb - xa * yc - xc * yb - xb * ya + xb * yc + xc * ya;
    assert (xb - xa) * (yc - ya) - (xc - xa) * (yb - ya)
        == xb * yc - xb * ya - xa * yc - xc * yb + xc * ya + xa * yb;
  }

  /** The three edge signs of a point add up to the sign of the triangle. */
  lemma EdgeSignsSum(p: Vector2Int, a: Vector2Int, b: Vector2Int, c: Vector2Int)
    ensures Sign(p, a, b) + Sign(p, b, c) + Sign(p, c, a) == Sign(a, b, c)
  {
    var xp, yp, xa, ya, xb, yb, xc, yc := p.X, p.Y, a.X, a.Y, b.X, b.Y, c.X, c.Y;
    assert Sign(p, a, b) == xp * ya - xp * yb - xb * ya + xb * yb - xa * yp + xa * yb + xb * yp - xb * yb;
    assert Sign(p, b, c) == xp * yb - xp * yc - xc * yb + xc * yc - xb * yp + xb * yc + xc * yp - xc * yc;
    assert Sign(p, c, a) == xp * yc - xp * ya - xa * yc + xa * ya - xc * yp + xc * ya + xa * yp - xa * ya;
    assert Sign(a, b, c) == xa * yb - xa * yc - xc * yb + xc * yc - xb * ya + xb * yc + xc * ya - xc * yc;
  }

  /**
    The constructor: `a` stays first, and `b` and `c` are exchanged when the
    corners turn clockwise, so the stored sign is the absolute value of the given one.
  */
  function NewTriangle(a: Vector2Int, b: Vector2Int, c: Vector2Int): (t: Triangle)
    ensures t.A == a
    ensures (t.B == b && t.C == c) || (t.B == c && t.C == b)
    ensures Sign(t.A, t.B, t.C) >= 0
    ensures Sign(t.A, t.B, t.C) == Sign(a, b, c) || Sign(t.A, t.B, t.C) == -Sign(a, b, c)
    ensures Sign(a, b, c) >= 0 ==> t == Triangle(a, b, c)
    ensures Sign(a, b, c) < 0 ==> t == Triangle(a, c, b)
  {
    SignSymmetries(a, b, c);
    if Sign(a, b, c) < 0 then Triangle(a, c, b) else Triangle(a, b, c)
  }

  /**
    True when `p` is inside the triangle or on its boundary: its three edge signs
    do not include both a negative and a positive one.
  */
  function ContainsPoint(t: Triangle, p: Vector2Int): (r: bool)
    ensures r <==>
      (Sign(p, t.A, t.B) >= 0 && Sign(p, t.B, t.C) >= 0 && Sign(p, t.C, t.A) >= 0) ||
      (Sign(p, t.A, t.B) <= 0 && Sign(p, t.B, t.C) <= 0 && Sign(p, t.C, t.A) <= 0)
  {
    var d1 := Sign(p, t.A, t.B);
    var d2 := Sign(p, t.B, t.C);
    var d3 := Sign(p, t.C, t.A);
    var hasNeg := d1 < 0 || d2 < 0 || d3 < 0;
    var hasPos := d1 > 0 || d2 > 0 || d3 > 0;
    !(hasNeg && hasPos)
  }

  /** Each corner lies on two edges, so it is always contained. */
  lemma CornersContained(t: Triangle)
    ensures ContainsPoint(t, t.A) && ContainsPoint(t, t.B) && ContainsPoint(t, t.C)
  {
    assert Sign(t.A, t.A, t.B) == 0 && Sign(t.A, t.C, t.A) == 0;
    assert Sign(t.B, t.A, t.B) == 0 && Sign(t.B, t.B, t.C) == 0;
    assert Sign(t.C, t.B, t.C) == 0 && Sign(t.C, t.C, t.A) == 0;
  }

  /**
    For a counter-clockwise triangle, containment is the half-plane test: the point
    is on the left of, or on, every directed edge.
  */
  lemma CounterClockwiseContainment(t: Triangle, p: Vector2Int)
    requires Sign(t.A, t.B, t.C) > 0
    ensures ContainsPoint(t, p) <==>
      Sign(p, t.A, t.B) >= 0 && Sign(p, t.B, t.C) >= 0 && Sign(p, t.C, t.A) >= 0
  {
    EdgeSignsSum(p, t.A, t.B, t.C);
  }

  /** `IsValid`: the corners are not collinear (the edges leaving A are not parallel). */
  function IsValid(t: Triangle): (r: bool)
    ensures r <==> (t.B.X - t.A.X) * (t.C.Y - t.A.Y) != (t.B.Y - t.A.Y) * (t.C.X - t.A.X)
    ensures t.A == t.B || t.B == t.C || t.C == t.A ==> !r
  {
    SignFromFirstCorner(t.A, t.B, t.C);
    Sign(t.A, t.B, t.C) != 0
  }

  /**
    A constructed triangle is valid exactly when its corners were not collinear,
    and then it is strictly counter-clockwise; two equal corners make it invalid.
  */
  lemma ValidAfterConstruction(a: Vector2Int, b: Vector2Int, c: Vector2Int)
    ensures IsValid(NewTriangle(a, b, c)) <==> Sign(a, b, c) != 0
    ensures IsValid(NewTriangle(a, b, c)) ==> Sign(NewTriangle(a, b, c).A, NewTriangle(a, b, c).B, NewTriangle(a, b, c).C) > 0
    ensures a == b || b == c || c == a ==> !IsValid(NewTriangle(a, b, c))
  {
    SignSymmetries(a, b, c);
  }

  /** The centroid: each coordinate sum divided by 3, as a reduced fraction. */
  function GetCentroid(t: Triangle): (r: Vector2Fraction)
    ensures r.Normalised() && r.IsFinite()
    ensures r.X.Value() == (t.A.X + t.B.X + t.C.X) as real / 3.0
    ensures r.Y.Value() == (t.A.Y + t.B.Y + t.C.Y) as real / 3.0
  {
    Vector2Fraction(New(t.A.X + t.B.X + t.C.X, 3), New(t.A.Y + t.B.Y + t.C.Y, 3))
  }

  /** The centroid does not depend on which corner is stored first or on the winding. */
  lemma CentroidOfConstructed(a: Vector2Int, b: Vector2Int, c: Vector2Int)
    ensures GetCentroid(NewTriangle(a, b, c)) == GetCentroid(Triangle(c, a, b))
  {
    var t := NewTriangle(a, b, c);
    assert t.A.X + t.B.X + t.C.X == c.X + a.X + b.X;
    assert t.A.Y + t.B.Y + t.C.Y == c.Y + a.Y + b.Y;
  }

  /** A centroid on the grid is the grid point with the averaged coordinates. */
  lemma GridCentroid(t: Triangle, g: Vector2Int)
    requires t.A.X + t.B.X + t.C.X == 3 * g.X && t.A.Y + t.B.Y + t.C.Y == 3 * g.Y
    ensures GetCentroid(t) == ToVector2Fraction(g)
  {
    var r := GetCentroid(t);
    EqualIffIdentical(r.X, ToVector2Fraction(g).X);
    EqualIffIdentical(r.Y, ToVector2Fraction(g).Y);
  }

  /** The bounding box of the three corners, as a new `BoundingBox`. */
  method GetBoundingBox(t: Triangle) returns (box: BoundingBox)
    ensures fresh(box)
    ensures box.AsBox() == BoundsOf([t.A, t.B, t.C])
  {
    box := new BoundingBox([t.A, t.B, t.C]);
  }

  /** The box of a triangle encloses its three corners. */
  lemma BoundingBoxEnclosesCorners(t: Triangle)
    ensures BoundsOf([t.A, t.B, t.C]).Encloses(t.A)
    ensures BoundsOf([t.A, t.B, t.C]).Encloses(t.B)
    ensures BoundsOf([t.A, t.B, t.C]).Encloses(t.C)
  {
    var corners := [t.A, t.B, t.C];
    BoundsEncloseAll(corners);
    assert BoundsOf(corners).Encloses(corners[0]);
    assert BoundsOf(corners).Encloses(corners[1]);
    assert BoundsOf(corners).Encloses(corners[2]);
  }
}
