/**
  The second iteration of the integer triangle (Geometry/Shapes/Triangle.cs), a value
  type with the same constructor, sign and containment test as the first, plus the
  double area. The sign formula is the one defined in `Triangles`.
*/
module ShapesTriangles {
  import opened LongFractions
  import opened Vector2Fractions
  import opened Vector2Ints
  import opened BoundingBoxes
  import ShapesBoundingBoxes
  import Triangles

  datatype Triangle = Triangle(A: Vector2Int, B: Vector2Int, C: Vector2Int)

  /** Twice the signed area, the cross product of the edges leaving `v0`; zero when two corners coincide. */
  function Sign(v0: Vector2Int, v1: Vector2Int, v2: Vector2Int): (r: int)
    ensures r == (v1.X - v0.X) * (v2.Y - v0.Y) - (v1.Y - v0.Y) * (v2.X - v0.X)
    ensures v0 == v1 || v1 == v2 || v2 == v0 ==> r == 0
  {
    Triangles.SignFromFirstCorner(v0, v1, v2);
    Triangles.Sign(v0, v1, v2)
  }

  /** The constructor: `b` and `c` are exchanged when the corners turn clockwise. */
  function NewTriangle(a: Vector2Int, b: Vector2Int, c: Vector2Int): (t: Triangle)
    ensures t.A == a
    ensures (t.B == b && t.C == c) || (t.B == c && t.C == b)
    ensures Sign(t.A, t.B, t.C) >= 0
    ensures Sign(t.A, t.B, t.C) == Sign(a, b, c) || Sign(t.A, t.B, t.C) == -Sign(a, b, c)
    ensures Sign(a, b, c) >= 0 ==> t == Triangle(a, b, c)
    ensures Sign(a, b, c) < 0 ==> t == Triangle(a, c, b)
  {
    Triangles.SignSymmetries(a, b, c);
    if Sign(a, b, c) < 0 then Triangle(a, c, b) else Triangle(a, b, c)
  }

  /** Integer containment, inclusive of edges and corners: no mixed edge signs. */
  function ContainsPoint(t: Triangle, p: Vector2Int): (r: bool)
    ensures r <==>
      (Sign(p, t.A, t.B) >= 0 && Sign(p, t.B, t.C) >= 0 && Sign(p, t.C, t.A) >= 0) ||
      (Sign(p, t.A, t.B) <= 0 && Sign(p, t.B, t.C) <= 0 && Sign(p, t.C, t.A) <= 0)
  {
    var d1 := Sign(p, t.A, t.B);
    var d2 := Sign(p, t.B, t.C);
    var d3 := Sign(p, t.C, t.A);
    var hasNeg := d1 < 0 || d2 < 0 || d3 < 0;
    var hasPos := d1 > 0 || d2 > 0 || d3 > 0;
    !(hasNeg && hasPos)
  }

  /** The test agrees with the first iteration's on the same corners. */
  lemma ContainsPointAsPrimitive(t: Triangle, p: Vector2Int)
    ensures ContainsPoint(t, p) == Triangles.ContainsPoint(Triangles.Triangle(t.A, t.B, t.C), p)
  {
  }

  /** Every corner is contained. */
  lemma CornersContained(t: Triangle)
    ensures ContainsPoint(t, t.A) && ContainsPoint(t, t.B) && ContainsPoint(t, t.C)
  {
    Triangles.CornersContained(Triangles.Triangle(t.A, t.B, t.C));
  }

  /** `IsValid`: the corners are not collinear, as for the integer-grid triangle. */
  function IsValid(t: Triangle): (r: bool)
    ensures r <==> (t.B.X - t.A.X) * (t.C.Y - t.A.Y) != (t.B.Y - t.A.Y) * (t.C.X - t.A.X)
    ensures t.A == t.B || t.B == t.C || t.C == t.A ==> !r
    ensures r <==> Triangles.IsValid(Triangles.Triangle(t.A, t.B, t.C))
  {
    Sign(t.A, t.B, t.C) != 0
  }

  /** The centroid: each coordinate sum divided by 3, as a reduced fraction. */
  function GetCentroid(t: Triangle): (r: Vector2Fraction)
    ensures r.Normalised() && r.IsFinite()
    ensures r.X.Value() == (t.A.X + t.B.X + t.C.X) as real / 3.0
    ensures r.Y.Value() == (t.A.Y + t.B.Y + t.C.Y) as real / 3.0
    ensures r == Triangles.GetCentroid(Triangles.Triangle(t.A, t.B, t.C))
  {
    Vector2Fraction(New(t.A.X + t.B.X + t.C.X, 3), New(t.A.Y + t.B.Y + t.C.Y, 3))
  }

  /** The bounding box of the three corners, as a new `Shapes.BoundingBox`. */
  method GetBoundingBox(t: Triangle) returns (box: ShapesBoundingBoxes.BoundingBox)
    ensures fresh(box)
    ensures box.AsBox() == BoundsOf([t.A, t.B, t.C])
  {
    box := new ShapesBoundingBoxes.BoundingBox([t.A, t.B, t.C]);
  }

  /**
    `GetDoubleArea`, by the shoelace formula: the absolute value of the sign, so
    it is zero exactly for an invalid (collinear) triangle.
  */
  function GetDoubleArea(t: Triangle): (r: int)
    ensures r >= 0
    ensures r == Abs(Sign(t.A, t.B, t.C))
    ensures r == 0 <==> !IsValid(t)
  {
    ShoelaceIsSign(t.A, t.B, t.C);
    Abs(t.A.X * (t.B.Y - t.C.Y) + t.B.X * (t.C.Y - t.A.Y) + t.C.X * (t.A.Y - t.B.Y))
  }

  lemma ShoelaceIsSign(a: Vector2Int, b: Vector2Int, c: Vector2Int)
    ensures a.X * (b.Y - c.Y) + b.X * (c.Y - a.Y) + c.X * (a.Y - b.Y) == Sign(a, b, c)
  {
    var xa, ya, xb, yb, xc, yc := a.X, a.Y, b.X, b.Y, c.X, c.Y;
    assert Sign(a, b, c) == (xa - xc) * (yb - yc) - (xb - xc) * (ya - yc);
    assert (xa - xc) * (yb - yc) - (xb - xc) * (ya - yc)
        == xa * yb - xa * yc - xc * yb - xb * ya + xb * yc + xc * ya;
    assert xa * (yb - yc) + xb * (yc - ya) + xc * (ya - yb)
        == xa * yb - xa * yc + xb * yc - xb * ya + xc * ya - xc * yb;
  }

  /**
    The double area does not depend on the order of the corners, and for a
    constructed triangle it is the stored (non-negative) sign.
  */
  lemma DoubleAreaOrderFree(a: Vector2Int, b: Vector2Int, c: Vector2Int)
    ensures GetDoubleArea(Triangle(a, b, c)) == GetDoubleArea(Triangle(a, c, b))
    ensures GetDoubleArea(Triangle(a, b, c)) == GetDoubleArea(Triangle(b, c, a))
    ensures var t := NewTriangle(a, b, c); GetDoubleArea(t) == Sign(t.A, t.B, t.C)
  {
    Triangles.SignSymmetries(a, b, c);
  }
}
