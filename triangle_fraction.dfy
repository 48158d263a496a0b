/** Triangles with exact rational corners (Geometry/Primitives/TriangleFraction.cs). */
module TriangleFractions {
  import opened LongFractions
  import Vector2Ints
  import Vector2Fractions
  import Triangles

  type Vector2Fraction = Vector2Fractions.Vector2Fraction

  datatype TriangleFraction = TriangleFraction(A: Vector2Fraction, B: Vector2Fraction, C: Vector2Fraction)

  /** The signed double area of three rational points, in real numbers. */
  ghost function RealSign(v0: Vector2Fraction, v1: Vector2Fraction, v2: Vector2Fraction): real
    requires v0.IsFinite() && v1.IsFinite() && v2.IsFinite()
  {
    (v0.X.Value() - v2.X.Value()) * (v1.Y.Value() - v2.Y.Value())
      - (v1.X.Value() - v2.X.Value()) * (v0.Y.Value() - v2.Y.Value())
  }

  /**
    The sign, built only from fraction `-` and `*`: infinite as soon as one
    coordinate is, and otherwise exactly the real signed double area.
  */
  function Sign(v0: Vector2Fraction, v1: Vector2Fraction, v2: Vector2Fraction): (r: LongFraction)
    ensures r.Normalised()
    ensures r.IsInfinity() <==> !(v0.IsFinite() && v1.IsFinite() && v2.IsFinite())
    ensures v0.IsFinite() && v1.IsFinite() && v2.IsFinite() ==> r.Value() == RealSign(v0, v1, v2)
  {
    var dx0, dy1, dx1, dy0 := Sub(v0.X, v2.X), Sub(v1.Y, v2.Y), Sub(v1.X, v2.X), Sub(v0.Y, v2.Y);
    if v0.IsFinite() && v1.IsFinite() && v2.IsFinite() then
      DeterminantOfDifferences(v0, v1, v2, dx0, dy1, dx1, dy0);
      Determinant(dx0, dy1, dx1, dy0)
    else
      Determinant(dx0, dy1, dx1, dy0)
  }

  /** The determinant of the four coordinate differences is the real signed double area. */
  lemma DeterminantOfDifferences(v0: Vector2Fraction, v1: Vector2Fraction, v2: Vector2Fraction,
                                 dx0: LongFraction, dy1: LongFraction, dx1: LongFraction, dy0: LongFraction)
    requires v0.IsFinite() && v1.IsFinite() && v2.IsFinite()
    requires !dx0.IsInfinity() && dx0.Value() == v0.X.Value() - v2.X.Value()
    requires !dy1.IsInfinity() && dy1.Value() == v1.Y.Value() - v2.Y.Value()
    requires !dx1.IsInfinity() && dx1.Value() == v1.X.Value() - v2.X.Value()
    requires !dy0.IsInfinity() && dy0.Value() == v0.Y.Value() - v2.Y.Value()
    ensures !Determinant(dx0, dy1, dx1, dy0).IsInfinity()
    ensures Determinant(dx0, dy1, dx1, dy0).Value() == RealSign(v0, v1, v2)
  {
  }

  /** `a * b - c * d` in fraction arithmetic: infinite exactly when an operand is. */
  function Determinant(a: LongFraction, b: LongFraction, c: LongFraction, d: LongFraction): (r: LongFraction)
    ensures r.Normalised()
    ensures r.IsInfinity() <==> a.IsInfinity() || b.IsInfinity() || c.IsInfinity() || d.IsInfinity()
    ensures !r.IsInfinity() ==> r.Value() == a.Value() * b.Value() - c.Value() * d.Value()
  {
    Sub(Mul(a, b), Mul(c, d))
  }

  lemma RealSignSymmetries(a: Vector2Fraction, b: Vector2Fraction, c: Vector2Fraction)
    requires a.IsFinite() && b.IsFinite() && c.IsFinite()
    ensures RealSign(a, c, b) == -RealSign(a, b, c)
  {
    var xa, ya, xb, yb, xc, yc := a.X.Value(), a.Y.Value(), b.X.Value(), b.Y.Value(), c.X.Value(), c.Y.Value();
    assert RealSign(a, c, b) == (xa - xb) * (yc - yb) - (xc - xb) * (ya - yb);
    assert RealSign(a, b, c) == (xa - xc) * (yb - yc) - (xb - xc) * (ya - yc);
  }

  /**
    The constructor: `a` stays first, and `b` and `c` are exchanged when the sign
    is negative, so the stored sign never is.
  */
  function NewTriangleFraction(a: Vector2Fraction, b: Vector2Fraction, c: Vector2Fraction): (t: TriangleFraction)
    ensures t.A == a
    ensures (t.B == b && t.C == c) || (t.B == c && t.C == b)
    ensures !Sign(t.A, t.B, t.C).IsNegative()
    ensures !Sign(a, b, c).IsNegative() ==> t == TriangleFraction(a, b, c)
  {
    if Sign(a, b, c).IsNegative() then
      RealSignSymmetries(a, b, c);
      TriangleFraction(a, c, b)
    else
      TriangleFraction(a, b, c)
  }

  /**
    Containment, inclusive of the boundary: false exactly when one edge sign is
    negative and another positive. For finite points this is "all edge signs on
    the same side"; an infinite point has only infinite signs and is reported inside.
  */
  function ContainsPoint(t: TriangleFraction, p: Vector2Fraction): (r: bool)
    ensures t.A.IsFinite() && t.B.IsFinite() && t.C.IsFinite() && p.IsFinite() ==>
      (r <==>
        (RealSign(p, t.A, t.B) >= 0.0 && RealSign(p, t.B, t.C) >= 0.0 && RealSign(p, t.C, t.A) >= 0.0) ||
        (RealSign(p, t.A, t.B) <= 0.0 && RealSign(p, t.B, t.C) <= 0.0 && RealSign(p, t.C, t.A) <= 0.0))
    ensures !p.IsFinite() ==> r
  {
    var d1 := Sign(p, t.A, t.B);
    var d2 := Sign(p, t.B, t.C);
    var d3 := Sign(p, t.C, t.A);
    var hasNeg := d1.IsNegative() || d2.IsNegative() || d3.IsNegative();
    var hasPos := d1.IsPositive() || d2.IsPositive() || d3.IsPositive();
    !(hasNeg && hasPos)
  }

  /** Every finite corner is contained. */
  lemma CornersContained(t: TriangleFraction)
    requires t.A.IsFinite() && t.B.IsFinite() && t.C.IsFinite()
    ensures ContainsPoint(t, t.A) && ContainsPoint(t, t.B) && ContainsPoint(t, t.C)
  {
    assert RealSign(t.A, t.A, t.B) == 0.0 && RealSign(t.A, t.C, t.A) == 0.0;
    assert RealSign(t.B, t.A, t.B) == 0.0 && RealSign(t.B, t.B, t.C) == 0.0;
    assert RealSign(t.C, t.B, t.C) == 0.0 && RealSign(t.C, t.C, t.A) == 0.0;
  }

  /** On grid points the rational sign is the integer sign, stored as n/1. */
  lemma IntegerSignAgrees(a: Vector2Ints.Vector2Int, b: Vector2Ints.Vector2Int, c: Vector2Ints.Vector2Int)
    ensures Sign(Vector2Ints.ToVector2Fraction(a), Vector2Ints.ToVector2Fraction(b), Vector2Ints.ToVector2Fraction(c))
         == LongFraction(Triangles.Sign(a, b, c), 1)
  {
    var fa, fb, fc := Vector2Ints.ToVector2Fraction(a), Vector2Ints.ToVector2Fraction(b), Vector2Ints.ToVector2Fraction(c);
    var s := Triangles.Sign(a, b, c);
    var xa, ya, xb, yb, xc, yc := a.X as real, a.Y as real, b.X as real, b.Y as real, c.X as real, c.Y as real;
    assert RealSign(fa, fb, fc) == (xa - xc) * (yb - yc) - (xb - xc) * (ya - yc);
    CastProduct(a.X - c.X, b.Y - c.Y);
    CastProduct(b.X - c.X, a.Y - c.Y);
    assert RealSign(fa, fb, fc) == s as real;
    Vector2Ints.WholeNumber(s);
    EqualIffIdentical(Sign(fa, fb, fc), New(s, 1));
  }

  lemma CastProduct(x: int, y: int)
    ensures (x * y) as real == x as real * y as real
  {
  }

  /**
    On grid points the rational triangle makes the same swap and the same
    containment decision as the integer triangle.
  */
  lemma ContainmentAgrees(a: Vector2Ints.Vector2Int, b: Vector2Ints.Vector2Int, c: Vector2Ints.Vector2Int,
                          p: Vector2Ints.Vector2Int)
    ensures var t := NewTriangleFraction(Vector2Ints.ToVector2Fraction(a), Vector2Ints.ToVector2Fraction(b),
                                         Vector2Ints.ToVector2Fraction(c));
            var u := Triangles.NewTriangle(a, b, c);
            t == TriangleFraction(Vector2Ints.ToVector2Fraction(u.A), Vector2Ints.ToVector2Fraction(u.B),
                                  Vector2Ints.ToVector2Fraction(u.C)) &&
            ContainsPoint(t, Vector2Ints.ToVector2Fraction(p)) == Triangles.ContainsPoint(u, p)
  {
    SwapAgrees(a, b, c);
    ContainsAgrees(Triangles.NewTriangle(a, b, c), p);
  }

  /** The rational constructor swaps exactly when the integer one does. */
  lemma SwapAgrees(a: Vector2Ints.Vector2Int, b: Vector2Ints.Vector2Int, c: Vector2Ints.Vector2Int)
    ensures var u := Triangles.NewTriangle(a, b, c);
            NewTriangleFraction(Vector2Ints.ToVector2Fraction(a), Vector2Ints.ToVector2Fraction(b),
                                Vector2Ints.ToVector2Fraction(c))
            == TriangleFraction(Vector2Ints.ToVector2Fraction(u.A), Vector2Ints.ToVector2Fraction(u.B),
                                Vector2Ints.ToVector2Fraction(u.C))
  {
    IntegerSignAgrees(a, b, c);
  }

  /** Containment of a grid point in a grid triangle is decided the same way in both types. */
  lemma ContainsAgrees(u: Triangles.Triangle, p: Vector2Ints.Vector2Int)
    ensures ContainsPoint(TriangleFraction(Vector2Ints.ToVector2Fraction(u.A), Vector2Ints.ToVector2Fraction(u.B),
                                           Vector2Ints.ToVector2Fraction(u.C)),
                          Vector2Ints.ToVector2Fraction(p))
         == Triangles.ContainsPoint(u, p)
  {
    IntegerSignAgrees(p, u.A, u.B);
    IntegerSignAgrees(p, u.B, u.C);
    IntegerSignAgrees(p, u.C, u.A);
  }
}
