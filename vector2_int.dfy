/** Points on the integer grid (Geometry/Primitives/Vector2Int.cs). */
module Vector2Ints {
  import opened LongFractions
  import opened Vector2Fractions

  /** C# `int` range, the width of each coordinate in the source. */
  const IntMinValue: int := -0x8000_0000
  const IntMaxValue: int := 0x7FFF_FFFF

  datatype Vector2Int = Vector2Int(X: int, Y: int)

  predicate InIntRange(v: Vector2Int)
  {
    IntMinValue <= v.X <= IntMaxValue && IntMinValue <= v.Y <= IntMaxValue
  }

  /** `a + b`, componentwise; `a - b` undoes it. */
  function Add(a: Vector2Int, b: Vector2Int): (r: Vector2Int)
    ensures r.X - b.X == a.X && r.Y - b.Y == a.Y
  {
    Vector2Int(a.X + b.X, a.Y + b.Y)
  }

  /** `a - b`, componentwise; adding `b` back gives `a`. */
  function Sub(a: Vector2Int, b: Vector2Int): (r: Vector2Int)
    ensures Add(r, b) == a
  {
    Vector2Int(a.X - b.X, a.Y - b.Y)
  }

  /** `==`: both coordinates equal, which is identity of the two points. */
  function Equals(a: Vector2Int, b: Vector2Int): (r: bool)
    ensures r <==> a == b
  {
    a.X == b.X && a.Y == b.Y
  }

  /** `!=` is the negation of `==`. */
  function NotEquals(a: Vector2Int, b: Vector2Int): (r: bool)
    ensures r <==> a != b
  {
    !Equals(a, b)
  }

  /** `ToVector2Fraction`: the point (X/1, Y/1), with the same coordinates as rationals. */
  function ToVector2Fraction(v: Vector2Int): (r: Vector2Fraction)
    ensures r == Vector2Fraction(LongFraction(v.X, 1), LongFraction(v.Y, 1))
    ensures r.Normalised() && r.IsFinite()
    ensures r.X.Value() == v.X as real && r.Y.Value() == v.Y as real
  {
    WholeNumber(v.X);
    WholeNumber(v.Y);
    var x := New(v.X, 1);
    var y := New(v.Y, 1);
    Vector2Fraction(x, y)
  }

  /** Integer points are `==` exactly when their fraction points are. */
  lemma ToVector2FractionInjective(a: Vector2Int, b: Vector2Int)
    ensures Equals(a, b) <==> Vector2Fractions.Equals(ToVector2Fraction(a), ToVector2Fraction(b))
  {
  }

  /** A whole number n is stored as n/1. */
  lemma WholeNumber(n: int)
    ensures New(n, 1) == LongFraction(n, 1)
  {
    assert EuclidGcd(Abs(n), 1) == EuclidGcd(1, 0) == 1;
  }
}
