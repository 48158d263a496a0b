/** Points with exact rational coordinates (Geometry/Primitives/Vector2Fraction.cs). */
module Vector2Fractions {
  import opened LongFractions

  datatype Vector2Fraction = Vector2Fraction(X: LongFraction, Y: LongFraction)
  {
    /** Both coordinates are in the form the fraction constructor produces. */
    predicate Normalised()
    {
      X.Normalised() && Y.Normalised()
    }

    predicate IsFinite()
    {
      !X.IsInfinity() && !Y.IsInfinity()
    }
  }

  /** `a + b`: the fraction sum of each coordinate. */
  function Add(a: Vector2Fraction, b: Vector2Fraction): (r: Vector2Fraction)
    ensures r.Normalised()
    ensures a.IsFinite() && b.IsFinite() ==>
      r.IsFinite() && r.X.Value() == a.X.Value() + b.X.Value() && r.Y.Value() == a.Y.Value() + b.Y.Value()
  {
    Vector2Fraction(LongFractions.Add(a.X, b.X), LongFractions.Add(a.Y, b.Y))
  }

  /** `a - b`: the fraction difference of each coordinate. */
  function Sub(a: Vector2Fraction, b: Vector2Fraction): (r: Vector2Fraction)
    ensures r.Normalised()
    ensures a.IsFinite() && b.IsFinite() ==>
      r.IsFinite() && r.X.Value() == a.X.Value() - b.X.Value() && r.Y.Value() == a.Y.Value() - b.Y.Value()
  {
    Vector2Fraction(LongFractions.Sub(a.X, b.X), LongFractions.Sub(a.Y, b.Y))
  }

  /**
    `==`: both coordinates `==` as fractions. For finite points this is equality
    of the rational coordinates, whatever form the fractions are stored in; an
    infinite coordinate matches any infinite coordinate.
  */
  function Equals(a: Vector2Fraction, b: Vector2Fraction): (r: bool)
    ensures a.IsFinite() && b.IsFinite() ==>
      (r <==> a.X.Value() == b.X.Value() && a.Y.Value() == b.Y.Value())
    ensures a.X.IsInfinity() && b.X.IsInfinity() ==> (r <==> Equal(a.Y, b.Y))
    ensures a.Y.IsInfinity() && b.Y.IsInfinity() ==> (r <==> Equal(a.X, b.X))
  {
    Equal(a.X, b.X) && Equal(a.Y, b.Y)
  }

  /** `!=` is the negation of `==`: for finite points, some coordinate differs in value. */
  function NotEquals(a: Vector2Fraction, b: Vector2Fraction): (r: bool)
    ensures a.IsFinite() && b.IsFinite() ==>
      (r <==> a.X.Value() != b.X.Value() || a.Y.Value() != b.Y.Value())
    ensures a.X.IsInfinity() && b.X.IsInfinity() ==> (r <==> NotEqual(a.Y, b.Y))
    ensures a.Y.IsInfinity() && b.Y.IsInfinity() ==> (r <==> NotEqual(a.X, b.X))
  {
    !Equals(a, b)
  }

  /** `==` on fraction points is reflexive, symmetric and transitive. */
  lemma EqualsIsEquivalence(a: Vector2Fraction, b: Vector2Fraction, c: Vector2Fraction)
    ensures Equals(a, a)
    ensures Equals(a, b) ==> Equals(b, a)
    ensures Equals(a, b) && Equals(b, c) ==> Equals(a, c)
  {
  }

  /**
    `==` goes by value, not by stored form: (2/4, 3/1) == (1/2, 6/2). The
    constructor reduces every fraction, so it never stores 2/4 or 6/2; the
    unreduced forms only show that `Equals` does not rely on that reduction.
  */
  lemma UnreducedFormsAreEqual()
    ensures Equals(Vector2Fraction(LongFraction(2, 4), LongFraction(3, 1)),
                   Vector2Fraction(LongFraction(1, 2), LongFraction(6, 2)))
    ensures Vector2Fraction(LongFraction(2, 4), LongFraction(3, 1))
         != Vector2Fraction(LongFraction(1, 2), LongFraction(6, 2))
  {
  }
}
