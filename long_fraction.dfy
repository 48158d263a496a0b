/**
  Exact rational arithmetic (Geometry/Primitives/LongFraction.cs).

  A fraction is a numerator/denominator pair. The only constructor moves the
  sign to the numerator and divides both parts by their greatest common
  divisor, so every value the program builds is `Normalised`. A zero
  denominator is the single "infinity" sentinel: all infinities are equal to
  each other and greater than every finite value.

  The source uses 64-bit `long`s and warns that magnitudes must stay below
  about 2^20; the model uses unbounded integers, which agree with the source
  whenever no intermediate product overflows.
*/
module LongFractions {

  function Abs(x: int): (r: nat)
    ensures r == x || r == -x
  {
    if x < 0 then -x else x
  }

  // ---------------------------------------------------------------------------
  // Euclid's algorithm and the facts about divisibility it relies on
  // ---------------------------------------------------------------------------

  /** Euclid's algorithm as a recursive definition; `Gcd` below is the loop. */
  function EuclidGcd(a: nat, b: nat): nat
    decreases b
  {
    if b == 0 then a else EuclidGcd(b, a % b)
  }

  predicate IsCommonDivisor(d: int, a: nat, b: nat)
  {
    d > 0 && a % d == 0 && b % d == 0
  }

  /** `g` is the greatest common divisor of `a` and `b` (0 when both are 0). */
  ghost predicate IsGcd(g: nat, a: nat, b: nat)
  {
    && (a == 0 && b == 0 ==> g == 0)
    && (a != 0 || b != 0 ==>
          IsCommonDivisor(g, a, b) && forall d :: IsCommonDivisor(d, a, b) ==> d <= g)
  }

  /** Euclidean division has a unique quotient and remainder. */
  lemma DivModUnique(a: int, b: int, q: int, r: int)
    requires b > 0 && 0 <= r < b && a == q * b + r
    ensures a / b == q && a % b == r
  {
    var q0, r0 := a / b, a % b;
    assert a == q0 * b + r0;
    assert (q - q0) * b == r0 - r;
    assert (q0 - q) * b == r - r0;
    if q > q0 {
      MulAtLeast(q - q0, b);
      assert false;
    } else if q < q0 {
      MulAtLeast(q0 - q, b);
      assert false;
    }
  }

  lemma MulAtLeast(k: int, b: int)
    requires k >= 1 && b > 0
    ensures k * b >= b
  {
    assert k * b == (k - 1) * b + b;
    assert (k - 1) * b >= 0;
  }

  lemma MulMod(d: int, k: int)
    requires d > 0
    ensures (d * k) % d == 0 && (d * k) / d == k
  {
    DivModUnique(d * k, d, k, 0);
  }

  /** Scaling both arguments scales Euclid's GCD. */
  lemma {:induction false} GcdScale(k: nat, a: nat, b: nat)
    requires k > 0
    ensures EuclidGcd(k * a, k * b) == k * EuclidGcd(a, b)
    decreases b
  {
    if b == 0 {
      assert k * b == 0;
    } else {
      var q, r := a / b, a % b;
      assert a == q * b + r;
      assert k * a == q * (k * b) + k * r;
      assert 0 <= k * r < k * b by {
        assert k * (b - r) > 0;
      }
      DivModUnique(k * a, k * b, q, k * r);
      GcdScale(k, b, r);
    }
  }

  /** A number divisible by `g` is `g` times its quotient. */
  lemma ExactDivision(x: int, g: int)
    requires g > 0 && x % g == 0
    ensures x == g * (x / g)
  {
  }

  /** The linear combination behind both Euclid lemmas. */
  lemma Combine(g: int, a: int, b: int, r: int, q: int, kb: int, kr: int)
    requires b == g * kb && r == g * kr && a == q * b + r
    ensures a == g * (q * kb + kr)
  {
    calc {
      a;
      q * (g * kb) + g * kr;
      { assert q * (g * kb) == g * (q * kb); }
      g * (q * kb) + g * kr;
      g * (q * kb + kr);
    }
  }

  /** Euclid's GCD divides both arguments, and is positive unless both are 0. */
  lemma {:induction false} GcdDivides(a: nat, b: nat)
    requires a != 0 || b != 0
    ensures IsCommonDivisor(EuclidGcd(a, b), a, b)
    decreases b
  {
    var g := EuclidGcd(a, b);
    if b == 0 {
      MulMod(a, 1);
      MulMod(a, 0);
    } else {
      var r := a % b;
      GcdDivides(b, r);
      assert g == EuclidGcd(b, r);
      ExactDivision(b, g);
      ExactDivision(r, g);
      var q := a / b;
      assert a == q * b + r;
      Combine(g, a, b, r, q, b / g, r / g);
      MulMod(g, q * (b / g) + r / g);
    }
  }

  /** Every common divisor divides Euclid's GCD. */
  lemma {:induction false} GcdGreatest(a: nat, b: nat, d: int)
    requires IsCommonDivisor(d, a, b)
    ensures EuclidGcd(a, b) % d == 0
    decreases b
  {
    if b != 0 {
      var r := a % b;
      var q := a / b;
      assert a == q * b + r;
      ExactDivision(a, d);
      ExactDivision(b, d);
      var ka, kb := a / d, b / d;
      assert r == a - q * b;
      assert q * b == d * (q * kb);
      assert r == d * (ka - q * kb);
      MulMod(d, ka - q * kb);
      GcdGreatest(b, r, d);
    }
  }

  /** Euclid's recursion computes the greatest common divisor. */
  lemma EuclidGcdIsGcd(a: nat, b: nat)
    ensures IsGcd(EuclidGcd(a, b), a, b)
  {
    var g := EuclidGcd(a, b);
    if a == 0 && b == 0 {
      assert g == EuclidGcd(0, 0);
    } else {
      GcdDivides(a, b);
      forall d | IsCommonDivisor(d, a, b)
        ensures d <= g
      {
        GcdGreatest(a, b, d);
        DivisorAtMost(d, g);
      }
    }
  }

  /** A positive multiple of `d` is at least `d`. */
  lemma DivisorAtMost(d: int, g: int)
    requires d > 0 && g > 0 && g % d == 0
    ensures d <= g
  {
    var k := g / d;
    assert g == d * k;
    assert k > 0;
    MulAtLeast(k, d);
  }

  /** Euclid's algorithm exactly as the source runs it: a loop on two locals. */
  method Gcd(a0: nat, b0: nat) returns (r: nat)
    ensures r == EuclidGcd(a0, b0)
    ensures IsGcd(r, a0, b0)
  {
    var a, b := a0, b0;
    while b != 0
      invariant EuclidGcd(a, b) == EuclidGcd(a0, b0)
      decreases b
    {
      var temp := b;
      b := a % b;
      a := temp;
    }
    r := a;
    EuclidGcdIsGcd(a0, b0);
  }

  // ---------------------------------------------------------------------------
  // Arithmetic on reals that gives fractions their meaning
  // ---------------------------------------------------------------------------

  lemma CrossMulValue(n1: int, d1: int, n2: int, d2: int)
    requires d1 != 0 && d2 != 0 && n1 * d2 == n2 * d1
    ensures n1 as real / d1 as real == n2 as real / d2 as real
  {
    var a, b, c, e := n1 as real, d1 as real, n2 as real, d2 as real;
    assert a * e == c * b;
    calc {
      a / b;
      (a * e) / (b * e);
      (c * b) / (b * e);
      c / e;
    }
  }

  // ---------------------------------------------------------------------------
  // The fraction type
  // ---------------------------------------------------------------------------

  datatype LongFraction = LongFraction(num: int, den: int)
  {
    predicate IsInfinity()
    {
      den == 0
    }

    /** Zero is the finite fraction whose value is 0. */
    predicate IsZero(): (r: bool)
      ensures r <==> !IsInfinity() && Value() == 0.0
    {
      if IsInfinity() then false
      else
        var v := num as real / den as real;
        assert v * den as real == num as real;
        num == 0
    }

    /** One is the finite fraction whose value is 1, whatever the sign of its denominator. */
    predicate IsOne(): (r: bool)
      ensures r <==> !IsInfinity() && Value() == 1.0
    {
      if IsInfinity() then false
      else
        var v := num as real / den as real;
        assert v * den as real == num as real;
        num == den
    }

    /** Infinity and zero are neither positive nor negative; a reduced finite fraction is positive when its value is. */
    predicate IsPositive(): (r: bool)
      ensures IsInfinity() || IsZero() ==> !r
      ensures Normalised() && !IsInfinity() ==> (r <==> Value() > 0.0)
    {
      if IsInfinity() then false
      else if IsZero() then false
      else if den < 0 then num > 0
      else
        SignOfValue(num, den);
        num > 0
    }

    /** The mirror of `IsPositive`: a non-zero finite fraction is one or the other. */
    predicate IsNegative(): (r: bool)
      ensures IsInfinity() || IsZero() ==> !r
      ensures !IsInfinity() && !IsZero() ==> (r <==> !IsPositive())
      ensures Normalised() && !IsInfinity() ==> (r <==> Value() < 0.0)
    {
      if IsInfinity() then false
      else if IsZero() then false
      else if den < 0 then num < 0
      else
        SignOfValue(num, den);
        num < 0
    }

    /** The invariant the constructor establishes: a non-negative denominator and lowest terms. */
    predicate Normalised()
    {
      den >= 0 && EuclidGcd(Abs(num), den) == 1
    }

    /** The rational number a finite fraction stands for. */
    ghost function Value(): real
      requires !IsInfinity()
    {
      num as real / den as real
    }
  }

  /** The infinity that `+`, `-` and `*` return. */
  const Infinity := LongFraction(1, 0)

  /** Dividing by a divisor of |n|: the quotient of `n` carries the sign, that of |n| the size. */
  lemma ExactQuotient(n: int, g: int)
    requires g > 0 && Abs(n) % g == 0
    ensures n == g * (n / g) && Abs(n / g) == Abs(n) / g
  {
    var k := Abs(n) / g;
    assert Abs(n) == g * k;
    var s := if n < 0 then -k else k;
    assert n == g * s;
    MulMod(g, s);
  }

  /** The facts the constructor needs about its normalisation step. */
  lemma Normalise(n: int, d: nat)
    requires n != 0 || d != 0
    ensures EuclidGcd(Abs(n), d) > 0
    ensures var g := EuclidGcd(Abs(n), d);
      && n == g * (n / g) && d == g * (d / g)
      && EuclidGcd(Abs(n / g), d / g) == 1
  {
    var g := EuclidGcd(Abs(n), d);
    GcdDivides(Abs(n), d);
    ExactQuotient(n, g);
    ExactQuotient(d, g);
    ReducedIsCoprime(g, Abs(n), d, Abs(n / g), d / g);
  }

  /** Dividing two numbers by their GCD leaves numbers whose GCD is 1. */
  lemma ReducedIsCoprime(g: nat, a: nat, b: nat, ka: nat, kb: nat)
    requires g == EuclidGcd(a, b) && g > 0
    requires a == g * ka && b == g * kb
    ensures EuclidGcd(ka, kb) == 1
  {
    GcdScale(g, ka, kb);
    CancelFactor(g, EuclidGcd(ka, kb));
  }

  lemma CancelFactor(g: int, x: int)
    requires g > 0 && g * x == g
    ensures x == 1
  {
    assert g * (x - 1) == 0;
  }

  /** Dividing numerator and denominator by a common factor keeps the cross products equal. */
  lemma CommonFactor(n: int, d: int, g: int, kn: int, kd: int)
    requires n == g * kn && d == g * kd
    ensures kn * d == n * kd
  {
    assert kn * d == g * (kn * kd) == n * kd;
  }

  /** The constructor `new LongFraction(num, den)`; 0/0 throws in the source and is excluded. */
  function New(num: int, den: int): (r: LongFraction)
    requires num != 0 || den != 0
    ensures r.Normalised()
    ensures r.IsInfinity() <==> den == 0
    ensures r.num * den == num * r.den
    ensures den != 0 ==> r.Value() == num as real / den as real
  {
    // Normalise so the denominator is never negative
    var n := if den < 0 then -num else num;
    var d := if den < 0 then -den else den;
    // Simplify by the greatest common divisor
    Normalise(n, d);
    var g := EuclidGcd(Abs(n), d);
    var r := LongFraction(n / g, d / g);
    CommonFactor(n, d, g, r.num, r.den);
    NegateBoth(num, den, r.num, r.den);
    if den != 0 then
      CrossMulValue(r.num, r.den, num, den);
      r
    else
      r
  }

  lemma NegateBoth(num: int, den: int, x: int, y: int)
    ensures x * (if den < 0 then -den else den) == (if den < 0 then -num else num) * y
        ==> x * den == num * y
  {
    if den < 0 {
      assert x * -den == -(x * den);
      assert -num * y == -(num * y);
    }
  }

  /** A zero denominator marks infinity, whatever the numerator. */
  lemma InfinityIsZeroDenominator(num: int)
    requires num != 0
    ensures New(num, 0).IsInfinity()
    ensures Equal(New(num, 0), Infinity)
  {
  }

  lemma SignOfValue(n: int, d: int)
    requires d > 0
    ensures n > 0 <==> n as real / d as real > 0.0
    ensures n < 0 <==> n as real / d as real < 0.0
    ensures n == 0 <==> n as real / d as real == 0.0
    ensures n == d <==> n as real / d as real == 1.0
  {
    var v := n as real / d as real;
    assert v * d as real == n as real;
  }

  // ---------------------------------------------------------------------------
  // Arithmetic operators
  // ---------------------------------------------------------------------------

  /** The exact sum; infinity if either operand is infinite. */
  function Add(a: LongFraction, b: LongFraction): (r: LongFraction)
    ensures r.Normalised()
    ensures r.IsInfinity() <==> a.IsInfinity() || b.IsInfinity()
    ensures !r.IsInfinity() ==> r.Value() == a.Value() + b.Value()
  {
    if a.IsInfinity() || b.IsInfinity() then
      New(1, 0)
    else
      var num := a.num * b.den + b.num * a.den;
      var den := a.den * b.den;
      SumValue(a.num, a.den, b.num, b.den);
      New(num, den)
  }

  /** The exact difference; infinity if either operand is infinite. */
  function Sub(a: LongFraction, b: LongFraction): (r: LongFraction)
    ensures r.Normalised()
    ensures r.IsInfinity() <==> a.IsInfinity() || b.IsInfinity()
    ensures !r.IsInfinity() ==> r.Value() == a.Value() - b.Value()
  {
    if a.IsInfinity() || b.IsInfinity() then
      New(1, 0)
    else
      var num := a.num * b.den - b.num * a.den;
      var den := a.den * b.den;
      DifferenceValue(a.num, a.den, b.num, b.den);
      New(num, den)
  }

  /** The exact product; infinity if either operand is infinite. */
  function Mul(a: LongFraction, b: LongFraction): (r: LongFraction)
    ensures r.Normalised()
    ensures r.IsInfinity() <==> a.IsInfinity() || b.IsInfinity()
    ensures !r.IsInfinity() ==> r.Value() == a.Value() * b.Value()
  {
    if a.IsInfinity() || b.IsInfinity() then
      New(1, 0)
    else
      var numerator := a.num * b.num;
      var denominator := a.den * b.den;
      ProductValue(a.num, a.den, b.num, b.den);
      New(numerator, denominator)
  }

  lemma SumValue(n1: int, d1: int, n2: int, d2: int)
    requires d1 != 0 && d2 != 0
    ensures d1 * d2 != 0
    ensures (n1 * d2 + n2 * d1) as real / (d1 * d2) as real
         == n1 as real / d1 as real + n2 as real / d2 as real
  {
    var a, b, c, e := n1 as real, d1 as real, n2 as real, d2 as real;
    assert (n1 * d2 + n2 * d1) as real == a * e + c * b;
    assert (d1 * d2) as real == b * e;
    calc {
      (a * e + c * b) / (b * e);
      (a * e) / (b * e) + (c * b) / (b * e);
      a / b + c / e;
    }
  }

  lemma DifferenceValue(n1: int, d1: int, n2: int, d2: int)
    requires d1 != 0 && d2 != 0
    ensures d1 * d2 != 0
    ensures (n1 * d2 - n2 * d1) as real / (d1 * d2) as real
         == n1 as real / d1 as real - n2 as real / d2 as real
  {
    var a, b, c, e := n1 as real, d1 as real, n2 as real, d2 as real;
    assert (n1 * d2 - n2 * d1) as real == a * e - c * b;
    assert (d1 * d2) as real == b * e;
    calc {
      (a * e - c * b) / (b * e);
      (a * e) / (b * e) - (c * b) / (b * e);
      a / b - c / e;
    }
  }

  lemma ProductValue(n1: int, d1: int, n2: int, d2: int)
    requires d1 != 0 && d2 != 0
    ensures d1 * d2 != 0
    ensures (n1 * n2) as real / (d1 * d2) as real
         == (n1 as real / d1 as real) * (n2 as real / d2 as real)
  {
    var a, b, c, e := n1 as real, d1 as real, n2 as real, d2 as real;
    assert (n1 * n2) as real == a * c;
    assert (d1 * d2) as real == b * e;
  }

  // ---------------------------------------------------------------------------
  // Comparison operators
  // ---------------------------------------------------------------------------

  /** `a < b`: no infinity is less than anything; every finite value is less than infinity. */
  function Less(a: LongFraction, b: LongFraction): (r: bool)
    ensures a.IsInfinity() ==> !r
    ensures !a.IsInfinity() && b.IsInfinity() ==> r
    ensures a.Normalised() && b.Normalised() && !a.IsInfinity() && !b.IsInfinity() ==>
      (r <==> a.Value() < b.Value())
  {
    if a.IsInfinity() && b.IsInfinity() then false
    else if a.IsInfinity() then false
    else if b.IsInfinity() then true
    else
      LessValue(a.num, a.den, b.num, b.den);
      a.num * b.den < b.num * a.den
  }

  /** `a > b`: infinity is greater than every finite value, and not than another infinity. */
  function Greater(a: LongFraction, b: LongFraction): (r: bool)
    ensures b.IsInfinity() ==> !r
    ensures a.IsInfinity() && !b.IsInfinity() ==> r
    ensures a.Normalised() && b.Normalised() && !a.IsInfinity() && !b.IsInfinity() ==>
      (r <==> a.Value() > b.Value())
  {
    if a.IsInfinity() && b.IsInfinity() then false
    else if a.IsInfinity() then true
    else if b.IsInfinity() then false
    else
      LessValue(b.num, b.den, a.num, a.den);
      a.num * b.den > b.num * a.den
  }

  /** `a == b`: all infinities are equal; finite values are equal when their values are. */
  function Equal(a: LongFraction, b: LongFraction): (r: bool)
    ensures a.IsInfinity() && b.IsInfinity() ==> r
    ensures a.IsInfinity() != b.IsInfinity() ==> !r
    ensures !a.IsInfinity() && !b.IsInfinity() ==> (r <==> a.Value() == b.Value())
  {
    if a.IsInfinity() && b.IsInfinity() then true
    else if a.IsInfinity() || b.IsInfinity() then false
    else
      EqualValue(a.num, a.den, b.num, b.den);
      a.num * b.den == b.num * a.den
  }

  /** `a >= b` is `a > b || a == b`: infinity is at least everything, a finite value never reaches infinity. */
  function AtLeast(a: LongFraction, b: LongFraction): (r: bool)
    ensures a.IsInfinity() ==> r
    ensures !a.IsInfinity() && b.IsInfinity() ==> !r
    ensures a.Normalised() && b.Normalised() && !a.IsInfinity() && !b.IsInfinity() ==>
      (r <==> a.Value() >= b.Value())
  {
    Greater(a, b) || Equal(a, b)
  }

  /** `a <= b` is `a < b || a == b`: everything is at most infinity, infinity is at most only itself. */
  function AtMost(a: LongFraction, b: LongFraction): (r: bool)
    ensures b.IsInfinity() ==> r
    ensures a.IsInfinity() && !b.IsInfinity() ==> !r
    ensures a.Normalised() && b.Normalised() && !a.IsInfinity() && !b.IsInfinity() ==>
      (r <==> a.Value() <= b.Value())
  {
    Less(a, b) || Equal(a, b)
  }

  /** `a != b` is the negation of `a == b`: two infinities are never different, a finite value always differs from infinity. */
  function NotEqual(a: LongFraction, b: LongFraction): (r: bool)
    ensures a.IsInfinity() && b.IsInfinity() ==> !r
    ensures a.IsInfinity() != b.IsInfinity() ==> r
    ensures !a.IsInfinity() && !b.IsInfinity() ==> (r <==> a.Value() != b.Value())
  {
    !Equal(a, b)
  }

  lemma LessValue(n1: int, d1: int, n2: int, d2: int)
    requires d1 != 0 && d2 != 0
    ensures d1 > 0 && d2 > 0 ==>
      (n1 * d2 < n2 * d1 <==> n1 as real / d1 as real < n2 as real / d2 as real)
  {
    var a, b, c, e := n1 as real, d1 as real, n2 as real, d2 as real;
    assert (n1 * d2) as real == a * e;
    assert (n2 * d1) as real == c * b;
    assert a / b == (a * e) / (b * e);
    assert c / e == (c * b) / (b * e);
  }

  lemma EqualValue(n1: int, d1: int, n2: int, d2: int)
    requires d1 != 0 && d2 != 0
    ensures n1 * d2 == n2 * d1 <==> n1 as real / d1 as real == n2 as real / d2 as real
  {
    var a, b, c, e := n1 as real, d1 as real, n2 as real, d2 as real;
    assert (n1 * d2) as real == a * e;
    assert (n2 * d1) as real == c * b;
    assert a / b == (a * e) / (b * e);
    assert c / e == (c * b) / (b * e);
  }

  // ---------------------------------------------------------------------------
  // Properties of the order
  // ---------------------------------------------------------------------------

  /** Any two infinities are `==`, infinity is `>` every finite value, and no infinity is `<` anything. */
  lemma InfinityOrder(inf: LongFraction, other: LongFraction, x: LongFraction)
    requires inf.IsInfinity() && other.IsInfinity() && !x.IsInfinity()
    ensures Equal(inf, other) && !Less(inf, other) && !Greater(inf, other)
    ensures Greater(inf, x) && Less(x, inf) && !Less(inf, x) && !Equal(inf, x)
  {
  }

  /** For finite normalised values exactly one of `<`, `==`, `>` holds. */
  lemma Trichotomy(a: LongFraction, b: LongFraction)
    requires a.Normalised() && b.Normalised() && !a.IsInfinity() && !b.IsInfinity()
    ensures Less(a, b) || Equal(a, b) || Greater(a, b)
    ensures !(Less(a, b) && Equal(a, b)) && !(Less(a, b) && Greater(a, b)) && !(Equal(a, b) && Greater(a, b))
  {
  }

  /** `<` is transitive, also across infinity. */
  lemma LessTransitive(a: LongFraction, b: LongFraction, c: LongFraction)
    requires a.Normalised() && b.Normalised() && c.Normalised()
    requires Less(a, b) && Less(b, c)
    ensures Less(a, c)
  {
  }

  /**
    Normalised fractions are in canonical form: two finite normalised fractions
    are `==` exactly when they have the same numerator and denominator.
  */
  lemma EqualIffIdentical(a: LongFraction, b: LongFraction)
    requires a.Normalised() && b.Normalised() && !a.IsInfinity() && !b.IsInfinity()
    ensures Equal(a, b) <==> a == b
  {
    if Equal(a, b) {
      assert a.num * b.den == b.num * a.den;
      DenominatorDivides(a, b);
      DenominatorDivides(b, a);
      var k := b.den / a.den;
      assert b.den == a.den * k;
      var j := a.den / b.den;
      assert a.den == b.den * j;
      assert a.den == a.den * (k * j);
      assert k * j == 1;
      assert k == 1 by {
        if k >= 2 {
          assert j >= 1;
          MulAtLeast(j, k);
          assert false;
        }
      }
      assert a.num * b.den == b.num * b.den;
    }
  }

  /** With a.num * b.den == b.num * a.den and `a` in lowest terms, a.den divides b.den. */
  lemma DenominatorDivides(a: LongFraction, b: LongFraction)
    requires a.Normalised() && b.Normalised() && !a.IsInfinity() && !b.IsInfinity()
    requires a.num * b.den == b.num * a.den
    ensures b.den % a.den == 0
  {
    var x, y := Abs(a.num) * b.den, a.den * b.den;
    GcdScale(b.den, Abs(a.num), a.den);
    assert b.den * Abs(a.num) == x && b.den * a.den == y;
    assert EuclidGcd(x, y) == b.den;
    AbsMul(a.num, b.den);
    AbsMul(b.num, a.den);
    assert x == a.den * Abs(b.num);
    MulMod(a.den, Abs(b.num));
    MulMod(a.den, b.den);
    assert IsCommonDivisor(a.den, x, y);
    GcdGreatest(x, y, a.den);
  }

  lemma AbsMul(x: int, y: nat)
    ensures Abs(x * y) == Abs(x) * y
  {
    if x < 0 {
      assert x * y == -(Abs(x) * y);
    }
  }
}
