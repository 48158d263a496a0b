/** Simple polygons on the integer grid (Geometry/Shapes/Polygon.cs). */
module ShapesPolygons {
  import opened LongFractions
  import opened Vector2Ints
  import Triangles
  import opened IntOrder

  /** C# `long` division: the quotient is truncated toward zero. */
  function TruncDiv(a: int, b: int): (q: int)
    requires b != 0
    ensures Abs(q) * Abs(b) <= Abs(a) < (Abs(q) + 1) * Abs(b)
    ensures q == 0 || (q < 0 <==> (a < 0) != (b < 0))
  {
    var m := Abs(a) / Abs(b);
    DivBounds(Abs(a), Abs(b));
    if (a < 0) != (b < 0) then -m else m
  }

  lemma DivBounds(x: nat, y: nat)
    requires y > 0
    ensures x / y >= 0
    ensures (x / y) * y <= x < (x / y + 1) * y
  {
    var q, r := x / y, x % y;
    assert x == q * y + r;
    assert (q + 1) * y == q * y + y;
  }

  /**
    What truncation leaves over: less than one divisor in size, and never of the
    opposite sign to the dividend (a floor division would leave the divisor's sign).
  */
  lemma TruncRemainder(a: int, b: int)
    requires b != 0
    ensures Abs(a - TruncDiv(a, b) * b) < Abs(b)
    ensures a - TruncDiv(a, b) * b == 0 || ((a - TruncDiv(a, b) * b < 0) <==> a < 0)
  {
    var m, rr := Abs(a) / Abs(b), Abs(a) % Abs(b);
    assert Abs(a) == m * Abs(b) + rr && 0 <= rr < Abs(b);
    RemainderBySign(a, b, m, rr, TruncDiv(a, b));
  }

  lemma RemainderBySign(a: int, b: int, m: int, rr: int, q: int)
    requires b != 0 && m >= 0 && Abs(a) == m * Abs(b) + rr && 0 <= rr < Abs(b)
    requires q == (if (a < 0) != (b < 0) then -m else m)
    ensures a - q * b == (if a < 0 then -rr else rr)
  {
    if b < 0 {
      assert m * Abs(b) == -(m * b);
    } else {
      assert m * Abs(b) == m * b;
    }
  }

  /** Truncation agrees with Dafny's division on non-negative quotients and rounds up on negative ones. */
  lemma TruncDivExamples()
    ensures TruncDiv(7, 2) == 3 && TruncDiv(-7, 2) == -3 && TruncDiv(7, -2) == -3 && TruncDiv(-7, -2) == 3
    ensures -7 / 2 == -4
  {
  }

  /** The edge from `current` to `next` straddles the horizontal line through `p` (lower end excluded). */
  predicate CrossesY(current: Vector2Int, next: Vector2Int, p: Vector2Int)
  {
    p.Y > Min(next.Y, current.Y) && p.Y <= Max(next.Y, current.Y)
  }

  /** Only non-horizontal edges can straddle the line, so the division below is defined. */
  lemma CrossingEdgeNotHorizontal(current: Vector2Int, next: Vector2Int, p: Vector2Int)
    requires CrossesY(current, next, p)
    ensures current.Y != next.Y
  {
  }

  /**
    Where the edge meets the line y = p.Y, with the source's truncating division:
    the point (x, p.Y) is less than one unit, horizontally, from the edge's line
    (the triangle it forms with the edge has a signed double area below |deltaY|).
  */
  function IntersectX(current: Vector2Int, next: Vector2Int, p: Vector2Int): (x: int)
    requires current.Y != next.Y
    ensures Abs(Triangles.Sign(next, current, Vector2Int(x, p.Y))) < Abs(current.Y - next.Y)
  {
    var deltaX := current.X - next.X;
    var deltaY := current.Y - next.Y;
    var q := TruncDiv(deltaX * (p.Y - next.Y), deltaY);
    TruncRemainder(deltaX * (p.Y - next.Y), deltaY);
    OffsetSign(current, next, p, q);
    next.X + q
  }

  /** The signed double area of (next, current, (next.X + q, p.Y)) in terms of the offset q. */
  lemma OffsetSign(current: Vector2Int, next: Vector2Int, p: Vector2Int, q: int)
    ensures Triangles.Sign(next, current, Vector2Int(next.X + q, p.Y))
         == (current.X - next.X) * (p.Y - next.Y) - q * (current.Y - next.Y)
  {
    Triangles.SignFromFirstCorner(next, current, Vector2Int(next.X + q, p.Y));
  }

  /** The edge flips the even-odd state: it straddles the line and meets it to the right of `p`. */
  predicate Toggles(current: Vector2Int, next: Vector2Int, p: Vector2Int)
  {
    CrossesY(current, next, p) && p.X < IntersectX(current, next, p)
  }

  /** `Toggles` spelled out the way the loop computes it, with the division written inline. */
  lemma ToggleStep(current: Vector2Int, next: Vector2Int, p: Vector2Int)
    ensures Toggles(current, next, p)
        <==> CrossesY(current, next, p) && current.Y != next.Y
             && p.X < next.X + TruncDiv((current.X - next.X) * (p.Y - next.Y), current.Y - next.Y)
  {
    if CrossesY(current, next, p) {
      CrossingEdgeNotHorizontal(current, next, p);
    }
  }

  /** The closed ring of edges: edge i runs from vertex i to vertex (i + 1) mod n. */
  function Edges(vs: seq<Vector2Int>): (es: seq<(Vector2Int, Vector2Int)>)
    ensures |es| == |vs|
    ensures forall i :: 0 <= i < |vs| ==> es[i] == (vs[i], vs[(i + 1) % |vs|])
  {
    seq(|vs|, i requires 0 <= i < |vs| => (vs[i], vs[(i + 1) % |vs|]))
  }

  /** How many of the edges flip the state for `p`. */
  function CountToggles(es: seq<(Vector2Int, Vector2Int)>, p: Vector2Int): nat
  {
    if |es| == 0 then 0
    else CountToggles(es[..|es| - 1], p) + (if Toggles(es[|es| - 1].0, es[|es| - 1].1, p) then 1 else 0)
  }

  /** The even-odd rule: inside when an odd number of edges flip the state. */
  predicate Inside(vs: seq<Vector2Int>, p: Vector2Int)
  {
    CountToggles(Edges(vs), p) % 2 == 1
  }

  lemma {:induction false} CountTogglesAppend(a: seq<(Vector2Int, Vector2Int)>, b: seq<(Vector2Int, Vector2Int)>, p: Vector2Int)
    ensures CountToggles(a + b, p) == CountToggles(a, p) + CountToggles(b, p)
    decreases |b|
  {
    if |b| > 0 {
      var b' := b[..|b| - 1];
      assert (a + b)[..|a + b| - 1] == a + b';
      CountTogglesAppend(a, b', p);
    } else {
      assert a + b == a;
    }
  }

  /** Counting one more edge adds that edge's toggle. */
  lemma CountTogglesStep(es: seq<(Vector2Int, Vector2Int)>, i: nat, p: Vector2Int)
    requires i < |es|
    ensures CountToggles(es[..i + 1], p) == CountToggles(es[..i], p) + (if Toggles(es[i].0, es[i].1, p) then 1 else 0)
  {
    assert es[..i + 1][..i] == es[..i];
  }

  /** The prefix of the ring's edges grows by edge i, from vertex i to the next one. */
  lemma EdgeStep(vs: seq<Vector2Int>, i: nat, p: Vector2Int)
    requires i < |vs|
    ensures CountToggles(Edges(vs)[..i + 1], p)
         == CountToggles(Edges(vs)[..i], p) + (if Toggles(vs[i], vs[(i + 1) % |vs|], p) then 1 else 0)
  {
    CountTogglesStep(Edges(vs), i, p);
  }

  /** Adding one toggle flips the parity; adding none keeps it. */
  lemma ParityStep(c: nat, t: bool)
    ensures ((c + (if t then 1 else 0)) % 2 == 1) == ((c % 2 == 1) != t)
  {
  }

  /**
    One turn of the even-odd loop: counting edge i flips the parity exactly when the
    inline crossing test (straddles the line, meets it right of `p`) holds for that edge.
  */
  lemma ParityAfterEdge(vs: seq<Vector2Int>, i: nat, p: Vector2Int)
    requires i < |vs|
    ensures var current, next := vs[i], vs[(i + 1) % |vs|];
      (CountToggles(Edges(vs)[..i + 1], p) % 2 == 1)
      <==> ((CountToggles(Edges(vs)[..i], p) % 2 == 1)
            != (CrossesY(current, next, p) && current.Y != next.Y
                && p.X < next.X + TruncDiv((current.X - next.X) * (p.Y - next.Y), current.Y - next.Y)))
  {
    var current, next := vs[i], vs[(i + 1) % |vs|];
    ToggleStep(current, next, p);
    EdgeStep(vs, i, p);
    ParityStep(CountToggles(Edges(vs)[..i], p), Toggles(current, next, p));
  }

  /** The index after `i` on a ring of `n`, as `(i + 1) % n` computes it. */
  lemma NextIndex(i: int, n: int)
    requires 0 <= i < n
    ensures (i + 1) % n == if i + 1 < n then i + 1 else 0
  {
    if i + 1 == n {
      assert (i + 1) % n == n % n == 0;
    }
  }

  /** Edge i of the ring started at vertex k is edge (k + i) mod n of the original ring. */
  lemma RotatedEdge(vs: seq<Vector2Int>, k: nat, i: nat)
    requires k <= |vs| && i < |vs|
    ensures var n := |vs|;
            var j := if i < n - k then k + i else i - (n - k);
            Edges(vs[k..] + vs[..k])[i] == Edges(vs)[j]
  {
    var n := |vs|;
    var r := vs[k..] + vs[..k];
    var j := if i < n - k then k + i else i - (n - k);
    assert r[i] == vs[j];
    NextIndex(i, n);
    NextIndex(j, n);
    if i + 1 < n && i + 1 != n - k {
      assert r[i + 1] == vs[j + 1];
    } else if i + 1 < n {
      assert r[i + 1] == vs[0];
    } else if k < n {
      assert r[0] == vs[k];
    } else {
      assert r[0] == vs[0];
    }
  }

  /** Starting the ring at vertex k gives the same edges, rotated. */
  lemma EdgesRotated(vs: seq<Vector2Int>, k: nat)
    requires k <= |vs|
    ensures Edges(vs[k..] + vs[..k]) == Edges(vs)[k..] + Edges(vs)[..k]
  {
    var lhs, rhs := Edges(vs[k..] + vs[..k]), Edges(vs)[k..] + Edges(vs)[..k];
    forall i | 0 <= i < |vs|
      ensures lhs[i] == rhs[i]
    {
      RotatedEdge(vs, k, i);
    }
  }

  /** The even-odd result does not depend on which vertex the ring starts at. */
  lemma InsideRotationInvariant(vs: seq<Vector2Int>, k: nat, p: Vector2Int)
    requires k <= |vs|
    ensures Inside(vs[k..] + vs[..k], p) == Inside(vs, p)
  {
    EdgesRotated(vs, k);
    CountTogglesRotated(Edges(vs), k, p);
  }

  /** Rotating a sequence of edges does not change how many of them toggle. */
  lemma CountTogglesRotated(es: seq<(Vector2Int, Vector2Int)>, k: nat, p: Vector2Int)
    requires k <= |es|
    ensures CountToggles(es[k..] + es[..k], p) == CountToggles(es, p)
  {
    CountTogglesAppend(es[k..], es[..k], p);
    CountTogglesAppend(es[..k], es[k..], p);
    assert es[..k] + es[k..] == es;
  }

  /** A polygon with no vertices contains no point. */
  lemma EmptyContainsNothing(p: Vector2Int)
    ensures !Inside([], p)
  {
  }

  /** `Shapes.Polygon`: the vertex list is a field. */
  class Polygon {
    var Vertices: seq<Vector2Int>

    /** `new Polygon()`: no vertices. */
    constructor Empty()
      ensures Vertices == []
    {
      Vertices := [];
    }

    constructor (v: seq<Vector2Int>)
      ensures Vertices == v
    {
      Vertices := v;
    }

    /** The even-odd test: walks the edges, flipping `inside` at each edge that `Toggles`. */
    method ContainsPoint(point: Vector2Int) returns (inside: bool)
      ensures inside <==> Inside(Vertices, point)
    {
      inside := false;
      var n := |Vertices|;
      var i := 0;
      while i < n
        invariant 0 <= i <= n
        invariant inside <==> CountToggles(Edges(Vertices)[..i], point) % 2 == 1
      {
        var current := Vertices[i];
        var next := Vertices[(i + 1) % n];
        ParityAfterEdge(Vertices, i, point);
        var crossesY := point.Y > Min(next.Y, current.Y) && point.Y <= Max(next.Y, current.Y);
        if crossesY {
          var deltaX := current.X - next.X;
          var deltaY := current.Y - next.Y;
          var intersectX := next.X + TruncDiv(deltaX * (point.Y - next.Y), deltaY);
          if point.X < intersectX {
            inside := !inside;
          }
        }
        i := i + 1;
      }
      assert Edges(Vertices)[..n] == Edges(Vertices);
    }

    /** One [X, Y] pair per vertex, in order. */
    method ToListInt() returns (rtn: seq<seq<int>>)
      ensures |rtn| == |Vertices|
      ensures forall i :: 0 <= i < |Vertices| ==> rtn[i] == [Vertices[i].X, Vertices[i].Y]
    {
      rtn := [];
      var i := 0;
      while i < |Vertices|
        invariant 0 <= i <= |Vertices|
        invariant |rtn| == i
        invariant forall j :: 0 <= j < i ==> rtn[j] == [Vertices[j].X, Vertices[j].Y]
      {
        var vertex := Vertices[i];
        rtn := rtn + [[vertex.X, vertex.Y]];
        i := i + 1;
      }
    }
  }
}
