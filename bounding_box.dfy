/** Axis-aligned bounding boxes of integer points (Geometry/Primitives/BoundingBox.cs). */
module BoundingBoxes {
  import opened Vector2Ints
  import opened IntOrder

  /** The four bounds of a box, as a value. */
  datatype Box = Box(MinX: int, MaxX: int, MinY: int, MaxY: int)
  {
    /** The point lies in [MinX, MaxX] x [MinY, MaxY]. */
    predicate Encloses(v: Vector2Int)
    {
      MinX <= v.X <= MaxX && MinY <= v.Y <= MaxY
    }
  }

  /** The field initialisers: minima start at int.MaxValue and maxima at int.MinValue. */
  const Sentinels := Box(IntMaxValue, IntMinValue, IntMaxValue, IntMinValue)

  /** The bounds after `UpdateBounds(v)`: they only widen, just enough to take in `v`. */
  function Widen(b: Box, v: Vector2Int): (r: Box)
    ensures r.MinX <= b.MinX && r.MinY <= b.MinY && r.MaxX >= b.MaxX && r.MaxY >= b.MaxY
    ensures r.Encloses(v)
    ensures r.MinX == b.MinX || r.MinX == v.X
    ensures r.MaxX == b.MaxX || r.MaxX == v.X
    ensures r.MinY == b.MinY || r.MinY == v.Y
    ensures r.MaxY == b.MaxY || r.MaxY == v.Y
    ensures forall w :: b.Encloses(w) ==> r.Encloses(w)
  {
    Box(Min(b.MinX, v.X), Max(b.MaxX, v.X), Min(b.MinY, v.Y), Max(b.MaxY, v.Y))
  }

  /** The bounds the constructor leaves after visiting `vs` in order, starting from the sentinels. */
  function BoundsOf(vs: seq<Vector2Int>): Box
  {
    if |vs| == 0 then Sentinels else Widen(BoundsOf(vs[..|vs| - 1]), vs[|vs| - 1])
  }

  /** No vertices: the sentinels stay. */
  lemma EmptyKeepsSentinels()
    ensures BoundsOf([]) == Box(0x7FFF_FFFF, -0x8000_0000, 0x7FFF_FFFF, -0x8000_0000)
  {
  }

  /** Every input vertex lies inside the bounds. */
  lemma {:induction false} BoundsEncloseAll(vs: seq<Vector2Int>)
    ensures forall i :: 0 <= i < |vs| ==> BoundsOf(vs).Encloses(vs[i])
  {
    if |vs| > 0 {
      var init := vs[..|vs| - 1];
      BoundsEncloseAll(init);
      assert forall i :: 0 <= i < |init| ==> init[i] == vs[i];
    }
  }

  /** Each bound of a non-empty input is a coordinate of one of its vertices. */
  lemma {:induction false} BoundsAttained(vs: seq<Vector2Int>)
    requires |vs| > 0
    requires forall i :: 0 <= i < |vs| ==> InIntRange(vs[i])
    ensures exists i :: 0 <= i < |vs| && BoundsOf(vs).MinX == vs[i].X
    ensures exists i :: 0 <= i < |vs| && BoundsOf(vs).MaxX == vs[i].X
    ensures exists i :: 0 <= i < |vs| && BoundsOf(vs).MinY == vs[i].Y
    ensures exists i :: 0 <= i < |vs| && BoundsOf(vs).MaxY == vs[i].Y
  {
    var n := |vs|;
    var last := vs[n - 1];
    var b := BoundsOf(vs);
    if n == 1 {
      assert BoundsOf(vs[..0]) == Sentinels;
      assert b.MinX == vs[0].X && b.MaxX == vs[0].X && b.MinY == vs[0].Y && b.MaxY == vs[0].Y;
    } else {
      var init := vs[..n - 1];
      BoundsAttained(init);
      assert forall i :: 0 <= i < |init| ==> init[i] == vs[i];
      var p := BoundsOf(init);
      var i0 :| 0 <= i0 < |init| && p.MinX == init[i0].X;
      var i1 :| 0 <= i1 < |init| && p.MaxX == init[i1].X;
      var i2 :| 0 <= i2 < |init| && p.MinY == init[i2].Y;
      var i3 :| 0 <= i3 < |init| && p.MaxY == init[i3].Y;
      assert b.MinX == vs[i0].X || b.MinX == vs[n - 1].X;
      assert b.MaxX == vs[i1].X || b.MaxX == vs[n - 1].X;
      assert b.MinY == vs[i2].Y || b.MinY == vs[n - 1].Y;
      assert b.MaxY == vs[i3].Y || b.MaxY == vs[n - 1].Y;
    }
  }

  /**
    The box is the smallest one enclosing the vertices: any box enclosing all of a
    non-empty input contains the computed bounds.
  */
  lemma BoundsAreTightest(vs: seq<Vector2Int>, other: Box)
    requires |vs| > 0
    requires forall i :: 0 <= i < |vs| ==> InIntRange(vs[i])
    requires forall i :: 0 <= i < |vs| ==> other.Encloses(vs[i])
    ensures other.MinX <= BoundsOf(vs).MinX && BoundsOf(vs).MaxX <= other.MaxX
    ensures other.MinY <= BoundsOf(vs).MinY && BoundsOf(vs).MaxY <= other.MaxY
  {
    BoundsAttained(vs);
  }

  /** `Primitives.BoundingBox`: the four bounds are fields that `UpdateBounds` overwrites. */
  class BoundingBox {
    var MinX: int
    var MaxX: int
    var MinY: int
    var MaxY: int

    /** The current bounds as a value. */
    function AsBox(): Box
      reads this
    {
      Box(MinX, MaxX, MinY, MaxY)
    }

    /** Starts from the sentinels and calls `UpdateBounds` on each vertex in order. */
    constructor (vertices: seq<Vector2Int>)
      ensures AsBox() == BoundsOf(vertices)
    {
      MinX := IntMaxValue;
      MaxX := IntMinValue;
      MinY := IntMaxValue;
      MaxY := IntMinValue;
      new;
      var i := 0;
      while i < |vertices|
        invariant 0 <= i <= |vertices|
        invariant AsBox() == BoundsOf(vertices[..i])
      {
        assert vertices[..i + 1][..i] == vertices[..i];
        UpdateBounds(vertices[i]);
        i := i + 1;
      }
      assert vertices[..i] == vertices;
    }

    /** Takes `vertex` into the bounds with Math.Min / Math.Max on each field. */
    method UpdateBounds(vertex: Vector2Int)
      modifies this
      ensures AsBox() == Widen(old(AsBox()), vertex)
    {
      MinX := Min(MinX, vertex.X);
      MaxX := Max(MaxX, vertex.X);
      MinY := Min(MinY, vertex.Y);
      MaxY := Max(MaxY, vertex.Y);
    }
  }
}
