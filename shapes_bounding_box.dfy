/**
  The second iteration of the bounding box (Geometry/Shapes/BoundingBox.cs). Its
  fields, constructor and `UpdateBounds` are the same as the first iteration's, so
  the bounds it computes are described by the same `Box`, `Widen` and `BoundsOf`.
*/
module ShapesBoundingBoxes {
  import opened Vector2Ints
  import opened BoundingBoxes
  import opened IntOrder

  /** `Shapes.BoundingBox`. */
  class BoundingBox {
    var MinX: int
    var MaxX: int
    var MinY: int
    var MaxY: int

    function AsBox(): Box
      reads this
    {
      Box(MinX, MaxX, MinY, MaxY)
    }

    /** Starts from the sentinels and calls `UpdateBounds` on each vertex in order. */
    constructor (vertices: seq<Vector2Int>)
      ensures AsBox() == BoundsOf(vertices)
    {
      MinX := IntMaxValue;
      MaxX := IntMinValue;
      MinY := IntMaxValue;
      MaxY := IntMinValue;
      new;
      var i := 0;
      while i < |vertices|
        invariant 0 <= i <= |vertices|
        invariant AsBox() == BoundsOf(vertices[..i])
      {
        assert vertices[..i + 1][..i] == vertices[..i];
        UpdateBounds(vertices[i]);
        i := i + 1;
      }
      assert vertices[..i] == vertices;
    }

    method UpdateBounds(vertex: Vector2Int)
      modifies this
      ensures AsBox() == Widen(old(AsBox()), vertex)
    {
      MinX := Min(MinX, vertex.X);
      MaxX := Max(MaxX, vertex.X);
      MinY := Min(MinY, vertex.Y);
      MaxY := Max(MaxY, vertex.Y);
    }
  }

  /**
    The bounds do not depend on the order of the vertices, nor on repeats: two
    inputs with the same vertices give the same box.
  */
  lemma BoundsOrderIndependent(vs: seq<Vector2Int>, ws: seq<Vector2Int>)
    requires forall v :: v in vs <==> v in ws
    requires forall i :: 0 <= i < |vs| ==> InIntRange(vs[i])
    ensures BoundsOf(vs) == BoundsOf(ws)
  {
    SameMembersBothEmpty(vs, ws);
    if |vs| > 0 {
      assert vs[0] in ws;
      assert forall j :: 0 <= j < |ws| ==> InIntRange(ws[j]) by {
        forall j | 0 <= j < |ws|
          ensures InIntRange(ws[j])
        {
          assert ws[j] in vs;
        }
      }
      forall j | 0 <= j < |ws|
        ensures BoundsOf(vs).Encloses(ws[j])
      {
        assert ws[j] in vs;
        BoundsEncloseAll(vs);
      }
      forall i | 0 <= i < |vs|
        ensures BoundsOf(ws).Encloses(vs[i])
      {
        assert vs[i] in ws;
        BoundsEncloseAll(ws);
      }
      BoundsAreTightest(vs, BoundsOf(ws));
      BoundsAreTightest(ws, BoundsOf(vs));
    }
  }

  lemma SameMembersBothEmpty(vs: seq<Vector2Int>, ws: seq<Vector2Int>)
    requires forall v :: v in vs <==> v in ws
    ensures |vs| == 0 <==> |ws| == 0
  {
    if |vs| > 0 {
      assert vs[0] in ws;
    }
    if |ws| > 0 {
      assert ws[0] in vs;
    }
  }
}
