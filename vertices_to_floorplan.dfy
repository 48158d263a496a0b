/** The ring-to-segments conversion of the floor-plan script (scripts/src/vertices_to_floorplan.py). */
module VerticesToFloorplan {

  /** A vertex as the script's [x, y] pair. */
  datatype Vertex = Vertex(x: int, y: int)

  /** Line i: from vertex i to vertex (i + 1) mod n, flattened to [x1, y1, x2, y2]. */
  function LineAt(vertices: seq<Vertex>, i: nat): (line: seq<int>)
    requires i < |vertices|
    ensures |line| == 4
  {
    var j := (i + 1) % |vertices|;
    [vertices[i].x, vertices[i].y, vertices[j].x, vertices[j].y]
  }

  /** The whole list `get_lines` returns. */
  function Lines(vertices: seq<Vertex>): (lines: seq<seq<int>>)
    ensures |lines| == |vertices|
    ensures forall i :: 0 <= i < |vertices| ==> lines[i] == LineAt(vertices, i)
  {
    seq(|vertices|, i requires 0 <= i < |vertices| => LineAt(vertices, i))
  }

  /** `get_lines`: appends one line per vertex, in order. */
  method GetLines(vertices: seq<Vertex>) returns (lines: seq<seq<int>>)
    ensures lines == Lines(vertices)
  {
    lines := [];
    var i := 0;
    while i < |vertices|
      invariant 0 <= i <= |vertices|
      invariant lines == Lines(vertices)[..i]
    {
      var j := (i + 1) % |vertices|;
      lines := lines + [[vertices[i].x, vertices[i].y, vertices[j].x, vertices[j].y]];
      i := i + 1;
    }
  }

  /** Each line starts at its own vertex. */
  lemma LineStartsAtVertex(vertices: seq<Vertex>, i: nat)
    requires i < |vertices|
    ensures Lines(vertices)[i][..2] == [vertices[i].x, vertices[i].y]
  {
  }

  /** The lines chain: each one ends where the next one starts. */
  lemma LinesChain(vertices: seq<Vertex>, i: nat)
    requires i + 1 < |vertices|
    ensures Lines(vertices)[i][2..] == Lines(vertices)[i + 1][..2]
  {
    assert (i + 1) % |vertices| == i + 1;
  }

  /** The ring is closed: the last line ends at the first vertex. */
  lemma LastLineClosesRing(vertices: seq<Vertex>)
    requires |vertices| > 0
    ensures Lines(vertices)[|vertices| - 1][2..] == [vertices[0].x, vertices[0].y]
  {
    var n := |vertices|;
    assert (n - 1 + 1) % n == 0;
  }

  /** No vertices, no lines. */
  lemma EmptyGivesNoLines()
    ensures Lines([]) == []
  {
  }
}
