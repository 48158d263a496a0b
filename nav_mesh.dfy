/** The navigation-mesh node table (Geometry/NavMesh.cs). */
module NavMeshes {
  import opened Vector2Ints
  import opened Vector2Fractions
  import opened Triangles

  /**
    A link between two triangles: edge `EdgeIndex1` of triangle `TriangleIndex1`
    is edge `EdgeIndex2` of triangle `TriangleIndex2`.
  */
  datatype SharedEdge = SharedEdge(TriangleIndex1: int, EdgeIndex1: int, TriangleIndex2: int, EdgeIndex2: int)

  /** `NavMesh.Node`: a triangle's corners, its three neighbour slots and its centroid. */
  class Node {
    const Vertices: array<Vector2Int>
    const Neighbours: array<int>
    var Centroid: Vector2Fraction

    /** Three corners and three neighbour slots, as every constructed node has. */
    predicate Valid()
    {
      Vertices.Length == 3 && Neighbours.Length == 3
    }

    /** The corners in triangle order, no neighbours yet (-1 in every slot), and the triangle's centroid. */
    constructor (triangle: Triangle)
      ensures Valid()
      ensures Vertices[..] == [triangle.A, triangle.B, triangle.C]
      ensures Neighbours[..] == [-1, -1, -1]
      ensures Centroid == GetCentroid(triangle)
      ensures fresh(Vertices) && fresh(Neighbours)
    {
      Vertices := new Vector2Int[3] [triangle.A, triangle.B, triangle.C];
      Neighbours := new int[3] [-1, -1, -1];
      Centroid := GetCentroid(triangle);
    }
  }

  /** `NavMesh`: the list of nodes, appended to by `AddNode`. */
  class NavMesh {
    var nodes: seq<Node>

    /** Every node has its three corners and three neighbour slots. */
    predicate Valid()
      reads this, nodes
    {
      forall i :: 0 <= i < |nodes| ==> nodes[i].Valid()
    }

    constructor ()
      ensures Valid() && nodes == []
    {
      nodes := [];
    }

    function Count(): nat
      reads this
    {
      |nodes|
    }

    /** Appends `node` and returns its index, the old `Count`; earlier nodes stay where they were. */
    method AddNode(node: Node) returns (index: int)
      requires Valid() && node.Valid()
      modifies this
      ensures Valid()
      ensures nodes == old(nodes) + [node]
      ensures Count() == old(Count()) + 1
      ensures index == old(Count()) && nodes[index] == node
    {
      nodes := nodes + [node];
      index := |nodes| - 1;
    }

    /**
      Links the two triangles both ways. The second write wins when both go to the
      same slot of the same node; no other slot of any node changes.
    */
    method AddNeighbour(edge: SharedEdge)
      requires Valid()
      requires 0 <= edge.TriangleIndex1 < Count() && 0 <= edge.TriangleIndex2 < Count()
      requires 0 <= edge.EdgeIndex1 < 3 && 0 <= edge.EdgeIndex2 < 3
      modifies nodes[edge.TriangleIndex1].Neighbours, nodes[edge.TriangleIndex2].Neighbours
      ensures Valid()
      ensures nodes[edge.TriangleIndex2].Neighbours[edge.EdgeIndex2] == edge.TriangleIndex1
      ensures var n1, n2 := nodes[edge.TriangleIndex1], nodes[edge.TriangleIndex2];
              n1.Neighbours[edge.EdgeIndex1] ==
                if n1.Neighbours == n2.Neighbours && edge.EdgeIndex1 == edge.EdgeIndex2
                then edge.TriangleIndex1 else edge.TriangleIndex2
      ensures forall k, s ::
                (0 <= k < |nodes| && 0 <= s < 3 &&
                 !(nodes[k].Neighbours == nodes[edge.TriangleIndex1].Neighbours && s == edge.EdgeIndex1) &&
                 !(nodes[k].Neighbours == nodes[edge.TriangleIndex2].Neighbours && s == edge.EdgeIndex2))
                ==> nodes[k].Neighbours[s] == old(nodes[k].Neighbours[s])
    {
      nodes[edge.TriangleIndex1].Neighbours[edge.EdgeIndex1] := edge.TriangleIndex2;
      nodes[edge.TriangleIndex2].Neighbours[edge.EdgeIndex2] := edge.TriangleIndex1;
    }
  }

  /**
    Two fresh nodes linked through edge 0 of the first and edge 2 of the second
    point at each other, and their other slots stay -1.
  */
  method LinkTwoTriangles(t1: Triangle, t2: Triangle) returns (mesh: NavMesh)
    ensures mesh.Valid() && mesh.Count() == 2
    ensures mesh.nodes[0].Neighbours[..] == [1, -1, -1]
    ensures mesh.nodes[1].Neighbours[..] == [-1, -1, 0]
  {
    mesh := new NavMesh();
    var a := new Node(t1);
    var b := new Node(t2);
    var i := mesh.AddNode(a);
    var j := mesh.AddNode(b);
    mesh.AddNeighbour(SharedEdge(i, 0, j, 2));
  }
}
