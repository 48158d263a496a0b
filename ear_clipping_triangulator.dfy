/**
  The ear-clipping triangulator (Geometry/Triangulators/EarClippingTriangulator.cs).

  The linked list of the merged vertex cycle is modelled by an arena and a
  sequence: every list node has an identity, a natural number; `vertexOf` maps
  it to its vertex and `cycle` lists the identities of the live nodes in list
  order. The three hash sets hold node identities, as the source's sets hold nodes.
*/
module EarClipping {
  import opened Outcomes
  import V = Vector2Ints
  import T = Triangles
  import PB = PolygonBuilders

  type Vector2Int = V.Vector2Int

  // ---------------------------------------------------------------------------
  // Positions and neighbours in the cycle
  // ---------------------------------------------------------------------------

  /** No node occurs twice in the list. */
  predicate Distinct(cycle: seq<nat>)
  {
    forall a, b :: 0 <= a < b < |cycle| ==> cycle[a] != cycle[b]
  }

  /** The position of a node in the list: its first occurrence. */
  function IndexOf(cycle: seq<nat>, node: nat): (i: nat)
    requires node in cycle
    ensures i < |cycle| && cycle[i] == node
  {
    IndexFrom(cycle, node, 0)
  }

  /** The first position at or after `k` holding `node`. */
  function IndexFrom(cycle: seq<nat>, node: nat, k: nat): (i: nat)
    requires k <= |cycle| && node in cycle[k..]
    ensures k <= i < |cycle| && cycle[i] == node
    decreases |cycle| - k
  {
    if cycle[k] == node then k
    else
      assert node in cycle[k + 1..] by {
        var j :| k <= j < |cycle| && cycle[j] == node;
        assert cycle[k + 1..][j - k - 1] == node;
      }
      IndexFrom(cycle, node, k + 1)
  }

  /** In a list without repeats the position of the node at `k` is `k`. */
  lemma IndexOfAt(cycle: seq<nat>, k: nat)
    requires Distinct(cycle) && k < |cycle|
    ensures IndexOf(cycle, cycle[k]) == k
  {
  }

  /** `node.Previous ?? _vertices.Last`. */
  function PrevNode(cycle: seq<nat>, node: nat): (p: nat)
    requires node in cycle
    ensures p in cycle
  {
    var i := IndexOf(cycle, node);
    if i == 0 then cycle[|cycle| - 1] else cycle[i - 1]
  }

  /** `node.Next ?? _vertices.First`. */
  function NextNode(cycle: seq<nat>, node: nat): (n: nat)
    requires node in cycle
    ensures n in cycle
  {
    var i := IndexOf(cycle, node);
    if i + 1 < |cycle| then cycle[i + 1] else cycle[0]
  }

  /**
    In a list of three or more distinct nodes a node's two neighbours are two
    other nodes, and each neighbour points back at it.
  */
  lemma NeighboursDistinct(cycle: seq<nat>, node: nat)
    requires Distinct(cycle) && |cycle| >= 3 && node in cycle
    ensures PrevNode(cycle, node) != node && NextNode(cycle, node) != node
    ensures PrevNode(cycle, node) != NextNode(cycle, node)
    ensures NextNode(cycle, PrevNode(cycle, node)) == node
    ensures PrevNode(cycle, NextNode(cycle, node)) == node
  {
    var n, i := |cycle|, IndexOf(cycle, node);
    var p := if i == 0 then n - 1 else i - 1;
    var q := if i + 1 < n then i + 1 else 0;
    IndexOfAt(cycle, p);
    IndexOfAt(cycle, q);
    assert cycle[p] != cycle[i] && cycle[q] != cycle[i] && cycle[p] != cycle[q] by {
      assert p != i && q != i && p != q;
    }
  }

  /** The list with the element at position `i` unlinked (`LinkedList.Remove`). */
  function Removed<X>(s: seq<X>, i: nat): (r: seq<X>)
    requires i < |s|
    ensures |r| == |s| - 1
    ensures forall k :: 0 <= k < i ==> r[k] == s[k]
    ensures forall k :: i <= k < |r| ==> r[k] == s[k + 1]
  {
    s[..i] + s[i + 1..]
  }

  /** Unlinking keeps the other nodes in order and without repeats. */
  lemma RemovedDistinct(cycle: seq<nat>, i: nat)
    requires Distinct(cycle) && i < |cycle|
    ensures Distinct(Removed(cycle, i))
    ensures forall x :: x in Removed(cycle, i) <==> x in cycle && x != cycle[i]
  {
    var r := Removed(cycle, i);
    forall a, b | 0 <= a < b < |r|
      ensures r[a] != r[b]
    {
      var a', b' := if a < i then a else a + 1, if b < i then b else b + 1;
      assert a' < b' && r[a] == cycle[a'] && r[b] == cycle[b'];
    }
    forall x
      ensures x in r <==> x in cycle && x != cycle[i]
    {
      if x in cycle && x != cycle[i] {
        var k := IndexOf(cycle, x);
        if k < i {
          assert r[k] == x;
        } else {
          assert r[k - 1] == x;
        }
      }
      if x in r {
        var k :| 0 <= k < |r| && r[k] == x;
        var k' := if k < i then k else k + 1;
        assert cycle[k'] == x && k' != i;
      }
    }
  }

  /** The neighbours of the node at position `k`, by position. */
  lemma NeighboursAt(cycle: seq<nat>, k: nat)
    requires Distinct(cycle) && k < |cycle|
    ensures PrevNode(cycle, cycle[k]) == if k == 0 then cycle[|cycle| - 1] else cycle[k - 1]
    ensures NextNode(cycle, cycle[k]) == if k + 1 < |cycle| then cycle[k + 1] else cycle[0]
  {
    IndexOfAt(cycle, k);
  }

  /**
    Unlinking a node makes its two former neighbours adjacent: the old previous
    node is now followed by the old next node.
  */
  lemma RemovedLinks(cycle: seq<nat>, node: nat)
    requires Distinct(cycle) && |cycle| >= 3 && node in cycle
    ensures var r := Removed(cycle, IndexOf(cycle, node));
      Distinct(r) &&
      (forall x :: x in r <==> x in cycle && x != node) &&
      PrevNode(cycle, node) in r && NextNode(cycle, node) in r &&
      NextNode(r, PrevNode(cycle, node)) == NextNode(cycle, node) &&
      PrevNode(r, NextNode(cycle, node)) == PrevNode(cycle, node)
  {
    var n, i := |cycle|, IndexOf(cycle, node);
    var r := Removed(cycle, i);
    NeighboursDistinct(cycle, node);
    RemovedDistinct(cycle, i);
    var p := if i == 0 then |r| - 1 else i - 1;
    var q := if i + 1 < n then i else 0;
    assert r[p] == PrevNode(cycle, node);
    assert r[q] == NextNode(cycle, node);
    NeighboursAt(r, p);
    NeighboursAt(r, q);
  }

  /** Removing a node leaves the neighbours of every node other than its two neighbours as they were. */
  lemma RemovedKeepsNeighbours(cycle: seq<nat>, node: nat, x: nat)
    requires Distinct(cycle) && |cycle| >= 3 && node in cycle
    requires x in cycle && x != node && x != PrevNode(cycle, node) && x != NextNode(cycle, node)
    ensures var r := Removed(cycle, IndexOf(cycle, node));
      x in r && PrevNode(r, x) == PrevNode(cycle, x) && NextNode(r, x) == NextNode(cycle, x)
  {
    var n, i := |cycle|, IndexOf(cycle, node);
    var r := Removed(cycle, i);
    RemovedDistinct(cycle, i);
    var k := IndexOf(cycle, x);
    NeighboursAt(cycle, i);
    NeighboursAt(cycle, k);
    // x is neither the removed node nor next to it
    assert k != i;
    assert k != (if i == 0 then n - 1 else i - 1);
    assert k != (if i + 1 < n then i + 1 else 0);
    var p, q := if k == 0 then n - 1 else k - 1, if k + 1 < n then k + 1 else 0;
    assert PrevNode(cycle, x) == cycle[p] && NextNode(cycle, x) == cycle[q];
    if k < i {
      assert r[k] == x;
      NeighboursAt(r, k);
      if k == 0 {
        assert i <= n - 2;
        assert r[n - 2] == cycle[n - 1];
      } else {
        assert r[k - 1] == cycle[k - 1];
      }
      assert k + 1 < i && r[k + 1] == cycle[k + 1];
    } else {
      assert k >= i + 2;
      assert r[k - 1] == x;
      NeighboursAt(r, k - 1);
      assert r[k - 2] == cycle[k - 1];
      if k + 1 < n {
        assert r[k] == cycle[k + 1];
      } else {
        assert i > 0 && r[0] == cycle[0];
      }
    }
  }


  // ---------------------------------------------------------------------------
  // Convex vertices and ears
  // ---------------------------------------------------------------------------

  /** Every live node has a vertex in the arena. */
  predicate InArena(vertexOf: seq<Vector2Int>, cycle: seq<nat>)
  {
    forall n :: n in cycle ==> n < |vertexOf|
  }

  /** The node turns left at its vertex: `IsConvex(prev, curr, next)`. */
  predicate ConvexIn(vertexOf: seq<Vector2Int>, cycle: seq<nat>, node: nat)
  {
    node in cycle && InArena(vertexOf, cycle) &&
    PB.IsConvex(vertexOf[PrevNode(cycle, node)], vertexOf[node], vertexOf[NextNode(cycle, node)])
  }

  /** The triangle (prev, node, next) that `IsEar` and `ClipEar` build. */
  function EarTriangle(vertexOf: seq<Vector2Int>, cycle: seq<nat>, node: nat): T.Triangle
    requires node in cycle && InArena(vertexOf, cycle)
  {
    T.NewTriangle(vertexOf[PrevNode(cycle, node)], vertexOf[node], vertexOf[NextNode(cycle, node)])
  }

  /**
    The ear test: no reflex node other than the three corners has its vertex
    in the triangle (prev, node, next), boundary included.
  */
  predicate EarIn(vertexOf: seq<Vector2Int>, cycle: seq<nat>, reflex: set<nat>, node: nat)
  {
    node in cycle && InArena(vertexOf, cycle) &&
    forall r ::
      (r in reflex && r < |vertexOf| &&
       r != PrevNode(cycle, node) && r != node && r != NextNode(cycle, node)) ==>
      !T.ContainsPoint(EarTriangle(vertexOf, cycle, node), vertexOf[r])
  }

  /** The node sits in the set its current turn calls for: convex or reflex, not both. */
  predicate Placed(vertexOf: seq<Vector2Int>, cycle: seq<nat>, convex: set<nat>, reflex: set<nat>, node: nat)
  {
    (node in convex <==> ConvexIn(vertexOf, cycle, node)) &&
    (node in reflex <==> !ConvexIn(vertexOf, cycle, node))
  }

  /** Moving `node` between the two sets leaves every other node where it was placed. */
  lemma PlacedOther(vertexOf: seq<Vector2Int>, cycle: seq<nat>, c0: set<nat>, r0: set<nat>,
                    c1: set<nat>, r1: set<nat>, node: nat, x: nat)
    requires x != node && Placed(vertexOf, cycle, c0, r0, x)
    requires (c1 == c0 + {node} && r1 == r0 - {node}) || (r1 == r0 + {node} && c1 == c0 - {node})
    ensures Placed(vertexOf, cycle, c1, r1, x)
  {
  }

  /** The ear test ignores whether the node's own neighbours are reflex. */
  lemma EarInIgnoresNext(vertexOf: seq<Vector2Int>, cycle: seq<nat>, r1: set<nat>, r2: set<nat>, node: nat)
    requires node in cycle
    requires forall x :: x != NextNode(cycle, node) ==> (x in r1 <==> x in r2)
    ensures EarIn(vertexOf, cycle, r1, node) == EarIn(vertexOf, cycle, r2, node)
  {
  }

  // ---------------------------------------------------------------------------
  // Area: the shoelace sum of a cycle and the areas of the clipped triangles
  // ---------------------------------------------------------------------------

  /** Sum of the cross products of consecutive points of an open chain. */
  function ChainSum(s: seq<Vector2Int>): int
  {
    if |s| < 2 then 0 else PB.Cross(s[0], s[1]) + ChainSum(s[1..])
  }

  /** Twice the signed area of the closed polygon through `ps` (the shoelace formula). */
  function Shoelace(ps: seq<Vector2Int>): int
  {
    if |ps| == 0 then 0 else ChainSum(ps + [ps[0]])
  }

  /** Twice the area of a triangle as stored: the `Sign` of its corners. */
  function DoubleArea(t: T.Triangle): int
  {
    T.Sign(t.A, t.B, t.C)
  }

  /** Sum of `DoubleArea` over a list of triangles. */
  function TotalArea(ts: seq<T.Triangle>): int
  {
    if |ts| == 0 then 0 else TotalArea(ts[..|ts| - 1]) + DoubleArea(ts[|ts| - 1])
  }

  function Abs(x: int): nat
  {
    if x < 0 then -x else x
  }

  lemma {:induction false} ChainAppend(s: seq<Vector2Int>, x: Vector2Int)
    requires |s| >= 1
    ensures ChainSum(s + [x]) == ChainSum(s) + PB.Cross(s[|s| - 1], x)
    decreases |s|
  {
    if |s| == 1 {
      assert s + [x] == [s[0], x];
      assert (s + [x])[1..] == [x];
    } else {
      assert (s + [x])[1..] == s[1..] + [x];
      ChainAppend(s[1..], x);
    }
  }

  /** The cross products around `p, e, n` less the chord `p, n` make the triangle's sign. */
  lemma CrossSign(p: Vector2Int, e: Vector2Int, n: Vector2Int)
    ensures PB.Cross(p, e) + PB.Cross(e, n) - PB.Cross(p, n) == T.Sign(p, e, n)
  {
    var xp, yp, xe, ye, xn, yn := p.X, p.Y, e.X, e.Y, n.X, n.Y;
    assert T.Sign(p, e, n) == (xp - xn) * (ye - yn) - (xe - xn) * (yp - yn);
    assert (xp - xn) * (ye - yn) - (xe - xn) * (yp - yn)
        == xp * ye - xp * yn - xn * ye + xn * yn - xe * yp + xe * yn + xn * yp - xn * yn;
  }

  /** Cutting an interior point out of a chain takes away the triangle it made with its neighbours. */
  lemma {:induction false} ChainRemove(s: seq<Vector2Int>, i: nat)
    requires 0 < i < |s| - 1
    ensures ChainSum(s) == ChainSum(Removed(s, i)) + T.Sign(s[i - 1], s[i], s[i + 1])
    decreases i
  {
    CrossSign(s[i - 1], s[i], s[i + 1]);
    var r := Removed(s, i);
    if i == 1 {
      assert s[1..][1..] == s[2..];
      assert r[1..] == s[2..];
    } else {
      assert Removed(s, i)[1..] == Removed(s[1..], i - 1);
      ChainRemove(s[1..], i - 1);
    }
  }

  /** Starting the closed polygon at its second point does not change its area. */
  lemma ShoelaceRotate(ps: seq<Vector2Int>)
    requires |ps| >= 2
    ensures Shoelace(ps[1..] + [ps[0]]) == Shoelace(ps)
  {
    var rot := ps[1..] + [ps[0]];
    assert rot + [rot[0]] == rot + [ps[1]];
    ChainAppend(rot, ps[1]);
    assert (ps + [ps[0]])[1..] == rot;
  }

  /**
    Clipping a vertex of a polygon of three or more vertices takes away exactly
    the triangle it made with its two neighbours.
  */
  lemma ShoelaceRemove(ps: seq<Vector2Int>, i: nat)
    requires |ps| >= 3 && i < |ps|
    ensures Shoelace(ps) == Shoelace(Removed(ps, i)) +
      T.Sign(ps[if i == 0 then |ps| - 1 else i - 1], ps[i], ps[if i + 1 < |ps| then i + 1 else 0])
  {
    if i == 0 {
      var rot := ps[1..] + [ps[0]];
      ShoelaceRotate(ps);
      assert Removed(rot, |ps| - 1) == ps[1..] == Removed(ps, 0);
      assert rot + [rot[0]] == rot + [ps[1]];
      ChainRemove(rot + [rot[0]], |ps| - 1);
      assert Removed(rot + [rot[0]], |ps| - 1) == Removed(rot, |ps| - 1) + [rot[0]];
    } else {
      ChainRemove(ps + [ps[0]], i);
      assert Removed(ps + [ps[0]], i) == Removed(ps, i) + [ps[0]];
    }
  }

  lemma ChainOfFour(a: Vector2Int, b: Vector2Int, c: Vector2Int, d: Vector2Int)
    ensures ChainSum([a, b, c, d]) == PB.Cross(a, b) + PB.Cross(b, c) + PB.Cross(c, d)
  {
    assert [a, b, c, d][1..] == [b, c, d];
    assert [b, c, d][1..] == [c, d];
    assert [c, d][1..] == [d];
    assert ChainSum([c, d]) == PB.Cross(c, d);
    assert ChainSum([b, c, d]) == PB.Cross(b, c) + PB.Cross(c, d);
  }

  /** The shoelace area of three points is their `Sign`. */
  lemma ShoelaceTriangle(ps: seq<Vector2Int>)
    requires |ps| == 3
    ensures Shoelace(ps) == T.Sign(ps[0], ps[1], ps[2])
  {
    var a, b, c := ps[0], ps[1], ps[2];
    assert ps + [a] == [a, b, c, a];
    ChainOfFour(a, b, c, a);
    CrossSign(a, b, c);
    assert PB.Cross(c, a) == -PB.Cross(a, c);
  }

  /** The vertices of the listed nodes, in list order. */
  function Points(vertexOf: seq<Vector2Int>, cycle: seq<nat>): (ps: seq<Vector2Int>)
    requires InArena(vertexOf, cycle)
    ensures |ps| == |cycle|
    ensures forall k :: 0 <= k < |cycle| ==> cycle[k] in cycle && ps[k] == vertexOf[cycle[k]]
  {
    if |cycle| == 0 then []
    else
      assert cycle[0] in cycle;
      assert forall k :: 1 <= k < |cycle| ==> cycle[k] == cycle[1..][k - 1];
      assert InArena(vertexOf, cycle[1..]) by {
        forall n | n in cycle[1..]
          ensures n in cycle
        {
          var k :| 0 <= k < |cycle[1..]| && cycle[1..][k] == n;
          assert cycle[k + 1] == n;
        }
      }
      [vertexOf[cycle[0]]] + Points(vertexOf, cycle[1..])
  }

  /** The nodes 0, 1, ..., n - 1 of a freshly built list. */
  function Identity(n: nat): (r: seq<nat>)
    ensures |r| == n && Distinct(r)
    ensures forall k :: 0 <= k < n ==> r[k] == k
  {
    seq(n, k => k)
  }

  /** Unlinking a node and then reading the vertices is reading them and then unlinking. */
  lemma PointsRemoved(vertexOf: seq<Vector2Int>, cycle: seq<nat>, i: nat)
    requires InArena(vertexOf, cycle) && i < |cycle|
    ensures InArena(vertexOf, Removed(cycle, i))
    ensures Points(vertexOf, Removed(cycle, i)) == Removed(Points(vertexOf, cycle), i)
  {
    var r := Removed(cycle, i);
    forall n | n in r
      ensures n < |vertexOf|
    {
      var k :| 0 <= k < |r| && r[k] == n;
      if k < i {
        assert cycle[k] in cycle;
      } else {
        assert cycle[k + 1] in cycle;
      }
    }
    var ps, removed := Points(vertexOf, r), Removed(Points(vertexOf, cycle), i);
    forall k | 0 <= k < |ps|
      ensures ps[k] == removed[k]
    {
      if k < i {
        assert r[k] == cycle[k];
      } else {
        assert r[k] == cycle[k + 1];
      }
    }
  }

  /** The ear triangle of a convex node keeps the corner order (prev, node, next) and has a positive area. */
  lemma ConvexEarTriangle(vertexOf: seq<Vector2Int>, cycle: seq<nat>, node: nat)
    requires ConvexIn(vertexOf, cycle, node)
    ensures EarTriangle(vertexOf, cycle, node) ==
      T.Triangle(vertexOf[PrevNode(cycle, node)], vertexOf[node], vertexOf[NextNode(cycle, node)])
    ensures DoubleArea(EarTriangle(vertexOf, cycle, node)) > 0
  {
    var prev, next := PrevNode(cycle, node), NextNode(cycle, node);
  }

  /**
    Clipping the convex node `node` takes exactly its ear triangle's area from
    the cycle's shoelace area.
  */
  lemma ClipArea(vertexOf: seq<Vector2Int>, cycle: seq<nat>, node: nat)
    requires Distinct(cycle) && |cycle| >= 3
    requires ConvexIn(vertexOf, cycle, node)
    ensures InArena(vertexOf, Removed(cycle, IndexOf(cycle, node)))
    ensures Shoelace(Points(vertexOf, cycle)) ==
      Shoelace(Points(vertexOf, Removed(cycle, IndexOf(cycle, node)))) +
      DoubleArea(EarTriangle(vertexOf, cycle, node))
  {
    var i := IndexOf(cycle, node);
    var ps := Points(vertexOf, cycle);
    var p := if i == 0 then |ps| - 1 else i - 1;
    var q := if i + 1 < |ps| then i + 1 else 0;
    NeighboursAt(cycle, i);
    var a, b, c := ps[p], ps[i], ps[q];
    assert a == vertexOf[PrevNode(cycle, node)] && b == vertexOf[node] && c == vertexOf[NextNode(cycle, node)];
    ConvexEarTriangle(vertexOf, cycle, node);
    assert DoubleArea(EarTriangle(vertexOf, cycle, node)) == T.Sign(a, b, c);
    PointsRemoved(vertexOf, cycle, i);
    ShoelaceRemove(ps, i);
    assert Shoelace(ps) == Shoelace(Removed(ps, i)) + T.Sign(a, b, c);
  }

  /**
    A node whose neighbours and set memberships are the same in two states is
    placed in the one exactly when it is placed in the other.
  */
  lemma SamePlacement(vertexOf: seq<Vector2Int>, c1: seq<nat>, convex1: set<nat>, reflex1: set<nat>,
                      c2: seq<nat>, convex2: set<nat>, reflex2: set<nat>, x: nat)
    requires x in c1 && x in c2 && InArena(vertexOf, c1) && InArena(vertexOf, c2)
    requires PrevNode(c1, x) == PrevNode(c2, x) && NextNode(c1, x) == NextNode(c2, x)
    requires (x in convex1 <==> x in convex2) && (x in reflex1 <==> x in reflex2)
    ensures Placed(vertexOf, c1, convex1, reflex1, x) == Placed(vertexOf, c2, convex2, reflex2, x)
  {
  }

  /**
    Clipping `ear` leaves every other node but its two neighbours with the
    same neighbours, so if the sets changed only at those three nodes and the
    two neighbours were reclassified, every live node is still classified.
  */
  lemma ClipKeepsPlaced(vertexOf: seq<Vector2Int>, cycle: seq<nat>, convex: set<nat>, reflex: set<nat>,
                        ear: nat, convex': set<nat>, reflex': set<nat>)
    requires Distinct(cycle) && |cycle| >= 3 && ear in cycle && InArena(vertexOf, cycle)
    requires forall n {:trigger Placed(vertexOf, cycle, convex, reflex, n)} ::
      n in cycle ==> Placed(vertexOf, cycle, convex, reflex, n)
    requires var prev, next, r := PrevNode(cycle, ear), NextNode(cycle, ear), Removed(cycle, IndexOf(cycle, ear));
      Placed(vertexOf, r, convex', reflex', prev) && Placed(vertexOf, r, convex', reflex', next) &&
      (forall n :: n != ear && n != prev && n != next ==>
        (n in convex' <==> n in convex) && (n in reflex' <==> n in reflex))
    ensures forall n {:trigger Placed(vertexOf, Removed(cycle, IndexOf(cycle, ear)), convex', reflex', n)} ::
      n in Removed(cycle, IndexOf(cycle, ear)) ==>
      Placed(vertexOf, Removed(cycle, IndexOf(cycle, ear)), convex', reflex', n)
  {
    var prev, next, r := PrevNode(cycle, ear), NextNode(cycle, ear), Removed(cycle, IndexOf(cycle, ear));
    RemovedLinks(cycle, ear);
    PointsRemoved(vertexOf, cycle, IndexOf(cycle, ear));
    forall x | x in r
      ensures Placed(vertexOf, r, convex', reflex', x)
    {
      if x != prev && x != next {
        assert x in cycle && x != ear;
        ClipKeepsPlacedAt(vertexOf, cycle, convex, reflex, ear, convex', reflex', x);
      }
    }
  }

  /** `ClipKeepsPlaced` for one node other than the clipped node and its neighbours. */
  lemma ClipKeepsPlacedAt(vertexOf: seq<Vector2Int>, cycle: seq<nat>, convex: set<nat>, reflex: set<nat>,
                          ear: nat, convex': set<nat>, reflex': set<nat>, x: nat)
    requires Distinct(cycle) && |cycle| >= 3 && ear in cycle && InArena(vertexOf, cycle)
    requires x in cycle && x != ear && x != PrevNode(cycle, ear) && x != NextNode(cycle, ear)
    requires Placed(vertexOf, cycle, convex, reflex, x)
    requires (x in convex' <==> x in convex) && (x in reflex' <==> x in reflex)
    ensures Placed(vertexOf, Removed(cycle, IndexOf(cycle, ear)), convex', reflex', x)
  {
    var r := Removed(cycle, IndexOf(cycle, ear));
    RemovedKeepsNeighbours(cycle, ear, x);
    PointsRemoved(vertexOf, cycle, IndexOf(cycle, ear));
    SamePlacement(vertexOf, cycle, convex, reflex, r, convex', reflex', x);
  }


  /**
    The list is a list of distinct live nodes, and no node is both convex and
    reflex or in a set without being in the list.
  */
  predicate CoherentState(vertexOf: seq<Vector2Int>, cycle: seq<nat>, convex: set<nat>, reflex: set<nat>)
  {
    InArena(vertexOf, cycle) && Distinct(cycle) &&
    (forall n :: n in convex ==> n in cycle) &&
    (forall n :: n in reflex ==> n in cycle) &&
    convex !! reflex
  }

  /**
    Unlinking a node of a list of three or more and dropping it from both sets
    keeps the state coherent and makes its neighbours adjacent.
  */
  lemma UnlinkCoherent(vertexOf: seq<Vector2Int>, cycle: seq<nat>, convex: set<nat>, reflex: set<nat>, ear: nat)
    requires CoherentState(vertexOf, cycle, convex, reflex) && ear in cycle && |cycle| >= 3
    ensures var prev, next, r := PrevNode(cycle, ear), NextNode(cycle, ear), Removed(cycle, IndexOf(cycle, ear));
      CoherentState(vertexOf, r, convex - {ear}, reflex - {ear}) &&
      prev in r && next in r && prev != next && prev != ear && next != ear &&
      NextNode(r, prev) == next && PrevNode(r, next) == prev
  {
    NeighboursDistinct(cycle, ear);
    RemovedLinks(cycle, ear);
    PointsRemoved(vertexOf, cycle, IndexOf(cycle, ear));
  }

  // ---------------------------------------------------------------------------
  // The triangulator
  // ---------------------------------------------------------------------------

  /**
    `EarClippingTriangulator`: the merged vertex cycle and the convex, reflex
    and ear sets, all updated in place while ears are clipped.
  */
  class EarClippingTriangulator {
    /** The vertex of each node ever created; nodes are never reused. */
    var vertexOf: seq<Vector2Int>
    /** `_vertices`: the live nodes in list order. */
    var cycle: seq<nat>
    /** `_convexVertices`, `_reflexVertices` and `_earVertices`. */
    var convex: set<nat>
    var reflex: set<nat>
    var ears: set<nat>

    /** A fresh triangulator: an empty list and three empty sets. */
    constructor ()
      ensures vertexOf == [] && cycle == []
      ensures convex == {} && reflex == {} && ears == {}
    {
      vertexOf := [];
      cycle := [];
      convex := {};
      reflex := {};
      ears := {};
    }

    /**
      The list is a list of distinct live nodes, and no node is both convex
      and reflex or in a set without being in the list.
    */
    predicate Coherent()
      reads this
    {
      CoherentState(vertexOf, cycle, convex, reflex)
    }

    /** `Coherent`, and every ear is convex. */
    predicate Valid()
      reads this
    {
      Coherent() && ears <= convex
    }

    /** Every live node is classified by its current turn. */
    predicate Classified()
      reads this
    {
      Coherent() &&
      forall n {:trigger Placed(vertexOf, cycle, convex, reflex, n)} ::
        n in cycle ==> Placed(vertexOf, cycle, convex, reflex, n)
    }

    /**
      The previous and next node, wrapping around the ends of the list; in a
      list of three or more they are two other nodes.
    */
    method GetNeighbours(node: nat) returns (prev: nat, next: nat)
      requires Coherent() && node in cycle
      ensures prev == PrevNode(cycle, node) && next == NextNode(cycle, node)
      ensures prev in cycle && next in cycle
      ensures |cycle| >= 3 ==> prev != node && next != node && prev != next
    {
      var i := IndexOf(cycle, node);
      prev := if i == 0 then cycle[|cycle| - 1] else cycle[i - 1];
      next := if i + 1 < |cycle| then cycle[i + 1] else cycle[0];
      if |cycle| >= 3 {
        NeighboursDistinct(cycle, node);
      }
    }

    /**
      Puts the node into exactly one of the convex and reflex sets, convex
      exactly when it turns left, and reports which.
    */
    method ClassifyVertex(node: nat) returns (isConvex: bool)
      requires Coherent() && node in cycle
      modifies this
      ensures Coherent() && Placed(vertexOf, cycle, convex, reflex, node)
      ensures isConvex <==> ConvexIn(vertexOf, cycle, node)
      ensures isConvex ==> convex == old(convex) + {node} && reflex == old(reflex) - {node}
      ensures !isConvex ==> reflex == old(reflex) + {node} && convex == old(convex) - {node}
      ensures vertexOf == old(vertexOf) && cycle == old(cycle) && ears == old(ears)
    {
      var prev, next := GetNeighbours(node);
      if PB.IsConvex(vertexOf[prev], vertexOf[node], vertexOf[next]) {
        convex := convex + {node};
        reflex := reflex - {node};
        return true;
      }
      reflex := reflex + {node};
      convex := convex - {node};
      return false;
    }

    /** Walks the list from its first node and classifies every node. */
    method ClassifyVertices()
      requires Coherent()
      modifies this
      ensures Classified()
      ensures vertexOf == old(vertexOf) && cycle == old(cycle) && ears == old(ears)
    {
      var k := 0;
      while k < |cycle|
        invariant 0 <= k <= |cycle|
        invariant Coherent()
        invariant vertexOf == old(vertexOf) && cycle == old(cycle) && ears == old(ears)
        invariant forall j :: 0 <= j < k ==> Placed(vertexOf, cycle, convex, reflex, cycle[j])
      {
        var node := cycle[k];
        ghost var convex0, reflex0 := convex, reflex;
        var _ := ClassifyVertex(node);
        forall j | 0 <= j < k
          ensures Placed(vertexOf, cycle, convex, reflex, cycle[j])
        {
          assert cycle[j] != node;
          PlacedOther(vertexOf, cycle, convex0, reflex0, convex, reflex, node, cycle[j]);
        }
        k := k + 1;
      }
      forall n | n in cycle
        ensures Placed(vertexOf, cycle, convex, reflex, n)
      {
        var j := IndexOf(cycle, n);
      }
    }

    /**
      The ear test of `IsEar`: no reflex node other than the three corners has
      its vertex in the triangle (prev, tip, next).
    */
    method IsEar(tip: nat) returns (isEar: bool)
      requires Coherent() && tip in cycle
      ensures isEar == EarIn(vertexOf, cycle, reflex, tip)
    {
      var prev, next := GetNeighbours(tip);
      var triangle := T.NewTriangle(vertexOf[prev], vertexOf[tip], vertexOf[next]);
      var remaining := reflex;
      while remaining != {}
        invariant remaining <= reflex
        invariant forall r ::
          (r in reflex && r !in remaining && r < |vertexOf| && r != prev && r != tip && r != next) ==>
          !T.ContainsPoint(triangle, vertexOf[r])
        decreases |remaining|
      {
        var node :| node in remaining;
        if node != prev && node != tip && node != next {
          if T.ContainsPoint(triangle, vertexOf[node]) {
            return false;
          }
        }
        remaining := remaining - {node};
      }
      return true;
    }

    /** Adds every convex node that passes the ear test to the ear set. */
    method ComputeEars()
      requires Coherent()
      modifies this
      ensures Coherent()
      ensures forall n :: n in ears <==> n in old(ears) || (n in convex && EarIn(vertexOf, cycle, reflex, n))
      ensures vertexOf == old(vertexOf) && cycle == old(cycle)
      ensures convex == old(convex) && reflex == old(reflex)
      ensures old(Classified()) ==> Classified()
      ensures old(ears) <= convex ==> Valid()
    {
      var remaining := convex;
      while remaining != {}
        invariant remaining <= convex
        invariant Coherent()
        invariant vertexOf == old(vertexOf) && cycle == old(cycle)
        invariant convex == old(convex) && reflex == old(reflex)
        invariant forall n :: n in ears <==>
          n in old(ears) || (n in convex && n !in remaining && EarIn(vertexOf, cycle, reflex, n))
        decreases |remaining|
      {
        var node :| node in remaining;
        var isEar := IsEar(node);
        if isEar {
          ears := ears + {node};
        }
        remaining := remaining - {node};
      }
    }

    /**
      Clips the ear `ear`: returns its triangle (prev, ear, next), unlinks it
      from the list and from all three sets, and reclassifies only its two
      neighbours, each of which is an ear afterwards exactly when it is convex
      and passes the ear test in the new list.
    */
    method ClipEar(ear: nat) returns (triangle: T.Triangle)
      requires Valid() && ear in cycle && |cycle| >= 3
      modifies this
      ensures Valid()
      ensures triangle == EarTriangle(old(vertexOf), old(cycle), ear)
      ensures vertexOf == old(vertexOf)
      ensures cycle == Removed(old(cycle), IndexOf(old(cycle), ear))
      ensures ear !in convex && ear !in reflex && ear !in ears
      ensures var prev, next := PrevNode(old(cycle), ear), NextNode(old(cycle), ear);
        prev in cycle && next in cycle &&
        Placed(vertexOf, cycle, convex, reflex, prev) &&
        Placed(vertexOf, cycle, convex, reflex, next) &&
        (prev in ears <==> ConvexIn(vertexOf, cycle, prev) && EarIn(vertexOf, cycle, reflex, prev)) &&
        (next in ears <==> ConvexIn(vertexOf, cycle, next) && EarIn(vertexOf, cycle, reflex, next)) &&
        forall n :: n != ear && n != prev && n != next ==>
          (n in convex <==> n in old(convex)) && (n in reflex <==> n in old(reflex)) &&
          (n in ears <==> n in old(ears))
    {
      var prev, next := GetNeighbours(ear);
      var corners := (vertexOf[prev], vertexOf[ear], vertexOf[next]);
      Unlink(ear);

      Reclassify(prev);
      ghost var reflexAfterPrev, convexAfterPrev, earsAfterPrev := reflex, convex, ears;
      Reclassify(next);
      EarInIgnoresNext(vertexOf, cycle, reflexAfterPrev, reflex, prev);
      SamePlacement(vertexOf, cycle, convexAfterPrev, reflexAfterPrev, cycle, convex, reflex, prev);
      forall n | n != ear && n != prev && n != next
        ensures (n in convex <==> n in old(convex)) && (n in reflex <==> n in old(reflex)) &&
          (n in ears <==> n in old(ears))
      {
        assert (n in convexAfterPrev <==> n in old(convex)) && (n in reflexAfterPrev <==> n in old(reflex));
        assert n in earsAfterPrev <==> n in old(ears);
      }
      assert ears <= convex by {
        forall n | n in ears
          ensures n in convex
        {
          if n != next && n != prev {
            assert n in old(ears);
          }
        }
      }

      triangle := T.NewTriangle(corners.0, corners.1, corners.2);
    }

    /** `ClipEar`'s removal of the node from the list and from all three sets. */
    method Unlink(ear: nat)
      requires Valid() && ear in cycle && |cycle| >= 3
      modifies this
      ensures Valid()
      ensures vertexOf == old(vertexOf)
      ensures cycle == Removed(old(cycle), IndexOf(old(cycle), ear))
      ensures convex == old(convex) - {ear} && reflex == old(reflex) - {ear} && ears == old(ears) - {ear}
      ensures var prev, next := PrevNode(old(cycle), ear), NextNode(old(cycle), ear);
        prev in cycle && next in cycle && prev != next && prev != ear && next != ear &&
        NextNode(cycle, prev) == next && PrevNode(cycle, next) == prev
    {
      UnlinkCoherent(vertexOf, cycle, convex, reflex, ear);
      cycle := Removed(cycle, IndexOf(cycle, ear));
      convex := convex - {ear};
      reflex := reflex - {ear};
      ears := ears - {ear};
    }

    /**
      One neighbour's update in `ClipEar`: classify it, then put it in the
      ear set when it is convex and passes the ear test, and take it out otherwise.
    */
    method Reclassify(node: nat)
      requires Coherent() && node in cycle
      modifies this
      ensures Coherent() && Placed(vertexOf, cycle, convex, reflex, node)
      ensures node in ears <==> ConvexIn(vertexOf, cycle, node) && EarIn(vertexOf, cycle, reflex, node)
      ensures vertexOf == old(vertexOf) && cycle == old(cycle)
      ensures forall n :: n != node ==>
        (n in convex <==> n in old(convex)) && (n in reflex <==> n in old(reflex)) &&
        (n in ears <==> n in old(ears))
      ensures node in ears ==> node in convex
    {
      var isConvex := ClassifyVertex(node);
      var isEar := false;
      if isConvex {
        isEar := IsEar(node);
      }
      if isEar {
        ears := ears + {node};
      } else {
        ears := ears - {node};
      }
    }

    /** The triangle of the last three nodes in list order, counter-clockwise. */
    method GetLastTriangle() returns (triangle: T.Triangle)
      requires Coherent() && |cycle| == 3
      ensures var ps := Points(vertexOf, cycle); triangle == T.NewTriangle(ps[0], ps[1], ps[2])
      ensures DoubleArea(triangle) == Abs(Shoelace(Points(vertexOf, cycle)))
    {
      assert cycle[0] in cycle && cycle[1] in cycle && cycle[2] in cycle;
      triangle := T.NewTriangle(vertexOf[cycle[0]], vertexOf[cycle[1]], vertexOf[cycle[2]]);
      ShoelaceTriangle(Points(vertexOf, cycle));
    }

    /**
      Builds the merged vertex list and clips ears until three vertices
      remain. An n-vertex list gives n - 2 triangles: every clipped ear is
      counter-clockwise with a positive area, and the last triangle's area is
      whatever of the list's shoelace area the clipped ears leave.
    */
    method Triangulate(positive: seq<Vector2Int>, negatives: seq<seq<Vector2Int>>)
      returns (r: Result<seq<T.Triangle>>)
      requires convex == {} && reflex == {} && ears == {}
      modifies this
      ensures var built := PB.BuildVertexListOutcome(positive, negatives);
        (built.Err? ==> r == Err(built.error)) &&
        (built.Ok? && |built.value| < 3 ==> r == Ok([])) &&
        (built.Ok? && |built.value| == 3 ==>
          r == Ok([T.NewTriangle(built.value[0], built.value[1], built.value[2])])) &&
        (built.Ok? && r.Err? ==>
          r.error == EmptyEarSet && |built.value| > 3 && 3 < |cycle| <= |built.value| && ears == {}) &&
        (built.Ok? && r.Ok? && |built.value| > 3 ==> ClippedFrom(built.value, r.value))
    {
      var built := PB.BuildVertexList(positive, negatives);
      if built.Err? {
        return Err(built.error);
      }
      r := TriangulateVertices(built.value);
    }

    /**
      The part of `Triangulate` after the vertex list is built: load the list
      into the linked list, handle the lists of fewer than four vertices, then
      classify and clip.
    */
    method TriangulateVertices(vs: seq<Vector2Int>) returns (r: Result<seq<T.Triangle>>)
      requires convex == {} && reflex == {} && ears == {}
      modifies this
      ensures |vs| < 3 ==> r == Ok([])
      ensures |vs| == 3 ==> r == Ok([T.NewTriangle(vs[0], vs[1], vs[2])])
      ensures r.Err? ==> r.error == EmptyEarSet && |vs| > 3 && 3 < |cycle| <= |vs| && ears == {}
      ensures r.Ok? && |vs| > 3 ==> ClippedFrom(vs, r.value)
    {
      LoadVertices(vs);
      if |cycle| < 3 {
        return Ok([]);
      }
      if |cycle| == 3 {
        var last := GetLastTriangle();
        return Ok([last]);
      }

      ClassifyVertices();
      ComputeEars();
      r := ClipEars();
    }

    /**
      `_vertices = PolygonBuilder.BuildVertexList(...)`: the list holds the
      vertices in order, node k carrying vertex k, and the sets are still empty.
    */
    method LoadVertices(vs: seq<Vector2Int>)
      requires convex == {} && reflex == {} && ears == {}
      modifies this
      ensures Coherent() && ears <= convex
      ensures |cycle| == |vs| && Points(vertexOf, cycle) == vs
      ensures convex == {} && reflex == {} && ears == {}
    {
      vertexOf := vs;
      cycle := Identity(|vs|);
      forall n | n in cycle
        ensures n < |vertexOf|
      {
        var j := IndexOf(cycle, n);
      }
      assert Points(vertexOf, cycle) == vs;
    }

    /**
      The clipping loop of `Triangulate` and its final triangle: while more
      than three nodes remain, clip an arbitrary ear (`HashSet.First()`), and
      fail when there is none; then add the triangle of the last three.
    */
    method ClipEars() returns (r: Result<seq<T.Triangle>>)
      requires Classified() && Valid() && |cycle| >= 3
      modifies this
      ensures r.Err? ==> r.error == EmptyEarSet && 3 < |cycle| <= old(|cycle|) && ears == {}
      ensures r.Err? ==> Classified() && Valid() && vertexOf == old(vertexOf)
      ensures r.Ok? ==> ClippedFrom(Points(old(vertexOf), old(cycle)), r.value)
    {
      ghost var vs := Points(vertexOf, cycle);
      var triangles: seq<T.Triangle> := [];
      while |cycle| > 3
        invariant Classified() && Valid()
        invariant |cycle| >= 3 && vertexOf == old(vertexOf)
        invariant |triangles| + |cycle| == |vs|
        invariant AllCounterClockwise(triangles)
        invariant TotalArea(triangles) + Shoelace(Points(vertexOf, cycle)) == Shoelace(vs)
        decreases |cycle|
      {
        if ears == {} {
          return Err(EmptyEarSet);
        }
        var ear :| ear in ears;
        ghost var cycle0, convex0, reflex0 := cycle, convex, reflex;
        assert Placed(vertexOf, cycle, convex, reflex, ear);
        ClipArea(vertexOf, cycle, ear);
        ConvexEarTriangle(vertexOf, cycle, ear);
        ghost var earTriangle := EarTriangle(vertexOf, cycle, ear);
        var triangle := ClipEar(ear);
        assert triangle == earTriangle;
        ClipKeepsPlaced(vertexOf, cycle0, convex0, reflex0, ear, convex, reflex);
        AppendEar(triangles, triangle);
        triangles := triangles + [triangle];
      }
      var last := GetLastTriangle();
      LastTriangle(vs, triangles, last);
      return Ok(triangles + [last]);
    }
  }

  /** Every triangle has a positive area: its corners turn counter-clockwise. */
  predicate AllCounterClockwise(ts: seq<T.Triangle>)
  {
    forall i :: 0 <= i < |ts| ==> DoubleArea(ts[i]) > 0
  }

  /** Appending a triangle adds its area. */
  lemma AppendArea(ts: seq<T.Triangle>, t: T.Triangle)
    ensures TotalArea(ts + [t]) == TotalArea(ts) + DoubleArea(t)
  {
    assert (ts + [t])[..|ts|] == ts;
  }

  /** Appending a clipped ear keeps every triangle counter-clockwise and adds its area. */
  lemma AppendEar(ts: seq<T.Triangle>, t: T.Triangle)
    requires AllCounterClockwise(ts) && DoubleArea(t) > 0
    ensures AllCounterClockwise(ts + [t])
    ensures TotalArea(ts + [t]) == TotalArea(ts) + DoubleArea(t)
  {
    AppendArea(ts, t);
    assert forall i :: 0 <= i < |ts| ==> (ts + [t])[i] == ts[i];
  }

  /** The clipped ears and the last triangle have the count, winding and area balance of `ClippedFrom(vs, _)`. */
  lemma LastTriangle(vs: seq<Vector2Int>, ts: seq<T.Triangle>, last: T.Triangle)
    requires |vs| >= 3 && |ts| == |vs| - 3
    requires AllCounterClockwise(ts)
    requires DoubleArea(last) == Abs(Shoelace(vs) - TotalArea(ts))
    ensures ClippedFrom(vs, ts + [last])
  {
    AppendArea(ts, last);
    assert (ts + [last])[..|ts|] == ts;
  }

  /**
    What the model states about the triangles clipped from the vertex list `vs`
    (three or more vertices): n - 2 triangles; all but the last are clipped ears with a
    positive area; the last covers the absolute value of the shoelace area
    the others leave. So the areas add up to at least the polygon's doubled
    signed area, and to exactly that whenever what remains is not clockwise.
    That the triangles tile the polygon is not stated.
  */
  predicate ClippedFrom(vs: seq<Vector2Int>, ts: seq<T.Triangle>)
  {
    |vs| >= 3 && |ts| == |vs| - 2 &&
    (forall i :: 0 <= i < |ts| - 1 ==> DoubleArea(ts[i]) > 0) &&
    DoubleArea(ts[|ts| - 1]) == Abs(Shoelace(vs) - TotalArea(ts[..|ts| - 1])) &&
    TotalArea(ts) >= Shoelace(vs) &&
    (Shoelace(vs) >= TotalArea(ts[..|ts| - 1]) ==> TotalArea(ts) == Shoelace(vs))
  }
}
