/**
  Hole bridging (Geometry/Utils/PolygonBuilder.cs): one outer polygon and its
  holes become a single vertex cycle. Holes are taken rightmost first; each one
  is joined to the cycle by a bridge from its rightmost vertex M to a vertex of
  the cycle that M can see, found by casting a ray in the +X direction.

  The source's linked list is modelled as a sequence of vertices and a list node
  as its index in that sequence; `Next ?? First` is `EdgeEnd` and
  `Previous ?? Last` is `PrevIndex`.
*/
module PolygonBuilders {
  import opened Outcomes
  import opened LongFractions
  import V = Vector2Ints
  import VF = Vector2Fractions
  import TF = TriangleFractions
  import T = Triangles
  import opened IntOrder

  type Vector2Int = V.Vector2Int

  /**
    The 2D cross product: positive when `b` turns counter-clockwise from `a`. It is
    twice the signed area of the triangle (origin, a, b), and zero for parallel vectors.
  */
  function Cross(a: Vector2Int, b: Vector2Int): (r: int)
    ensures r == T.Sign(V.Vector2Int(0, 0), a, b)
    ensures a == b ==> r == 0
  {
    a.X * b.Y - a.Y * b.X
  }

  // ---------------------------------------------------------------------------
  // The rightmost vertex of each hole
  // ---------------------------------------------------------------------------

  /** A hole, its position in the input list, and its rightmost X and the first index holding it. */
  datatype HoleInfo = HoleInfo(hole: seq<Vector2Int>, holeIndex: int, maxX: int, maxXIndex: int)

  /** The rightmost index lies inside the hole (true of every `HoleInfo` built from a non-empty hole). */
  predicate WellFormed(info: HoleInfo)
  {
    0 <= info.maxXIndex < |info.hole|
  }

  /**
    The index `GetMaxX` settles on after looking at the first `n` vertices: it
    holds the largest X among them, and every earlier vertex is strictly to its left.
  */
  function FirstMaxXIndex(vs: seq<Vector2Int>, n: nat): (r: nat)
    requires 0 < n <= |vs|
    ensures r < n
    ensures forall j :: 0 <= j < n ==> vs[j].X <= vs[r].X
    ensures forall j :: 0 <= j < r ==> vs[j].X < vs[r].X
  {
    if n == 1 then 0
    else
      var m := FirstMaxXIndex(vs, n - 1);
      if vs[n - 1].X > vs[m].X then n - 1 else m
  }

  /** Only one index can be the first at which the largest X occurs. */
  lemma FirstMaxUnique(vs: seq<Vector2Int>, k: nat)
    requires k < |vs|
    requires forall j :: 0 <= j < |vs| ==> vs[j].X <= vs[k].X
    requires forall j :: 0 <= j < k ==> vs[j].X < vs[k].X
    ensures k == FirstMaxXIndex(vs, |vs|)
  {
  }

  /**
    `GetMaxX`: the largest X of a non-empty vertex list and the first index at
    which it occurs (a later vertex with the same X does not replace it).
  */
  method GetMaxX(vertices: seq<Vector2Int>) returns (maxX: int, maxIndex: int)
    requires |vertices| > 0
    ensures 0 <= maxIndex < |vertices| && maxX == vertices[maxIndex].X
    ensures forall j :: 0 <= j < |vertices| ==> vertices[j].X <= maxX
    ensures forall j :: 0 <= j < maxIndex ==> vertices[j].X < maxX
  {
    maxX := vertices[0].X;
    maxIndex := 0;
    var i := 1;
    while i < |vertices|
      invariant 1 <= i <= |vertices|
      invariant maxIndex == FirstMaxXIndex(vertices, i) && maxX == vertices[maxIndex].X
    {
      var x := vertices[i].X;
      if x > maxX {
        maxX := x;
        maxIndex := i;
      }
      i := i + 1;
    }
  }

  /** The record `BuildHoleInfo` makes for hole `i`. */
  function HoleInfoOf(holes: seq<seq<Vector2Int>>, i: nat): (r: HoleInfo)
    requires i < |holes| && |holes[i]| > 0
    ensures r.hole == holes[i] && r.holeIndex == i && WellFormed(r)
    ensures r.maxX == r.hole[r.maxXIndex].X
    ensures forall j :: 0 <= j < |r.hole| ==> r.hole[j].X <= r.maxX
    ensures forall j :: 0 <= j < r.maxXIndex ==> r.hole[j].X < r.maxX
  {
    var m := FirstMaxXIndex(holes[i], |holes[i]|);
    HoleInfo(holes[i], i, holes[i][m].X, m)
  }

  /** Some hole has no vertices. */
  predicate SomeHoleEmpty(holes: seq<seq<Vector2Int>>)
  {
    exists i :: 0 <= i < |holes| && |holes[i]| == 0
  }

  /** The records of all holes, in input order. */
  function HoleInfos(holes: seq<seq<Vector2Int>>): (r: seq<HoleInfo>)
    requires !SomeHoleEmpty(holes)
    ensures |r| == |holes| && AllWellFormed(r)
    ensures forall i :: 0 <= i < |holes| ==> r[i] == HoleInfoOf(holes, i)
  {
    seq(|holes|, i requires 0 <= i < |holes| => HoleInfoOf(holes, i))
  }

  /**
    `BuildHoleInfo`: one record per hole, in input order. `GetMaxX` reads the
    first vertex of each hole, so an empty hole throws.
  */
  method BuildHoleInfo(holes: seq<seq<Vector2Int>>) returns (r: Result<seq<HoleInfo>>)
    ensures r.Err? <==> SomeHoleEmpty(holes)
    ensures r.Err? ==> r.error == EmptyHole
    ensures r.Ok? ==> r.value == HoleInfos(holes)
  {
    var holeInfo := [];
    var i := 0;
    while i < |holes|
      invariant 0 <= i <= |holes|
      invariant |holeInfo| == i
      invariant forall j :: 0 <= j < i ==> |holes[j]| > 0 && holeInfo[j] == HoleInfoOf(holes, j)
    {
      if |holes[i]| == 0 {
        return Err(EmptyHole);
      }
      var maxX, maxIndex := GetMaxX(holes[i]);
      FirstMaxUnique(holes[i], maxIndex);
      holeInfo := holeInfo + [HoleInfo(holes[i], i, maxX, maxIndex)];
      i := i + 1;
    }
    return Ok(holeInfo);
  }

  // ---------------------------------------------------------------------------
  // The processing order of the holes
  // ---------------------------------------------------------------------------

  /** The order of `holes.Sort`: larger max X first, and on a tie the smaller input index. */
  predicate InOrder(a: HoleInfo, b: HoleInfo)
  {
    a.maxX > b.maxX || (a.maxX == b.maxX && a.holeIndex <= b.holeIndex)
  }

  predicate Sorted(s: seq<HoleInfo>)
  {
    forall i, j :: 0 <= i < j < |s| ==> InOrder(s[i], s[j])
  }

  /** The number of vertices splicing all of `infos` adds: |hole| + 2 for each. */
  function AddedVertices(infos: seq<HoleInfo>): nat
  {
    if |infos| == 0 then 0 else |infos[0].hole| + 2 + AddedVertices(infos[1..])
  }

  /** Inserts `h` in front of the first element it is in order with. */
  function Insert(h: HoleInfo, s: seq<HoleInfo>): (r: seq<HoleInfo>)
    ensures |r| == |s| + 1
    ensures multiset(r) == multiset(s) + multiset{h}
    ensures Sorted(s) ==> Sorted(r)
    ensures AddedVertices(r) == AddedVertices(s) + |h.hole| + 2
  {
    if |s| == 0 then [h]
    else if InOrder(h, s[0]) then
      assert ([h] + s)[1..] == s;
      PrependSorted(h, s);
      [h] + s
    else
      var rest := Insert(h, s[1..]);
      assert s == [s[0]] + s[1..];
      assert ([s[0]] + rest)[1..] == rest;
      InsertSortedStep(h, s, rest);
      [s[0]] + rest
  }

  /** A sorted sequence stays sorted with an element in order with its head put in front. */
  lemma PrependSorted(h: HoleInfo, s: seq<HoleInfo>)
    requires |s| > 0 && InOrder(h, s[0])
    ensures Sorted(s) ==> Sorted([h] + s)
  {
    if Sorted(s) {
      var r := [h] + s;
      forall i, j | 0 <= i < j < |r|
        ensures InOrder(r[i], r[j])
      {
        if i == 0 && j > 1 {
          assert InOrder(s[0], s[j - 1]);
        }
      }
    }
  }

  /** Putting `s[0]` back in front of the insertion into the tail keeps the order. */
  lemma InsertSortedStep(h: HoleInfo, s: seq<HoleInfo>, rest: seq<HoleInfo>)
    requires |s| > 0 && !InOrder(h, s[0])
    requires multiset(rest) == multiset(s[1..]) + multiset{h}
    requires Sorted(s) ==> Sorted(rest)
    ensures Sorted(s) ==> Sorted([s[0]] + rest)
  {
    if Sorted(s) {
      forall k | 0 <= k < |rest|
        ensures InOrder(s[0], rest[k])
      {
        assert rest[k] in multiset(rest);
        if rest[k] != h {
          assert rest[k] in multiset(s[1..]);
          var m :| 0 <= m < |s[1..]| && s[1..][m] == rest[k];
          assert s[m + 1] == rest[k];
        }
      }
      var r := [s[0]] + rest;
      forall i, j | 0 <= i < j < |r|
        ensures InOrder(r[i], r[j])
      {
        if i > 0 {
          assert r[i] == rest[i - 1] && r[j] == rest[j - 1];
        } else {
          assert r[j] == rest[j - 1];
        }
      }
    }
  }

  /**
    The order the holes are processed in: an insertion sort by `InOrder`. It is
    a sorted permutation of its input and adds the same number of vertices.
  */
  function SortHoles(s: seq<HoleInfo>): (r: seq<HoleInfo>)
    ensures |r| == |s|
    ensures multiset(r) == multiset(s)
    ensures Sorted(r)
    ensures AddedVertices(r) == AddedVertices(s)
  {
    if |s| == 0 then []
    else
      assert s == [s[0]] + s[1..];
      Insert(s[0], SortHoles(s[1..]))
  }

  /** No two records share an input index unless they are the same record. */
  predicate KeyedByIndex(s: seq<HoleInfo>)
  {
    forall i, j :: 0 <= i < |s| && 0 <= j < |s| && s[i].holeIndex == s[j].holeIndex ==> s[i] == s[j]
  }

  /**
    The comparison never ties two different holes, so a sorted permutation is
    unique: any sort by it, stable or not, yields `SortHoles`.
  */
  lemma {:induction false} SortedPermutationUnique(a: seq<HoleInfo>, b: seq<HoleInfo>)
    requires Sorted(a) && Sorted(b) && multiset(a) == multiset(b) && KeyedByIndex(a)
    ensures a == b
    decreases |a|
  {
    assert |a| == |multiset(a)| == |b|;
    if |a| > 0 {
      SortedHeadsEqual(a, b);
      SameTail(a, b);
      TailKeeps(a);
      TailKeeps(b);
      SortedPermutationUnique(a[1..], b[1..]);
      assert a == [a[0]] + a[1..] && b == [b[0]] + b[1..];
    }
  }

  /** Two sorted permutations keyed by index start with the same record. */
  lemma SortedHeadsEqual(a: seq<HoleInfo>, b: seq<HoleInfo>)
    requires |a| > 0 && |b| > 0
    requires Sorted(a) && Sorted(b) && multiset(a) == multiset(b) && KeyedByIndex(a)
    ensures a[0] == b[0]
  {
    assert a[0] in multiset(b);
    var i :| 0 <= i < |b| && b[i] == a[0];
    assert b[0] in multiset(a);
    var j :| 0 <= j < |a| && a[j] == b[0];
    assert InOrder(b[0], a[0]) by {
      if i > 0 {
        assert InOrder(b[0], b[i]);
      }
    }
    assert InOrder(a[0], b[0]) by {
      if j > 0 {
        assert InOrder(a[0], a[j]);
      }
    }
    assert a[0].holeIndex == a[j].holeIndex;
  }

  /** Equal heads and equal multisets leave equal tails. */
  lemma SameTail(a: seq<HoleInfo>, b: seq<HoleInfo>)
    requires |a| > 0 && |b| > 0 && a[0] == b[0] && multiset(a) == multiset(b)
    ensures multiset(a[1..]) == multiset(b[1..])
  {
    assert a == [a[0]] + a[1..];
    assert b == [b[0]] + b[1..];
    assert multiset(a[1..]) == multiset(a) - multiset{a[0]};
    assert multiset(b[1..]) == multiset(b) - multiset{b[0]};
  }

  /** Dropping the head keeps a sequence sorted and keyed by index. */
  lemma TailKeeps(a: seq<HoleInfo>)
    requires |a| > 0
    ensures Sorted(a) ==> Sorted(a[1..])
    ensures KeyedByIndex(a) ==> KeyedByIndex(a[1..])
  {
    if Sorted(a) {
      forall i, j | 0 <= i < j < |a[1..]|
        ensures InOrder(a[1..][i], a[1..][j])
      {
        assert a[1..][i] == a[i + 1] && a[1..][j] == a[j + 1];
      }
    }
    if KeyedByIndex(a) {
      forall i, j | 0 <= i < |a[1..]| && 0 <= j < |a[1..]| && a[1..][i].holeIndex == a[1..][j].holeIndex
        ensures a[1..][i] == a[1..][j]
      {
        assert a[1..][i] == a[i + 1] && a[1..][j] == a[j + 1];
      }
    }
  }

  // ---------------------------------------------------------------------------
  // The ray cast from M in the +X direction
  // ---------------------------------------------------------------------------

  /**
    `IsValidEdge`: the edge A->B is not horizontal, spans the ray's height
    (min <= M.Y < max), and has M strictly on its left: the cross product of A->B with
    A->M is positive, which is `Sign(A, B, M) > 0` by `Triangles.SignFromFirstCorner`.
  */
  predicate IsValidEdge(M: Vector2Int, A: Vector2Int, B: Vector2Int): (r: bool)
    ensures r <==> Min(A.Y, B.Y) <= M.Y < Max(A.Y, B.Y) && (B.X - A.X) * (M.Y - A.Y) - (B.Y - A.Y) * (M.X - A.X) > 0
  {
    if A.Y == B.Y then false
    else if Min(A.Y, B.Y) > M.Y || Max(A.Y, B.Y) <= M.Y then false
    else if Cross(V.Sub(B, A), V.Sub(M, A)) <= 0 then false
    else true
  }

  /**
    The division-free test for "the crossing point lies at or left of M":
    Ix <= M.X with Ix = A.X + t * (B.X - A.X) and t = (M.Y - A.Y) / (B.Y - A.Y).
  */
  predicate Discarded(M: Vector2Int, A: Vector2Int, B: Vector2Int)
  {
    var dy := B.Y - A.Y;
    var lhs := (M.Y - A.Y) * (B.X - A.X);
    var rhs := (M.X - A.X) * dy;
    (dy > 0 && lhs <= rhs) || (dy < 0 && lhs >= rhs)
  }

  /** An edge the ray cast considers: valid and not discarded. */
  predicate Kept(M: Vector2Int, A: Vector2Int, B: Vector2Int)
  {
    IsValidEdge(M, A, B) && !Discarded(M, A, B)
  }

  /** The crossing X of the ray with the line through A and B, as a fraction. */
  function CandidateX(M: Vector2Int, A: Vector2Int, B: Vector2Int): LongFraction
    requires A.Y != B.Y
  {
    CrossingX(A.X, B.X - A.X, M.Y - A.Y, B.Y - A.Y)
  }

  /** ax + (n/dy)*ex over the common denominator dy. */
  function CrossingX(ax: int, ex: int, n: int, dy: int): LongFraction
    requires dy != 0
  {
    New(ax * dy + n * ex, dy)
  }

  /** The edge parameter t of the crossing: 0 at A, 1 at B. */
  function ParamT(M: Vector2Int, A: Vector2Int, B: Vector2Int): LongFraction
    requires A.Y != B.Y
  {
    New(M.Y - A.Y, B.Y - A.Y)
  }

  /**
    The edges the ray cast keeps are exactly the upward ones with M strictly on
    their left: a valid downward edge always fails the discard test.
  */
  lemma KeptEdge(M: Vector2Int, A: Vector2Int, B: Vector2Int)
    ensures Kept(M, A, B) <==> A.Y <= M.Y < B.Y && Cross(V.Sub(B, A), V.Sub(M, A)) > 0
  {
    var dy := B.Y - A.Y;
    var lhs := (M.Y - A.Y) * (B.X - A.X);
    var rhs := (M.X - A.X) * dy;
    assert Cross(V.Sub(B, A), V.Sub(M, A)) == lhs - rhs;
  }

  /** On a kept edge the crossing's parameter t lies in [0, 1): it is 0 exactly when the ray passes through A, and never 1. */
  lemma KeptParam(M: Vector2Int, A: Vector2Int, B: Vector2Int)
    requires Kept(M, A, B)
    ensures var t := ParamT(M, A, B);
      !t.IsInfinity() && 0.0 <= t.Value() < 1.0 && !t.IsOne() && (t.IsZero() <==> M.Y == A.Y)
  {
    KeptEdge(M, A, B);
    ParamFacts(M.Y - A.Y, B.Y - A.Y);
  }

  /** On a kept edge the crossing lies strictly right of M, at Ix = A.X + t * (B.X - A.X). */
  lemma KeptCrossing(M: Vector2Int, A: Vector2Int, B: Vector2Int)
    requires Kept(M, A, B)
    ensures var t, x := ParamT(M, A, B), CandidateX(M, A, B);
      !t.IsInfinity() && !x.IsInfinity() &&
      x.Value() > M.X as real &&
      x.Value() == XAt(A.X, B.X - A.X, t.Value())
  {
    KeptEdge(M, A, B);
    CrossExpand(M, A, B);
    CrossingFacts(A.X, B.X - A.X, M.Y - A.Y, B.Y - A.Y, M.X);
  }

  /** n*ex - (mx - ax)*dy: the cross product of the edge with A->M, in the edge's terms. */
  function CrossDiff(ax: int, ex: int, n: int, dy: int, mx: int): int
  {
    n * ex - (mx - ax) * dy
  }

  lemma CrossExpand(M: Vector2Int, A: Vector2Int, B: Vector2Int)
    ensures Cross(V.Sub(B, A), V.Sub(M, A)) == CrossDiff(A.X, B.X - A.X, M.Y - A.Y, B.Y - A.Y, M.X)
  {
  }

  /** t = n/d with 0 <= n < d: finite, in [0, 1), never one, and zero exactly when n is. */
  lemma ParamFacts(n: int, d: int)
    requires 0 <= n < d
    ensures var t := New(n, d);
      !t.IsInfinity() && 0.0 <= t.Value() < 1.0 && t.Value() == n as real / d as real &&
      !t.IsOne() && (t.IsZero() <==> n == 0)
  {
    var t := New(n, d);
    SignOfValue(n, d);
    FractionBelowOne(n, d);
  }

  /** Ix = (ax*dy + n*ex)/dy, right of mx when n*ex > (mx - ax)*dy, and equal to ax + t*ex for t = n/dy. */
  lemma CrossingFacts(ax: int, ex: int, n: int, dy: int, mx: int)
    requires dy > 0 && CrossDiff(ax, ex, n, dy, mx) > 0
    ensures var x := CrossingX(ax, ex, n, dy);
      !x.IsInfinity() && x.Value() > mx as real &&
      x.Value() == XAt(ax, ex, New(n, dy).Value())
  {
    CrossingRight(ax, ex, n, dy, mx);
    CrossingAtT(ax, ex, n, dy);
  }

  /** The X coordinate at parameter `t` along an edge that starts at `ax` and spans `ex`. */
  ghost function XAt(ax: int, ex: int, t: real): real
  {
    ax as real + t * ex as real
  }

  /** n/d lies in [0, 1) when 0 <= n < d. */
  lemma FractionBelowOne(n: int, d: int)
    requires 0 <= n < d
    ensures 0.0 <= n as real / d as real < 1.0
  {
  }

  /** (ax*dy + n*ex)/dy > mx when n*ex > (mx - ax)*dy and dy > 0. */
  lemma CrossingRight(ax: int, ex: int, n: int, dy: int, mx: int)
    requires dy > 0 && CrossDiff(ax, ex, n, dy, mx) > 0
    ensures (ax * dy + n * ex) as real / dy as real > mx as real
  {
    assert ax * dy + n * ex > mx * dy;
    assert (ax * dy + n * ex) as real > mx as real * dy as real;
  }

  /** (ax*dy + n*ex)/dy == ax + (n/dy)*ex, and n/dy is the value of the fraction t. */
  lemma CrossingAtT(ax: int, ex: int, n: int, dy: int)
    requires dy > 0
    ensures (ax * dy + n * ex) as real / dy as real == XAt(ax, ex, New(n, dy).Value())
  {
    assert New(n, dy).Value() == n as real / dy as real;
    assert (ax * dy + n * ex) as real == ax as real * dy as real + n as real * ex as real;
  }

  /** The result of the ray cast: the nearest crossing X, its t, and the index where its edge starts. */
  datatype RayHit = RayHit(x: LongFraction, t: LongFraction, edgeStart: nat)

  /** The node after `k` in the cycle: `Next ?? First`. */
  function EdgeEnd(outer: seq<Vector2Int>, k: nat): (r: nat)
    requires k < |outer|
    ensures r < |outer|
  {
    if k + 1 < |outer| then k + 1 else 0
  }

  /** Edge `j` of the cycle, from vertex j to the next one, is kept by the ray cast. */
  predicate KeptAt(outer: seq<Vector2Int>, M: Vector2Int, j: nat)
    requires j < |outer|
  {
    Kept(M, outer[j], outer[EdgeEnd(outer, j)])
  }

  function CandidateAt(outer: seq<Vector2Int>, M: Vector2Int, j: nat): LongFraction
    requires j < |outer| && KeptAt(outer, M, j)
  {
    CandidateX(M, outer[j], outer[EdgeEnd(outer, j)])
  }

  /**
    The state of `FindNearestIntersection` after the first `k` edges: it starts
    at (infinity, infinity, first node) and moves to an edge only when that edge
    is kept and its crossing is strictly nearer.
  */
  function ScanEdges(outer: seq<Vector2Int>, M: Vector2Int, k: nat): (h: RayHit)
    requires 0 < |outer| && k <= |outer|
    ensures h.edgeStart < |outer|
  {
    if k == 0 then RayHit(Infinity, Infinity, 0)
    else
      var h := ScanEdges(outer, M, k - 1);
      var A, B := outer[k - 1], outer[EdgeEnd(outer, k - 1)];
      if !IsValidEdge(M, A, B) then h
      else if Discarded(M, A, B) then h
      else
        var candidate := CandidateX(M, A, B);
        if Less(candidate, h.x) then RayHit(candidate, ParamT(M, A, B), k - 1) else h
  }

  /**
    What a ray-cast state `h` says about the first `k` edges: nothing (an
    infinite X, t and the first node) when none of them is kept; otherwise a
    kept edge whose crossing is the nearest of all kept edges, the first such
    edge on a tie, together with its own t.
  */
  ghost predicate Summarises(outer: seq<Vector2Int>, M: Vector2Int, k: nat, h: RayHit)
    requires 0 < |outer| && k <= |outer|
  {
    (h.x.IsInfinity() <==> forall j :: 0 <= j < k ==> !KeptAt(outer, M, j)) &&
    (h.x.IsInfinity() ==> h == RayHit(Infinity, Infinity, 0)) &&
    (!h.x.IsInfinity() ==>
      h.edgeStart < k && KeptAt(outer, M, h.edgeStart) &&
      h.x == CandidateAt(outer, M, h.edgeStart) &&
      h.t == ParamT(M, outer[h.edgeStart], outer[EdgeEnd(outer, h.edgeStart)]) &&
      (forall j :: 0 <= j < k && KeptAt(outer, M, j) ==> h.x.Value() <= CandidateAt(outer, M, j).Value()) &&
      (forall j :: 0 <= j < h.edgeStart && KeptAt(outer, M, j) ==> h.x.Value() < CandidateAt(outer, M, j).Value()))
  }

  /** What the ray cast finds after the first `k` edges is summarised as above. */
  lemma {:induction false} NearestHit(outer: seq<Vector2Int>, M: Vector2Int, k: nat)
    requires 0 < |outer| && k <= |outer|
    ensures Summarises(outer, M, k, ScanEdges(outer, M, k))
  {
    if k > 0 {
      NearestHit(outer, M, k - 1);
      var h := ScanEdges(outer, M, k - 1);
      if !KeptAt(outer, M, k - 1) {
        SkipStep(outer, M, k, h);
      } else if Less(CandidateAt(outer, M, k - 1), h.x) {
        TakeStep(outer, M, k, h);
      } else {
        KeepStep(outer, M, k, h);
      }
    }
  }

  /** An edge that is not kept changes neither the state nor what it summarises. */
  lemma SkipStep(outer: seq<Vector2Int>, M: Vector2Int, k: nat, h: RayHit)
    requires 0 < k <= |outer| && Summarises(outer, M, k - 1, h) && !KeptAt(outer, M, k - 1)
    ensures Summarises(outer, M, k, h)
  {
  }

  /** A kept edge whose crossing is strictly nearer becomes the hit. */
  lemma TakeStep(outer: seq<Vector2Int>, M: Vector2Int, k: nat, h: RayHit)
    requires 0 < k <= |outer| && Summarises(outer, M, k - 1, h) && KeptAt(outer, M, k - 1)
    requires Less(CandidateAt(outer, M, k - 1), h.x)
    ensures Summarises(outer, M, k,
      RayHit(CandidateAt(outer, M, k - 1), ParamT(M, outer[k - 1], outer[EdgeEnd(outer, k - 1)]), k - 1))
  {
    if h.x.IsInfinity() {
      TakeFirst(outer, M, k, h);
    } else {
      TakeNearer(outer, M, k, h);
    }
  }

  /** The first kept edge becomes the hit: no earlier edge was kept. */
  lemma TakeFirst(outer: seq<Vector2Int>, M: Vector2Int, k: nat, h: RayHit)
    requires 0 < k <= |outer| && Summarises(outer, M, k - 1, h) && KeptAt(outer, M, k - 1)
    requires h.x.IsInfinity()
    ensures Summarises(outer, M, k,
      RayHit(CandidateAt(outer, M, k - 1), ParamT(M, outer[k - 1], outer[EdgeEnd(outer, k - 1)]), k - 1))
  {
    KeptCrossing(M, outer[k - 1], outer[EdgeEnd(outer, k - 1)]);
  }

  /** A kept edge strictly nearer than a finite hit replaces it. */
  lemma TakeNearer(outer: seq<Vector2Int>, M: Vector2Int, k: nat, h: RayHit)
    requires 0 < k <= |outer| && Summarises(outer, M, k - 1, h) && KeptAt(outer, M, k - 1)
    requires !h.x.IsInfinity() && Less(CandidateAt(outer, M, k - 1), h.x)
    ensures Summarises(outer, M, k,
      RayHit(CandidateAt(outer, M, k - 1), ParamT(M, outer[k - 1], outer[EdgeEnd(outer, k - 1)]), k - 1))
  {
    KeptCrossing(M, outer[k - 1], outer[EdgeEnd(outer, k - 1)]);
  }

  /** A kept edge whose crossing is not strictly nearer leaves the hit as it was. */
  lemma KeepStep(outer: seq<Vector2Int>, M: Vector2Int, k: nat, h: RayHit)
    requires 0 < k <= |outer| && Summarises(outer, M, k - 1, h) && KeptAt(outer, M, k - 1)
    requires !Less(CandidateAt(outer, M, k - 1), h.x)
    ensures Summarises(outer, M, k, h)
  {
    var A, B := outer[k - 1], outer[EdgeEnd(outer, k - 1)];
    KeptCrossing(M, A, B);
    Trichotomy(CandidateX(M, A, B), h.x);
  }

  /** `FindNearestIntersection`: one pass over the edges of the cycle. */
  method FindNearestIntersection(outer: seq<Vector2Int>, M: Vector2Int)
    returns (nearestIntersectionX: LongFraction, nearestT: LongFraction, edgeStart: nat)
    requires |outer| > 0
    ensures RayHit(nearestIntersectionX, nearestT, edgeStart) == ScanEdges(outer, M, |outer|)
  {
    nearestIntersectionX := New(1, 0);
    nearestT := New(1, 0);
    edgeStart := 0;
    var node := 0;
    while node < |outer|
      invariant 0 <= node <= |outer|
      invariant RayHit(nearestIntersectionX, nearestT, edgeStart) == ScanEdges(outer, M, node)
    {
      var A := outer[node];
      var B := outer[EdgeEnd(outer, node)];
      if !IsValidEdge(M, A, B) {
        node := node + 1;
        continue;
      }
      var dy := B.Y - A.Y;
      var lhs := (M.Y - A.Y) * (B.X - A.X);
      var rhs := (M.X - A.X) * dy;
      if (dy > 0 && lhs <= rhs) || (dy < 0 && lhs >= rhs) {
        node := node + 1;
        continue;
      }
      var candidateIxNumerator := A.X * (B.Y - A.Y) + (M.Y - A.Y) * (B.X - A.X);
      var candidateIxDenominator := B.Y - A.Y;
      var candidateIntersectionX := New(candidateIxNumerator, candidateIxDenominator);
      if Less(candidateIntersectionX, nearestIntersectionX) {
        nearestIntersectionX := candidateIntersectionX;
        edgeStart := node;
        nearestT := New(M.Y - A.Y, B.Y - A.Y);
      }
      node := node + 1;
    }
  }

  // ---------------------------------------------------------------------------
  // Vertices that block the view from M to the hit edge
  // ---------------------------------------------------------------------------

  /** The node before `k` in the cycle: `Previous ?? Last`. */
  function PrevIndex(outer: seq<Vector2Int>, k: nat): (r: nat)
    requires k < |outer|
    ensures r < |outer|
  {
    if k == 0 then |outer| - 1 else k - 1
  }

  /** `IsConvex`: the cycle turns left (counter-clockwise) at `curr`. */
  predicate IsConvex(prev: Vector2Int, curr: Vector2Int, next: Vector2Int): (r: bool)
    ensures r <==> T.Sign(prev, curr, next) > 0
  {
    T.SignFromFirstCorner(prev, curr, next);
    var dx1, dy1, dx2, dy2 := curr.X - prev.X, curr.Y - prev.Y, next.X - curr.X, next.Y - curr.Y;
    assert next.X - prev.X == dx1 + dx2 && next.Y - prev.Y == dy1 + dy2;
    assert dx1 * (dy1 + dy2) - dy1 * (dx1 + dx2) == dx1 * dy2 - dy1 * dx2;
    Cross(V.Sub(curr, prev), V.Sub(next, curr)) > 0
  }

  /** Vertex `i` is not convex and lies in the test region, boundary included. */
  predicate Obstructs(outer: seq<Vector2Int>, region: TF.TriangleFraction, i: nat)
    requires i < |outer|
  {
    !IsConvex(outer[PrevIndex(outer, i)], outer[i], outer[EdgeEnd(outer, i)]) &&
    TF.ContainsPoint(region, V.ToVector2Fraction(outer[i]))
  }

  /** The indices below `k` whose flag is set: each once, in increasing order. */
  function IndicesWhere(flags: seq<bool>, k: nat): (r: seq<nat>)
    requires k <= |flags|
    ensures forall j: nat :: j in r <==> j < k && flags[j]
    ensures forall a :: 0 <= a < |r| ==> r[a] < k
    ensures forall a, b :: 0 <= a < b < |r| ==> r[a] < r[b]
  {
    if k == 0 then []
    else
      var r := IndicesWhere(flags, k - 1);
      if flags[k - 1] then r + [k - 1] else r
  }

  /** One more index: it is appended exactly when its flag is set. */
  lemma ObstructingStep(flags: seq<bool>, k: nat)
    requires k < |flags|
    ensures IndicesWhere(flags, k + 1) == if flags[k] then IndicesWhere(flags, k) + [k] else IndicesWhere(flags, k)
  {
  }

  /** Whether each vertex of the cycle obstructs. */
  function ObstructionFlags(outer: seq<Vector2Int>, region: TF.TriangleFraction): (f: seq<bool>)
    ensures |f| == |outer|
    ensures forall i :: 0 <= i < |outer| ==> f[i] == Obstructs(outer, region, i)
  {
    seq(|outer|, i requires 0 <= i < |outer| => Obstructs(outer, region, i))
  }

  /**
    The obstructing vertices of the cycle: exactly those that obstruct, each
    once, in cycle order.
  */
  function Obstructing(outer: seq<Vector2Int>, region: TF.TriangleFraction): (r: seq<nat>)
    ensures forall j: nat :: j in r <==> j < |outer| && Obstructs(outer, region, j)
    ensures forall a, b :: 0 <= a < b < |r| ==> r[a] < r[b]
  {
    IndicesWhere(ObstructionFlags(outer, region), |outer|)
  }

  /** `GetObstructingVertices`: one pass over the cycle, skipping the convex vertices. */
  method GetObstructingVertices(outerVertices: seq<Vector2Int>, testRegion: TF.TriangleFraction)
    returns (obstructingVertices: seq<nat>)
    ensures obstructingVertices == Obstructing(outerVertices, testRegion)
  {
    ghost var flags := ObstructionFlags(outerVertices, testRegion);
    obstructingVertices := [];
    var node := 0;
    while node < |outerVertices|
      invariant 0 <= node <= |outerVertices|
      invariant obstructingVertices == IndicesWhere(flags, node)
    {
      var obstructs := TestVertex(outerVertices, testRegion, node);
      ObstructingStep(flags, node);
      if obstructs {
        obstructingVertices := obstructingVertices + [node];
      }
      node := node + 1;
    }
  }

  /** The body of the scan for one vertex: reflex (not convex) and inside the test region. */
  method TestVertex(outerVertices: seq<Vector2Int>, testRegion: TF.TriangleFraction, node: nat) returns (obstructs: bool)
    requires node < |outerVertices|
    ensures obstructs == ObstructionFlags(outerVertices, testRegion)[node]
  {
    var prevNode := PrevIndex(outerVertices, node);
    var nextNode := EdgeEnd(outerVertices, node);
    obstructs := false;
    if !IsConvex(outerVertices[prevNode], outerVertices[node], outerVertices[nextNode]) {
      var testPoint := V.ToVector2Fraction(outerVertices[node]);
      if TF.ContainsPoint(testRegion, testPoint) {
        obstructs := true;
      }
    }
  }

  /** The denominator of a vertex's angle score: (v.X - M.X)^2 + v.Y^2. */
  function AngleDenominator(v: Vector2Int, M: Vector2Int): int
  {
    (v.X - M.X) * (v.X - M.X) + v.Y * v.Y
  }

  /**
    The score denominator is never negative, and it is zero (so the score is
    0/0 and its construction throws) exactly at the point (M.X, 0).
  */
  lemma AngleDenominatorZero(v: Vector2Int, M: Vector2Int)
    ensures AngleDenominator(v, M) >= 0
    ensures AngleDenominator(v, M) == 0 <==> v.X == M.X && v.Y == 0
  {
    Square(v.X - M.X);
    Square(v.Y);
  }

  lemma Square(x: int)
    ensures x * x >= 0 && (x * x == 0 <==> x == 0)
  {
    if x > 0 {
      assert x * x >= x;
    } else if x < 0 {
      assert x * x >= -x;
    }
  }

  /**
    What `FindMinimumAngleVertex` comes to: the division by zero if one of the
    listed vertices has a zero score denominator, and otherwise the first listed
    vertex, since no score (all >= 0) is below the initial 0/1.
  */
  function MinimumAngleOutcome(outer: seq<Vector2Int>, vertices: seq<nat>, M: Vector2Int): Result<nat>
    requires |vertices| > 0 && forall j :: 0 <= j < |vertices| ==> vertices[j] < |outer|
  {
    if exists j :: 0 <= j < |vertices| && AngleDenominator(outer[vertices[j]], M) == 0 then Err(DivideByZero)
    else Ok(vertices[0])
  }

  /** `FindMinimumAngleVertex`, proved to return the first vertex unless a score is 0/0. */
  method FindMinimumAngleVertex(outer: seq<Vector2Int>, vertices: seq<nat>, M: Vector2Int) returns (r: Result<nat>)
    requires |vertices| > 0 && forall j :: 0 <= j < |vertices| ==> vertices[j] < |outer|
    ensures r == MinimumAngleOutcome(outer, vertices, M)
  {
    var minScore := New(0, 1);
    V.WholeNumber(0);
    var minAngleVertex := vertices[0];
    var i := 0;
    while i < |vertices|
      invariant 0 <= i <= |vertices|
      invariant minScore == LongFraction(0, 1) && minAngleVertex == vertices[0]
      invariant forall j :: 0 <= j < i ==> AngleDenominator(outer[vertices[j]], M) != 0
    {
      var v := vertices[i];
      var vertex := outer[v];
      var numerator := (vertex.X - M.X) * (vertex.X - M.X);
      var denominator := numerator + vertex.Y * vertex.Y;
      AngleDenominatorZero(vertex, M);
      Square(vertex.X - M.X);
      if denominator == 0 {
        return Err(DivideByZero);
      }
      ScoreNotBelowZero(numerator, denominator);
      var score := New(numerator, denominator);
      if Less(score, minScore) {
        minScore := score;
        minAngleVertex := v;
      }
      i := i + 1;
    }
    return Ok(minAngleVertex);
  }

  /** A score n/d with n >= 0 and d > 0 is not below 0/1. */
  lemma ScoreNotBelowZero(n: int, d: int)
    requires 0 <= n && 0 < d
    ensures !Less(New(n, d), LongFraction(0, 1))
  {
    V.WholeNumber(0);
    SignOfValue(n, d);
  }

  // ---------------------------------------------------------------------------
  // The bridge vertex
  // ---------------------------------------------------------------------------

  /** P: the endpoint of edge `start` with the larger X (the end vertex on a tie). */
  function RightEndpoint(outer: seq<Vector2Int>, start: nat): (p: nat)
    requires start < |outer|
    ensures p == start || p == EdgeEnd(outer, start)
    ensures outer[p].X >= outer[start].X && outer[p].X >= outer[EdgeEnd(outer, start)].X
  {
    var end := EdgeEnd(outer, start);
    if outer[start].X > outer[end].X then start else end
  }

  /** The crossing point I = (Ix, M.Y) of the ray with the hit edge. */
  function CrossingPoint(M: Vector2Int, h: RayHit): VF.Vector2Fraction
  {
    VF.Vector2Fraction(h.x, New(M.Y, 1))
  }

  /** The test region: the triangle (M, I, P), made counter-clockwise by its constructor. */
  function TestRegion(outer: seq<Vector2Int>, M: Vector2Int, h: RayHit): TF.TriangleFraction
    requires h.edgeStart < |outer|
  {
    TF.NewTriangleFraction(V.ToVector2Fraction(M), CrossingPoint(M, h),
                           V.ToVector2Fraction(outer[RightEndpoint(outer, h.edgeStart)]))
  }

  /**
    The outcome of `FindMutuallyVisibleVertex` for a non-empty cycle: the hit
    vertex when the ray passes exactly through an endpoint of the hit edge;
    otherwise P when no vertex obstructs, and otherwise the outcome of
    `FindMinimumAngleVertex` on the obstructing vertices.
  */
  function VisibleVertex(outer: seq<Vector2Int>, info: HoleInfo): (r: Result<nat>)
    requires |outer| > 0 && WellFormed(info)
    ensures r.Ok? ==> r.value < |outer|
  {
    var M := info.hole[info.maxXIndex];
    var h := ScanEdges(outer, M, |outer|);
    var start, end := h.edgeStart, EdgeEnd(outer, h.edgeStart);
    if (h.t.IsZero() || h.t.IsOne()) && M.Y == outer[start].Y then Ok(start)
    else if (h.t.IsZero() || h.t.IsOne()) && M.Y == outer[end].Y then Ok(end)
    else UnobstructedOrNearest(outer, M, h)
  }

  /**
    The last step of the bridge search: P when no reflex vertex lies in the test
    region (M, I, P), and otherwise the outcome of `FindMinimumAngleVertex` on
    the obstructing vertices.
  */
  function UnobstructedOrNearest(outer: seq<Vector2Int>, M: Vector2Int, h: RayHit): (r: Result<nat>)
    requires h.edgeStart < |outer|
    ensures r.Ok? ==> r.value < |outer|
  {
    var obstructing := Obstructing(outer, TestRegion(outer, M, h));
    if |obstructing| == 0 then Ok(RightEndpoint(outer, h.edgeStart))
    else
      assert obstructing[0] in obstructing;
      MinimumAngleOutcome(outer, obstructing, M)
  }

  /**
    The ray passes through a vertex exactly when it hits an edge at its start
    vertex: t is never 1, and it is 0 only on a hit whose edge starts at M's
    height. So the test of the edge's end vertex never decides the bridge.
  */
  lemma HitVertexIsEdgeStart(outer: seq<Vector2Int>, M: Vector2Int)
    requires |outer| > 0
    ensures var h := ScanEdges(outer, M, |outer|);
      (h.t.IsZero() || h.t.IsOne()) <==> !h.x.IsInfinity() && M.Y == outer[h.edgeStart].Y
  {
    var h := ScanEdges(outer, M, |outer|);
    NearestHit(outer, M, |outer|);
    if !h.x.IsInfinity() {
      KeptCrossing(M, outer[h.edgeStart], outer[EdgeEnd(outer, h.edgeStart)]);
      KeptParam(M, outer[h.edgeStart], outer[EdgeEnd(outer, h.edgeStart)]);
    }
  }

  /** The selected indices are empty exactly when no flag is set, and start at the first set flag. */
  lemma FirstIndexWhere(flags: seq<bool>)
    ensures var r := IndicesWhere(flags, |flags|);
      (|r| == 0 <==> forall j :: 0 <= j < |flags| ==> !flags[j]) &&
      (|r| > 0 ==> flags[r[0]] && forall j :: 0 <= j < r[0] ==> !flags[j])
  {
    var r := IndicesWhere(flags, |flags|);
    if |r| > 0 {
      assert r[0] in r;
    }
  }

  /** The angle search fails exactly when a listed vertex lies at (M.X, 0), and otherwise returns the first. */
  lemma MinimumAngleCases(outer: seq<Vector2Int>, vertices: seq<nat>, M: Vector2Int)
    requires |vertices| > 0 && forall j :: 0 <= j < |vertices| ==> vertices[j] < |outer|
    ensures MinimumAngleOutcome(outer, vertices, M).Ok? ==> MinimumAngleOutcome(outer, vertices, M).value == vertices[0]
    ensures MinimumAngleOutcome(outer, vertices, M).Err? ==> MinimumAngleOutcome(outer, vertices, M).error == DivideByZero
    ensures MinimumAngleOutcome(outer, vertices, M).Err? <==>
      exists j :: 0 <= j < |vertices| && outer[vertices[j]].X == M.X && outer[vertices[j]].Y == 0
  {
    forall j | 0 <= j < |vertices|
      ensures AngleDenominator(outer[vertices[j]], M) == 0 <==> outer[vertices[j]].X == M.X && outer[vertices[j]].Y == 0
    {
      AngleDenominatorZero(outer[vertices[j]], M);
    }
  }

  /**
    The obstructing list is empty exactly when no vertex obstructs; otherwise it
    starts with the first obstructing vertex in cycle order, and the angle
    search fails exactly when an obstructing vertex lies at (M.X, 0).
  */
  lemma FirstObstructing(outer: seq<Vector2Int>, region: TF.TriangleFraction, M: Vector2Int)
    ensures var obstructing := Obstructing(outer, region);
      (|obstructing| == 0 <==> forall j :: 0 <= j < |outer| ==> !Obstructs(outer, region, j)) &&
      (|obstructing| > 0 ==>
        Obstructs(outer, region, obstructing[0]) &&
        (forall j :: 0 <= j < obstructing[0] ==> !Obstructs(outer, region, j)) &&
        (MinimumAngleOutcome(outer, obstructing, M) == Ok(obstructing[0]) ||
         MinimumAngleOutcome(outer, obstructing, M) == Err(DivideByZero)) &&
        (MinimumAngleOutcome(outer, obstructing, M).Err? <==>
          exists j :: 0 <= j < |outer| && Obstructs(outer, region, j) && outer[j].X == M.X && outer[j].Y == 0))
  {
    var flags := ObstructionFlags(outer, region);
    FirstFlagged(outer, flags, M);
  }

  /** `FirstObstructing` for any flags over the cycle's vertices. */
  lemma FirstFlagged(outer: seq<Vector2Int>, flags: seq<bool>, M: Vector2Int)
    requires |flags| == |outer|
    ensures var r := IndicesWhere(flags, |flags|);
      (|r| == 0 <==> forall j :: 0 <= j < |outer| ==> !flags[j]) &&
      (|r| > 0 ==>
        flags[r[0]] &&
        (forall j :: 0 <= j < r[0] ==> !flags[j]) &&
        (MinimumAngleOutcome(outer, r, M) == Ok(r[0]) || MinimumAngleOutcome(outer, r, M) == Err(DivideByZero)) &&
        (MinimumAngleOutcome(outer, r, M).Err? <==>
          exists j :: 0 <= j < |outer| && flags[j] && outer[j].X == M.X && outer[j].Y == 0))
  {
    var r := IndicesWhere(flags, |flags|);
    FirstIndexWhere(flags);
    if |r| > 0 {
      assert r[0] in r;
      MinimumAngleCases(outer, r, M);
      if exists j :: 0 <= j < |outer| && flags[j] && outer[j].X == M.X && outer[j].Y == 0 {
        var j :| 0 <= j < |outer| && flags[j] && outer[j].X == M.X && outer[j].Y == 0;
        assert j in r;
      }
    }
  }

  /** M, the rightmost vertex of the hole, where the bridge starts. */
  function BridgeOrigin(info: HoleInfo): Vector2Int
    requires WellFormed(info)
  {
    info.hole[info.maxXIndex]
  }

  /**
    Where the bridge goes. When the ray hits an edge exactly at its start
    vertex, that vertex. Otherwise, with no obstructing vertex, P; with some,
    the first obstructing vertex in cycle order, or the division by zero when
    one of them lies at (M.X, 0). The error arises nowhere else.
  */
  lemma BridgeTarget(outer: seq<Vector2Int>, info: HoleInfo)
    requires |outer| > 0 && WellFormed(info)
    ensures var h := ScanEdges(outer, BridgeOrigin(info), |outer|);
      !h.x.IsInfinity() && BridgeOrigin(info).Y == outer[h.edgeStart].Y ==>
        VisibleVertex(outer, info) == Ok(h.edgeStart)
    ensures var M := BridgeOrigin(info);
      var h := ScanEdges(outer, M, |outer|);
      var region := TestRegion(outer, M, h);
      var r := VisibleVertex(outer, info);
      !(!h.x.IsInfinity() && M.Y == outer[h.edgeStart].Y) ==>
        ((forall j :: 0 <= j < |outer| ==> !Obstructs(outer, region, j)) ==> r == Ok(RightEndpoint(outer, h.edgeStart))) &&
        (r.Ok? && r.value != RightEndpoint(outer, h.edgeStart) ==>
          Obstructs(outer, region, r.value) &&
          forall j :: 0 <= j < r.value ==> !Obstructs(outer, region, j)) &&
        (r.Err? <==>
          exists j :: 0 <= j < |outer| && Obstructs(outer, region, j) && outer[j].X == M.X && outer[j].Y == 0) &&
        (r.Err? ==> r.error == DivideByZero)
  {
    var M := BridgeOrigin(info);
    var h := ScanEdges(outer, M, |outer|);
    HitVertexIsEdgeStart(outer, M);
    FirstObstructing(outer, TestRegion(outer, M, h), M);
  }

  /** `FindMutuallyVisibleVertex` for a non-empty cycle. */
  method FindMutuallyVisibleVertex(outerVertices: seq<Vector2Int>, holeInfo: HoleInfo) returns (r: Result<nat>)
    requires |outerVertices| > 0 && WellFormed(holeInfo)
    ensures r == VisibleVertex(outerVertices, holeInfo)
  {
    var M := holeInfo.hole[holeInfo.maxXIndex];
    var nearestIntersectionX, nearestT, edgeStart := FindNearestIntersection(outerVertices, M);
    var edgeEnd := EdgeEnd(outerVertices, edgeStart);
    if nearestT.IsZero() || nearestT.IsOne() {
      if M.Y == outerVertices[edgeStart].Y {
        return Ok(edgeStart);
      }
      if M.Y == outerVertices[edgeEnd].Y {
        return Ok(edgeEnd);
      }
    }
    var I := VF.Vector2Fraction(nearestIntersectionX, New(M.Y, 1));
    var P := if outerVertices[edgeStart].X > outerVertices[edgeEnd].X then edgeStart else edgeEnd;
    var testRegion := TF.NewTriangleFraction(V.ToVector2Fraction(M), I, V.ToVector2Fraction(outerVertices[P]));
    var obstructingVertices := GetObstructingVertices(outerVertices, testRegion);
    if |obstructingVertices| == 0 {
      return Ok(P);
    }
    assert obstructingVertices[0] in obstructingVertices;
    r := FindMinimumAngleVertex(outerVertices, obstructingVertices, M);
  }

  // ---------------------------------------------------------------------------
  // Splicing a hole into the cycle
  // ---------------------------------------------------------------------------

  /** `LinkedList.AddAfter`: `x` goes in right after position `k`. */
  function AddAfter(s: seq<Vector2Int>, k: nat, x: Vector2Int): (r: seq<Vector2Int>)
    requires k < |s|
    ensures |r| == |s| + 1 && r[k + 1] == x
    ensures r[..k + 1] == s[..k + 1] && r[k + 2..] == s[k + 1..]
  {
    s[..k + 1] + [x] + s[k + 1..]
  }

  /** The hole walked once around from M and back to M: |hole| + 1 vertices. */
  function HoleWalk(info: HoleInfo): (w: seq<Vector2Int>)
    requires WellFormed(info)
    ensures |w| == |info.hole| + 1
    ensures forall i :: 0 <= i < |w| ==> w[i] == info.hole[(info.maxXIndex + i) % |info.hole|]
  {
    seq(|info.hole| + 1, i requires 0 <= i <= |info.hole| => info.hole[(info.maxXIndex + i) % |info.hole|])
  }

  /** The walk starts and ends at M and passes through every vertex of the hole. */
  lemma WalkCoversHole(info: HoleInfo)
    requires WellFormed(info)
    ensures HoleWalk(info)[0] == BridgeOrigin(info) && HoleWalk(info)[|info.hole|] == BridgeOrigin(info)
    ensures forall j :: 0 <= j < |info.hole| ==> info.hole[j] in HoleWalk(info)
  {
    var n, m := |info.hole|, info.maxXIndex;
    assert (m + 0) % n == m;
    DivModUnique(m + n, n, 1, m);
    forall j | 0 <= j < n
      ensures info.hole[j] in HoleWalk(info)
    {
      WalkReaches(info, j);
    }
  }

  /** Vertex j of the hole is step (j - m) mod n of the walk. */
  lemma WalkReaches(info: HoleInfo, j: nat)
    requires WellFormed(info) && j < |info.hole|
    ensures info.hole[j] in HoleWalk(info)
  {
    var n, m, w := |info.hole|, info.maxXIndex, HoleWalk(info);
    if j >= m {
      DivModUnique(m + (j - m), n, 0, j);
      assert w[j - m] == info.hole[j];
    } else {
      DivModUnique(m + (j + n - m), n, 1, j);
      assert w[j + n - m] == info.hole[j];
    }
  }

  /**
    The cycle after splicing hole `info` at vertex `v`: v, the walk M ... M,
    v again, then the rest of the old cycle.
  */
  function Spliced(vs: seq<Vector2Int>, v: nat, info: HoleInfo): (r: seq<Vector2Int>)
    requires v < |vs| && WellFormed(info)
    ensures |r| == |vs| + |info.hole| + 2
  {
    vs[..v + 1] + HoleWalk(info) + [vs[v]] + vs[v + 1..]
  }

  /**
    Splicing adds the |hole| + 2 bridge and hole vertices after `v`: the cycle
    goes v -> M, round the hole back to M, M -> v, and on as before; nothing
    before or after the insertion moves, and nothing is lost.
  */
  lemma SplicedShape(vs: seq<Vector2Int>, v: nat, info: HoleInfo)
    requires v < |vs| && WellFormed(info)
    ensures var r, n := Spliced(vs, v, info), |info.hole|;
      r[..v + 1] == vs[..v + 1] &&
      r[v + 1] == BridgeOrigin(info) && r[v + n + 1] == BridgeOrigin(info) &&
      r[v + 1..v + n + 2] == HoleWalk(info) &&
      r[v + n + 2] == vs[v] && r[v + n + 3..] == vs[v + 1..]
    ensures multiset(Spliced(vs, v, info)) == multiset(vs) + multiset(HoleWalk(info)) + multiset{vs[v]}
  {
    var r, n, w := Spliced(vs, v, info), |info.hole|, HoleWalk(info);
    WalkCoversHole(info);
    assert r == vs[..v + 1] + w + [vs[v]] + vs[v + 1..];
    assert vs == vs[..v + 1] + vs[v + 1..];
    assert r[v + 1..v + n + 2] == w;
  }

  /**
    `SpliceVertices`: |hole| + 1 insertions after a moving cursor (the walk),
    then the visible vertex once more.
  */
  method SpliceVertices(vertices: seq<Vector2Int>, visibleVertex: nat, holeInfo: HoleInfo)
    returns (result: seq<Vector2Int>)
    requires visibleVertex < |vertices| && WellFormed(holeInfo)
    ensures result == Spliced(vertices, visibleVertex, holeInfo)
  {
    var holeVertices := holeInfo.hole;
    var numHoleVertices := |holeVertices|;
    ghost var walk := HoleWalk(holeInfo);
    var lastVertex := visibleVertex;
    result := vertices;
    var i := 0;
    while i <= numHoleVertices
      invariant 0 <= i <= numHoleVertices + 1
      invariant lastVertex == visibleVertex + i
      invariant result == vertices[..visibleVertex + 1] + walk[..i] + vertices[visibleVertex + 1..]
    {
      var vertex := holeVertices[(holeInfo.maxXIndex + i) % numHoleVertices];
      assert walk[..i + 1] == walk[..i] + [vertex];
      result := AddAfter(result, lastVertex, vertex);
      lastVertex := lastVertex + 1;
      i := i + 1;
    }
    assert walk[..i] == walk;
    result := AddAfter(result, lastVertex, vertices[visibleVertex]);
  }

  // ---------------------------------------------------------------------------
  // The whole merge
  // ---------------------------------------------------------------------------

  predicate AllWellFormed(infos: seq<HoleInfo>)
  {
    forall i :: 0 <= i < |infos| ==> WellFormed(infos[i])
  }

  /**
    Splicing the holes into the cycle one after the other. A hole met while the
    cycle is empty dereferences the missing first node; a failed bridge search
    stops the merge.
  */
  function MergeHoles(vertices: seq<Vector2Int>, infos: seq<HoleInfo>): Result<seq<Vector2Int>>
    requires AllWellFormed(infos)
    decreases |infos|
  {
    if |infos| == 0 then Ok(vertices)
    else if |vertices| == 0 then Err(NoOuterVertices)
    else
      match VisibleVertex(vertices, infos[0])
      case Err(e) => Err(e)
      case Ok(v) => MergeHoles(Spliced(vertices, v, infos[0]), infos[1..])
  }

  /** Dropping the first record keeps every record well formed. */
  lemma TailWellFormed(infos: seq<HoleInfo>)
    requires |infos| > 0 && AllWellFormed(infos)
    ensures AllWellFormed(infos[1..])
  {
    forall i | 0 <= i < |infos[1..]|
      ensures WellFormed(infos[1..][i])
    {
      assert infos[1..][i] == infos[i + 1];
    }
  }

  /**
    The merge fails for want of an outer cycle exactly when there is none and
    there are holes; the only other failure is the division by zero of the
    angle search.
  */
  lemma {:induction false} MergeErrors(vertices: seq<Vector2Int>, infos: seq<HoleInfo>)
    requires AllWellFormed(infos)
    ensures MergeHoles(vertices, infos).Err? ==>
      MergeHoles(vertices, infos).error == NoOuterVertices || MergeHoles(vertices, infos).error == DivideByZero
    ensures MergeHoles(vertices, infos) == Err(NoOuterVertices) <==> |vertices| == 0 && |infos| > 0
    decreases |infos|
  {
    if |infos| > 0 && |vertices| > 0 {
      var r := VisibleVertex(vertices, infos[0]);
      BridgeTarget(vertices, infos[0]);
      if r.Ok? {
        TailWellFormed(infos);
        MergeErrors(Spliced(vertices, r.value, infos[0]), infos[1..]);
      }
    }
  }

  /** A successful merge has |vertices| plus |hole| + 2 vertices for each hole. */
  lemma {:induction false} MergeLength(vertices: seq<Vector2Int>, infos: seq<HoleInfo>)
    requires AllWellFormed(infos)
    ensures MergeHoles(vertices, infos).Ok? ==>
      |MergeHoles(vertices, infos).value| == |vertices| + AddedVertices(infos)
    decreases |infos|
  {
    if |infos| > 0 && |vertices| > 0 {
      var r := VisibleVertex(vertices, infos[0]);
      if r.Ok? {
        TailWellFormed(infos);
        MergeLength(Spliced(vertices, r.value, infos[0]), infos[1..]);
      }
    }
  }

  /** A successful merge keeps every vertex of the cycle and contains every vertex of every hole. */
  lemma {:induction false} MergeKeepsVertices(vertices: seq<Vector2Int>, infos: seq<HoleInfo>)
    requires AllWellFormed(infos)
    ensures MergeHoles(vertices, infos).Ok? ==>
      multiset(vertices) <= multiset(MergeHoles(vertices, infos).value) &&
      forall k, j :: 0 <= k < |infos| && 0 <= j < |infos[k].hole| ==> infos[k].hole[j] in MergeHoles(vertices, infos).value
    decreases |infos|
  {
    if |infos| > 0 && |vertices| > 0 {
      var r := VisibleVertex(vertices, infos[0]);
      if r.Ok? {
        var next := Spliced(vertices, r.value, infos[0]);
        TailWellFormed(infos);
        MergeKeepsVertices(next, infos[1..]);
        SplicedShape(vertices, r.value, infos[0]);
        WalkCoversHole(infos[0]);
        if MergeHoles(vertices, infos).Ok? {
          var out := MergeHoles(vertices, infos).value;
          assert MergeHoles(next, infos[1..]).value == out;
          forall k, j | 0 <= k < |infos| && 0 <= j < |infos[k].hole|
            ensures infos[k].hole[j] in out
          {
            if k == 0 {
              assert infos[0].hole[j] in multiset(HoleWalk(infos[0]));
              assert infos[0].hole[j] in multiset(next);
            } else {
              assert infos[1..][k - 1] == infos[k];
            }
          }
        }
      }
    }
  }

  // ---------------------------------------------------------------------------
  // BuildVertexList
  // ---------------------------------------------------------------------------

  /** The sorted records are the same records, so each is still well formed. */
  lemma SortedWellFormed(infos: seq<HoleInfo>)
    requires AllWellFormed(infos)
    ensures AllWellFormed(SortHoles(infos))
  {
    var sorted := SortHoles(infos);
    forall i | 0 <= i < |sorted|
      ensures WellFormed(sorted[i])
    {
      assert sorted[i] in multiset(infos);
    }
  }

  /**
    What `BuildVertexList(positive, negatives)` returns: the empty-hole error of
    `BuildHoleInfo`, or the merge of the holes, sorted, into the outer cycle.
  */
  function BuildVertexListOutcome(positive: seq<Vector2Int>, negatives: seq<seq<Vector2Int>>): Result<seq<Vector2Int>>
  {
    if SomeHoleEmpty(negatives) then Err(EmptyHole)
    else
      SortedWellFormed(HoleInfos(negatives));
      MergeHoles(positive, SortHoles(HoleInfos(negatives)))
  }

  /**
    `BuildVertexList`: record and sort the holes, copy the outer vertices, then
    splice in each hole at its mutually visible vertex.
  */
  method BuildVertexList(positive: seq<Vector2Int>, negatives: seq<seq<Vector2Int>>)
    returns (r: Result<seq<Vector2Int>>)
    ensures r == BuildVertexListOutcome(positive, negatives)
  {
    var built := BuildHoleInfo(negatives);
    if built.Err? {
      return Err(built.error);
    }
    SortedWellFormed(built.value);
    var holes := SortHoles(built.value);
    var vertices := [];
    var i := 0;
    while i < |positive|
      invariant 0 <= i <= |positive|
      invariant vertices == positive[..i]
    {
      vertices := vertices + [positive[i]];
      i := i + 1;
    }
    assert vertices == positive;
    r := MergeAll(vertices, holes);
  }

  /** The `foreach (var hole in holes)` loop of `BuildVertexList`: splice each hole in, in order. */
  method MergeAll(positive: seq<Vector2Int>, holes: seq<HoleInfo>) returns (r: Result<seq<Vector2Int>>)
    requires AllWellFormed(holes)
    ensures r == MergeHoles(positive, holes)
  {
    var vertices := positive;
    var k := 0;
    while k < |holes|
      invariant 0 <= k <= |holes|
      invariant MergeHoles(vertices, holes[k..]) == MergeHoles(positive, holes)
    {
      assert holes[k..][0] == holes[k] && holes[k..][1..] == holes[k + 1..];
      if |vertices| == 0 {
        return Err(NoOuterVertices);
      }
      var visibleVertex := FindMutuallyVisibleVertex(vertices, holes[k]);
      if visibleVertex.Err? {
        return Err(visibleVertex.error);
      }
      vertices := SpliceVertices(vertices, visibleVertex.value, holes[k]);
      k := k + 1;
    }
    return Ok(vertices);
  }

  /** The number of vertices the holes add, in input order: |hole| + 2 each. */
  function HoleVertexCount(holes: seq<seq<Vector2Int>>): nat
  {
    if |holes| == 0 then 0 else |holes[0]| + 2 + HoleVertexCount(holes[1..])
  }

  /** Records with the holes' sizes, position by position, add what the holes add. */
  lemma {:induction false} AddedVerticesOfHoles(infos: seq<HoleInfo>, holes: seq<seq<Vector2Int>>)
    requires |infos| == |holes|
    requires forall i :: 0 <= i < |holes| ==> |infos[i].hole| == |holes[i]|
    ensures AddedVertices(infos) == HoleVertexCount(holes)
    decreases |holes|
  {
    if |holes| > 0 {
      AddedVerticesOfHoles(infos[1..], holes[1..]);
    }
  }

  /**
    With no holes the outer cycle is returned unchanged. An empty hole, and
    holes without an outer cycle, are errors. A successful result has
    |positive| + the sum of (|hole| + 2) vertices and contains every outer and
    every hole vertex.
  */
  lemma BuildVertexListProperties(positive: seq<Vector2Int>, negatives: seq<seq<Vector2Int>>)
    ensures negatives == [] ==> BuildVertexListOutcome(positive, negatives) == Ok(positive)
    ensures SomeHoleEmpty(negatives) <==> BuildVertexListOutcome(positive, negatives) == Err(EmptyHole)
    ensures !SomeHoleEmpty(negatives) && |negatives| > 0 && |positive| == 0 ==>
      BuildVertexListOutcome(positive, negatives) == Err(NoOuterVertices)
    ensures BuildVertexListOutcome(positive, negatives).Ok? ==>
      var vs := BuildVertexListOutcome(positive, negatives).value;
      |vs| == |positive| + HoleVertexCount(negatives) &&
      multiset(positive) <= multiset(vs) &&
      forall k, j :: 0 <= k < |negatives| && 0 <= j < |negatives[k]| ==> negatives[k][j] in vs
  {
    if !SomeHoleEmpty(negatives) {
      var infos := HoleInfos(negatives);
      SortedWellFormed(infos);
      var sorted := SortHoles(infos);
      MergeErrors(positive, sorted);
      MergeLength(positive, sorted);
      MergeKeepsVertices(positive, sorted);
      AddedVerticesOfHoles(infos, negatives);
      if BuildVertexListOutcome(positive, negatives).Ok? {
        var vs := BuildVertexListOutcome(positive, negatives).value;
        forall k, j | 0 <= k < |negatives| && 0 <= j < |negatives[k]|
          ensures negatives[k][j] in vs
        {
          assert infos[k] in multiset(sorted);
          var a :| 0 <= a < |sorted| && sorted[a] == infos[k];
          assert sorted[a].hole[j] == negatives[k][j];
        }
      }
    }
  }

  /**
    `List.Sort` is not stable, but its comparison orders every two holes of one
    input, so whatever sorted permutation it produces is the one modelled here.
  */
  lemma SortIsDeterministic(holes: seq<seq<Vector2Int>>, other: seq<HoleInfo>)
    requires !SomeHoleEmpty(holes)
    requires Sorted(other) && multiset(other) == multiset(HoleInfos(holes))
    ensures other == SortHoles(HoleInfos(holes))
  {
    var infos := HoleInfos(holes);
    var sorted := SortHoles(infos);
    forall i, j | 0 <= i < |sorted| && 0 <= j < |sorted| && sorted[i].holeIndex == sorted[j].holeIndex
      ensures sorted[i] == sorted[j]
    {
      assert sorted[i] in multiset(infos);
      assert sorted[j] in multiset(infos);
      var a :| 0 <= a < |infos| && infos[a] == sorted[i];
      var b :| 0 <= b < |infos| && infos[b] == sorted[j];
    }
    SortedPermutationUnique(sorted, other);
  }
}
