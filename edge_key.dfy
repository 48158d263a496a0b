/** Direction-agnostic edge keys (Geometry/Utils/EdgeKey.cs). */
module EdgeKeys {
  import opened Vector2Ints

  /** The two endpoints in the order they were given. */
  datatype EdgeKey = EdgeKey(v0: Vector2Int, v1: Vector2Int)

  /** `==`: the same two endpoints, in either direction. */
  function Eq(a: EdgeKey, b: EdgeKey): (r: bool)
    ensures r <==> multiset{a.v0, a.v1} == multiset{b.v0, b.v1}
  {
    SameUnorderedPair(a.v0, a.v1, b.v0, b.v1);
    (a.v0 == b.v0 && a.v1 == b.v1) || (a.v0 == b.v1 && a.v1 == b.v0)
  }

  lemma SameUnorderedPair(x: Vector2Int, y: Vector2Int, z: Vector2Int, w: Vector2Int)
    ensures multiset{x, y} == multiset{z, w} <==> (x == z && y == w) || (x == w && y == z)
  {
    if multiset{x, y} == multiset{z, w} {
      assert x in multiset{z, w};
      if x == z {
        assert multiset{x, y} - multiset{x} == multiset{y};
        assert multiset{z, w} - multiset{z} == multiset{w};
      } else {
        assert x == w;
        assert multiset{x, y} - multiset{x} == multiset{y};
        assert multiset{z, w} - multiset{w} == multiset{z};
      }
    }
  }

  /** `!=` is the negation of `==`: the two keys do not join the same pair of endpoints. */
  function Ne(a: EdgeKey, b: EdgeKey): (r: bool)
    ensures r <==> multiset{a.v0, a.v1} != multiset{b.v0, b.v1}
  {
    !Eq(a, b)
  }

  /** Swapping the endpoints gives an equal key. */
  lemma DirectionIgnored(a: Vector2Int, b: Vector2Int)
    ensures Eq(EdgeKey(a, b), EdgeKey(b, a))
    ensures HashPair(EdgeKey(a, b)) == HashPair(EdgeKey(b, a))
  {
    HashConsistent(EdgeKey(a, b), EdgeKey(b, a));
  }

  /** `==` is an equivalence relation. */
  lemma EqIsEquivalence(a: EdgeKey, b: EdgeKey, c: EdgeKey)
    ensures Eq(a, a)
    ensures Eq(a, b) ==> Eq(b, a)
    ensures Eq(a, b) && Eq(b, c) ==> Eq(a, c)
  {
  }

  /** Lexicographic order on (X, Y), the order the hash uses to pick `min`. */
  predicate LexAtMost(p: Vector2Int, q: Vector2Int)
  {
    p.X < q.X || (p.X == q.X && p.Y <= q.Y)
  }

  /**
    The pair `GetHashCode` combines: the endpoints as (min, max) in lexicographic
    order, the same two points as the key holds.
  */
  function HashPair(k: EdgeKey): (r: (Vector2Int, Vector2Int))
    ensures multiset{r.0, r.1} == multiset{k.v0, k.v1}
    ensures LexAtMost(r.0, r.1)
  {
    var min := if LexAtMost(k.v0, k.v1) then k.v0 else k.v1;
    var max := if Equals(min, k.v0) then k.v1 else k.v0;
    (min, max)
  }

  /** Keys that are `==` hash the same pair, so the hash agrees with equality. */
  lemma HashConsistent(a: EdgeKey, b: EdgeKey)
    requires Eq(a, b)
    ensures HashPair(a) == HashPair(b)
  {
    var ha, hb := HashPair(a), HashPair(b);
    SameUnorderedPair(ha.0, ha.1, hb.0, hb.1);
  }
}
