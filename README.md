# Exact geometry and triangulation of the crowd simulator, in Dafny

This project models the geometry core of a crowd-simulation server and two of
its Python helper scripts, and proves what that code promises. The modelled
code is integer and exact-rational geometry: points, triangles, boxes and
polygons. From it the server builds a triangulated navigation mesh for a floor
plan with holes.

- **Exact arithmetic** (`long_fraction.dfy`). `LongFraction` is a numerator and
  denominator kept in lowest terms with a non-negative denominator. The
  constructor reduces by Euclid's GCD, modelled as a `while` loop proved
  against a recursive definition. A zero denominator is the infinity sentinel.
  Every operator is specified by the rational value it computes, through a
  ghost `Value()`, and by how it treats infinity.
- **Primitives** (`vector2_int.dfy`, `vector2_fraction.dfy`, `triangle.dfy`,
  `triangle_fraction.dfy`, `bounding_box.dfy`). The triangle constructors
  exchange the last two corners to make the winding counter-clockwise.
  Containment counts the boundary as inside. The rational triangle is proved to
  agree with the integer one on grid points.
- **Shapes** (`shapes_triangle.dfy`, `shapes_bounding_box.dfy`,
  `shapes_polygon.dfy`). These are the second iteration of the same types. The
  polygon's even-odd test is a loop over its edges, using C#'s truncating
  `long` division. It is proved to compute the parity of the toggling edges,
  and to give the same answer wherever the ring starts.
- **Edge keys** (`edge_key.dfy`). Equality ignores an edge's direction, and the
  pair that is hashed is consistent with that equality.
- **Hole bridging** (`polygon_builder.dfy`). `BuildVertexList` merges an outer
  polygon and its holes into one vertex cycle.
  - Holes are taken rightmost first.
  - From each hole's rightmost vertex M, a ray is cast in the +X direction
    using integer-only tests.
  - The bridge goes to the hit vertex, to the hit edge's right endpoint P, or
    to the first reflex vertex inside the test triangle (M, I, P).
  - The hole is spliced into the cycle after that vertex.

  The linked list is a sequence, and a node is its index.
- **Ear clipping** (`ear_clipping_triangulator.dfy`). The triangulator is a
  class.
  - Its linked list is an arena of node identities: `vertexOf` gives each
    node's vertex, and `cycle` lists the live nodes.
  - Its three hash sets (convex, reflex, ear) are sets of node identities.
  - Clipping keeps every ear convex and every live node classified.
  - An n-vertex cycle yields n - 2 triangles. Every clipped ear has a positive
    area, and the last triangle covers the shoelace area the ears leave.
- **Mesh table, spatial grid, snapshot** (`nav_mesh.dfy`, `uniform_grid.dfy`,
  `simulation_snapshot.dfy`).
  - Navigation-mesh nodes are arrays written in place, and neighbour links are
    written in both directions.
  - The grid is a dictionary of lists that is only ever appended to.
  - The snapshot is a fixed-capacity buffer with a fill counter.
- **Scripts** (`generate_vertices.dfy`, `vertices_to_floorplan.dfy`).
  - Segment intersection and the polygon-simplicity check from the vertex
    generator.
  - The conversion of a vertex ring into a closed list of line segments.

Exceptions that the source can raise for inputs its callers may pass become
`Outcomes.Result` errors (`outcomes.dfy`):
- a `LongFraction` of 0/0;
- an empty hole;
- holes with no outer polygon;
- an empty ear set while more than three vertices remain.

## Model

| member | source | states |
|---|---|---|
| LongFractions.Abs | server/src/Simulator.Core/Geometry/Primitives/LongFraction.cs:22 | `Math.Abs`: the result is the argument or its negation, and never negative |
| LongFractions.GcdScale | server/src/Simulator.Core/Geometry/Primitives/LongFraction.cs:179-188 | Euclid's algorithm commutes with scaling: gcd(k·a, k·b) = k·gcd(a, b) |
| LongFractions.GcdDivides | server/src/Simulator.Core/Geometry/Primitives/LongFraction.cs:179-188 | unless both arguments are 0, Euclid's result is positive and divides both |
| LongFractions.GcdGreatest | server/src/Simulator.Core/Geometry/Primitives/LongFraction.cs:179-188 | every common divisor of the arguments divides Euclid's result |
| LongFractions.EuclidGcdIsGcd | server/src/Simulator.Core/Geometry/Primitives/LongFraction.cs:178-188 | Euclid's recursion yields the greatest common divisor (0 when both arguments are 0) |
| LongFractions.Gcd | server/src/Simulator.Core/Geometry/Primitives/LongFraction.cs:179-188 | the `while (b != 0)` loop returns Euclid's result, which is the greatest common divisor |
| LongFractions.Normalise | server/src/Simulator.Core/Geometry/Primitives/LongFraction.cs:21-24 | for a numerator and denominator that are not both 0, gcd(|num|, den) is positive, divides both exactly, and the quotients are coprime |
| LongFractions.ReducedIsCoprime | server/src/Simulator.Core/Geometry/Primitives/LongFraction.cs:22-24 | dividing two numbers by their GCD leaves two coprime numbers |
| LongFractions.New | server/src/Simulator.Core/Geometry/Primitives/LongFraction.cs:12-25 | the constructor yields a fraction in lowest terms with a non-negative denominator, infinite exactly when `den` is 0, with the same cross product and (when finite) the same rational value as num/den |
| LongFractions.InfinityIsZeroDenominator | server/src/Simulator.Core/Geometry/Primitives/LongFraction.cs:4-29 | any n/0 is infinity, and `==` to the infinity `1/0` that the operators return |
| LongFractions.LongFraction.IsZero | server/src/Simulator.Core/Geometry/Primitives/LongFraction.cs:31 | true exactly for a finite fraction whose value is 0 |
| LongFractions.LongFraction.IsOne | server/src/Simulator.Core/Geometry/Primitives/LongFraction.cs:32 | true exactly for a finite fraction whose value is 1, whatever the sign of its denominator |
| LongFractions.LongFraction.IsPositive | server/src/Simulator.Core/Geometry/Primitives/LongFraction.cs:34-41 | infinity and zero are not positive; a reduced finite fraction is positive exactly when its value is > 0 |
| LongFractions.LongFraction.IsNegative | server/src/Simulator.Core/Geometry/Primitives/LongFraction.cs:34-48 | infinity and zero are not negative; any other finite fraction is negative exactly when it is not positive; a reduced one exactly when its value is < 0 |
| LongFractions.Add | server/src/Simulator.Core/Geometry/Primitives/LongFraction.cs:50-58 | the sum is reduced, infinite exactly when an operand is, and otherwise has the sum of the operands' values |
| LongFractions.Sub | server/src/Simulator.Core/Geometry/Primitives/LongFraction.cs:60-68 | the difference is reduced, infinite exactly when an operand is, and otherwise has the difference of the operands' values |
| LongFractions.Mul | server/src/Simulator.Core/Geometry/Primitives/LongFraction.cs:70-77 | the product is reduced, infinite exactly when an operand is, and otherwise has the product of the operands' values |
| LongFractions.Less | server/src/Simulator.Core/Geometry/Primitives/LongFraction.cs:79-86 | infinity is less than nothing, every finite value is less than infinity, and finite reduced values compare by their rational values |
| LongFractions.Greater | server/src/Simulator.Core/Geometry/Primitives/LongFraction.cs:88-95 | nothing is greater than infinity, infinity is greater than every finite value, and finite reduced values compare by their rational values |
| LongFractions.Equal | server/src/Simulator.Core/Geometry/Primitives/LongFraction.cs:97-103 | all infinities are equal, infinity never equals a finite value, and finite values are equal exactly when their rational values are |
| LongFractions.AtLeast | server/src/Simulator.Core/Geometry/Primitives/LongFraction.cs:105 | infinity is `>=` everything, a finite value is never `>=` infinity, and for reduced finite operands `>=` compares the values |
| LongFractions.AtMost | server/src/Simulator.Core/Geometry/Primitives/LongFraction.cs:106 | everything is `<=` infinity, infinity is `<=` only infinity, and for reduced finite operands `<=` compares the values |
| LongFractions.NotEqual | server/src/Simulator.Core/Geometry/Primitives/LongFraction.cs:108 | two infinities are never `!=`, a finite value is always `!=` infinity, and two finite fractions are `!=` exactly when their values differ, reduced or not |
| LongFractions.LessValue | server/src/Simulator.Core/Geometry/Primitives/LongFraction.cs:85 | with positive denominators, comparing cross products is comparing the rational values |
| LongFractions.EqualValue | server/src/Simulator.Core/Geometry/Primitives/LongFraction.cs:102 | equal cross products mean equal rational values, and conversely |
| LongFractions.InfinityOrder | server/src/Simulator.Core/Geometry/Primitives/LongFraction.cs:4-103 | any two infinities are `==` and neither is `<` or `>` the other; infinity is `>` every finite value and never `<` or `==` one |
| LongFractions.Trichotomy | server/src/Simulator.Core/Geometry/Primitives/LongFraction.cs:79-103 | for finite reduced fractions exactly one of `<`, `==`, `>` holds |
| LongFractions.LessTransitive | server/src/Simulator.Core/Geometry/Primitives/LongFraction.cs:79-86 | `<` is transitive over reduced fractions, infinity included |
| LongFractions.EqualIffIdentical | server/src/Simulator.Core/Geometry/Primitives/LongFraction.cs:12-103 | after the constructor's normalisation, two finite fractions are `==` exactly when they store the same numerator and denominator |
| LongFractions.DenominatorDivides | server/src/Simulator.Core/Geometry/Primitives/LongFraction.cs:22-102 | if a reduced fraction has the same value as another fraction, its denominator divides the other's |
| Vector2Ints.Add | server/src/Simulator.Core/Geometry/Primitives/Vector2Int.cs:9 | the sum minus `b` is `a` again, coordinate by coordinate |
| Vector2Ints.Sub | server/src/Simulator.Core/Geometry/Primitives/Vector2Int.cs:10 | subtraction undoes addition: `Add(Sub(a, b), b) == a` |
| Vector2Ints.Equals | server/src/Simulator.Core/Geometry/Primitives/Vector2Int.cs:12-15 | `==` holds exactly when the two points are the same point |
| Vector2Ints.NotEquals | server/src/Simulator.Core/Geometry/Primitives/Vector2Int.cs:13 | `!=` holds exactly when the points differ |
| Vector2Ints.ToVector2Fraction | server/src/Simulator.Core/Geometry/Primitives/Vector2Int.cs:23-28 | the point becomes (X/1, Y/1): reduced, finite, and each coordinate's rational value is the integer coordinate |
| Vector2Ints.ToVector2FractionInjective | server/src/Simulator.Core/Geometry/Primitives/Vector2Int.cs:23-28 | two integer points are `==` exactly when their fraction forms are `==` |
| Vector2Ints.WholeNumber | server/src/Simulator.Core/Geometry/Primitives/Vector2Int.cs:25-26 | `new LongFraction(n, 1)` keeps the stored form n/1 |
| Vector2Fractions.Add | server/src/Simulator.Core/Geometry/Primitives/Vector2Fraction.cs:9 | the result is reduced, and for finite points each coordinate's value is the sum of the operands' values |
| Vector2Fractions.Sub | server/src/Simulator.Core/Geometry/Primitives/Vector2Fraction.cs:10 | the result is reduced, and for finite points each coordinate's value is the difference of the operands' values |
| Vector2Fractions.Equals | server/src/Simulator.Core/Geometry/Primitives/Vector2Fraction.cs:12-15 | for finite points, `==` is equality of the rational coordinates whatever their stored form; an infinite coordinate matches any infinite one |
| Vector2Fractions.NotEquals | server/src/Simulator.Core/Geometry/Primitives/Vector2Fraction.cs:13 | finite points are `!=` exactly when a coordinate's value differs; when both X (or both Y) are infinite, exactly when the other coordinates are `!=` |
| Vector2Fractions.EqualsIsEquivalence | server/src/Simulator.Core/Geometry/Primitives/Vector2Fraction.cs:15 | `==` on fraction points is reflexive, symmetric and transitive |
| Vector2Fractions.UnreducedFormsAreEqual | server/src/Simulator.Core/Geometry/Primitives/Vector2Fraction.cs:15 | (2/4, 3/1) and (1/2, 6/2) are `==` although they are stored differently |
| Triangles.SignSymmetries | server/src/Simulator.Core/Geometry/Primitives/Triangle.cs:36-39 | exchanging two corners negates `Sign`; rotating the corners keeps it |
| Triangles.Sign | server/src/Simulator.Core/Geometry/Primitives/Triangle.cs:36-39 | zero whenever two corners coincide |
| Triangles.SignFromFirstCorner | server/src/Simulator.Core/Geometry/Primitives/Triangle.cs:36-39 | `Sign`, written from the third corner, equals the cross product (v1 - v0) x (v2 - v0) of the edges leaving the first corner |
| Triangles.EdgeSignsSum | server/src/Simulator.Core/Geometry/Primitives/Triangle.cs:24-39 | the three edge signs of any point add up to the sign of the triangle |
| Triangles.NewTriangle | server/src/Simulator.Core/Geometry/Primitives/Triangle.cs:10-19 | `a` stays first, `b` and `c` are kept or exchanged, the stored winding is counter-clockwise or degenerate (`Sign >= 0`) with the same magnitude, nothing moves when the input already has `Sign >= 0`, and `b`, `c` are exchanged when it is negative |
| Triangles.ContainsPoint | server/src/Simulator.Core/Geometry/Primitives/Triangle.cs:21-32 | true exactly when the three edge signs are all >= 0 or all <= 0, so the boundary counts as inside |
| Triangles.CornersContained | server/src/Simulator.Core/Geometry/Primitives/Triangle.cs:21-32 | every corner is contained |
| Triangles.CounterClockwiseContainment | server/src/Simulator.Core/Geometry/Primitives/Triangle.cs:10-32 | for a strictly counter-clockwise triangle, containment is "left of or on every directed edge" |
| Triangles.IsValid | server/src/Simulator.Core/Geometry/Primitives/Triangle.cs:34 | valid exactly when the two edges leaving A are not parallel (their cross product is non-zero), i.e. the corners are not collinear; a triangle with two coinciding corners is never valid |
| Triangles.ValidAfterConstruction | server/src/Simulator.Core/Geometry/Primitives/Triangle.cs:11-34 | a constructed triangle is valid exactly when its input corners were not collinear, it is then strictly counter-clockwise, and two equal corners make it invalid |
| Triangles.GetCentroid | server/src/Simulator.Core/Geometry/Primitives/Triangle.cs:41-46 | the centroid is reduced and finite, and each coordinate's value is the corners' sum divided by 3 |
| Triangles.CentroidOfConstructed | server/src/Simulator.Core/Geometry/Primitives/Triangle.cs:11-46 | the centroid does not depend on the winding swap or on which corner comes first |
| Triangles.GridCentroid | server/src/Simulator.Core/Geometry/Primitives/Triangle.cs:41-46 | when the coordinate sums are multiples of 3, the centroid is the grid point with the averaged coordinates, stored as n/1 |
| Triangles.GetBoundingBox | server/src/Simulator.Core/Geometry/Primitives/Triangle.cs:48-51 | a new box whose bounds are those of the three corners |
| Triangles.BoundingBoxEnclosesCorners | server/src/Simulator.Core/Geometry/Primitives/Triangle.cs:48-51 | the triangle's box encloses each of its corners |
| TriangleFractions.Sign | server/src/Simulator.Core/Geometry/Primitives/TriangleFraction.cs:35-38 | the fraction sign is reduced, infinite exactly when a point has an infinite coordinate, and otherwise exactly the real signed double area |
| TriangleFractions.DeterminantOfDifferences | server/src/Simulator.Core/Geometry/Primitives/TriangleFraction.cs:37 | the fraction expression over the four coordinate differences is finite and equals the real signed double area |
| TriangleFractions.Determinant | server/src/Simulator.Core/Geometry/Primitives/TriangleFraction.cs:37 | `a*b - c*d` in fraction arithmetic is reduced, infinite exactly when an operand is, and otherwise has the real value a·b − c·d |
| TriangleFractions.RealSignSymmetries | server/src/Simulator.Core/Geometry/Primitives/TriangleFraction.cs:13-38 | exchanging the last two points negates the real signed area |
| TriangleFractions.NewTriangleFraction | server/src/Simulator.Core/Geometry/Primitives/TriangleFraction.cs:10-19 | `a` stays first, `b` and `c` are kept or exchanged, the stored sign is never negative, and nothing moves when the given sign is not negative |
| TriangleFractions.ContainsPoint | server/src/Simulator.Core/Geometry/Primitives/TriangleFraction.cs:21-33 | for finite corners and point, true exactly when the three real edge signs are all >= 0 or all <= 0; a point with an infinite coordinate is reported inside |
| TriangleFractions.CornersContained | server/src/Simulator.Core/Geometry/Primitives/TriangleFraction.cs:21-33 | every finite corner is contained |
| TriangleFractions.IntegerSignAgrees | server/src/Simulator.Core/Geometry/Primitives/TriangleFraction.cs:35-38 | on grid points the fraction sign is the integer sign, stored as n/1 |
| TriangleFractions.ContainmentAgrees | server/src/Simulator.Core/Geometry/Primitives/TriangleFraction.cs:10-33 | on grid points, the rational triangle stores the same corners as the integer triangle and decides containment the same way |
| TriangleFractions.SwapAgrees | server/src/Simulator.Core/Geometry/Primitives/TriangleFraction.cs:10-19 | the rational constructor swaps `b` and `c` exactly when the integer constructor does |
| TriangleFractions.ContainsAgrees | server/src/Simulator.Core/Geometry/Primitives/TriangleFraction.cs:21-33 | the rational containment test of a grid point in a grid triangle gives the integer test's answer |
| ShapesTriangles.NewTriangle | server/src/Simulator.Core/Geometry/Shapes/Triangle.cs:14-23 | `a` stays first, `b` and `c` are kept or exchanged, the stored winding is counter-clockwise or degenerate with the same magnitude of sign, the corners are kept when `Sign(a, b, c) >= 0` and `b`, `c` exchanged when it is negative |
| ShapesTriangles.Sign | server/src/Simulator.Core/Geometry/Shapes/Triangle.cs:53-56 | the cross product (v1 - v0) x (v2 - v0) of the edges leaving the first corner, zero whenever two corners coincide |
| ShapesTriangles.ContainsPoint | server/src/Simulator.Core/Geometry/Shapes/Triangle.cs:25-36 | true exactly when the three edge signs are all >= 0 or all <= 0 |
| ShapesTriangles.ContainsPointAsPrimitive | server/src/Simulator.Core/Geometry/Shapes/Triangle.cs:25-36 | the test agrees with the first triangle type's test on the same corners |
| ShapesTriangles.CornersContained | server/src/Simulator.Core/Geometry/Shapes/Triangle.cs:25-36 | every corner is contained |
| ShapesTriangles.IsValid | server/src/Simulator.Core/Geometry/Shapes/Triangle.cs:51 | valid exactly when the two edges leaving A are not parallel; coinciding corners are never valid; agrees with the first triangle type's `IsValid` on the same corners |
| ShapesTriangles.GetCentroid | server/src/Simulator.Core/Geometry/Shapes/Triangle.cs:63-68 | the centroid is reduced and finite with coordinate sums over 3, the same as the first triangle type's |
| ShapesTriangles.GetBoundingBox | server/src/Simulator.Core/Geometry/Shapes/Triangle.cs:70-73 | a new box whose bounds are those of the three corners |
| ShapesTriangles.GetDoubleArea | server/src/Simulator.Core/Geometry/Shapes/Triangle.cs:75-78 | the shoelace double area is the absolute value of `Sign`, never negative, and zero exactly for an invalid triangle |
| ShapesTriangles.ShoelaceIsSign | server/src/Simulator.Core/Geometry/Shapes/Triangle.cs:53-78 | the shoelace sum equals the determinant `Sign` |
| ShapesTriangles.DoubleAreaOrderFree | server/src/Simulator.Core/Geometry/Shapes/Triangle.cs:14-78 | the double area does not depend on the order of the corners, and for a constructed triangle it equals the stored sign |
| BoundingBoxes.Widen | server/src/Simulator.Core/Geometry/Primitives/BoundingBox.cs:20-26 | one update only widens the bounds, each bound either stays or moves to the vertex's coordinate, the vertex ends up inside, and every point inside before stays inside |
| BoundingBoxes.EmptyKeepsSentinels | server/src/Simulator.Core/Geometry/Primitives/BoundingBox.cs:7-10 | with no vertices the bounds keep their initial values: minima `int.MaxValue`, maxima `int.MinValue` |
| BoundingBoxes.BoundsEncloseAll | server/src/Simulator.Core/Geometry/Primitives/BoundingBox.cs:12-18 | every input vertex lies inside the computed bounds |
| BoundingBoxes.BoundsAttained | server/src/Simulator.Core/Geometry/Primitives/BoundingBox.cs:12-26 | for a non-empty input, each bound is a coordinate of some input vertex |
| BoundingBoxes.BoundsAreTightest | server/src/Simulator.Core/Geometry/Primitives/BoundingBox.cs:12-26 | any box that encloses every vertex of a non-empty input contains the computed bounds |
| BoundingBoxes.BoundingBox.constructor | server/src/Simulator.Core/Geometry/Primitives/BoundingBox.cs:7-18 | after visiting the vertices in order, the four fields are the bounds of the whole input |
| BoundingBoxes.BoundingBox.UpdateBounds | server/src/Simulator.Core/Geometry/Primitives/BoundingBox.cs:20-26 | the new fields are the old bounds widened by the vertex |
| ShapesBoundingBoxes.BoundingBox.constructor | server/src/Simulator.Core/Geometry/Shapes/BoundingBox.cs:7-18 | after visiting the vertices in order, the four fields are the bounds of the whole input |
| ShapesBoundingBoxes.BoundingBox.UpdateBounds | server/src/Simulator.Core/Geometry/Shapes/BoundingBox.cs:20-26 | the new fields are the old bounds widened by the vertex |
| ShapesBoundingBoxes.BoundsOrderIndependent | server/src/Simulator.Core/Geometry/Shapes/BoundingBox.cs:12-26 | two inputs with the same set of vertices give the same box, whatever their order and repeats |
| ShapesPolygons.TruncDiv | server/src/Simulator.Core/Geometry/Shapes/Polygon.cs:36 | C#'s `long` division: the quotient's magnitude is the floor of \|a\|/\|b\|, and a non-zero quotient is negative exactly when the operands' signs differ (truncation toward zero) |
| ShapesPolygons.TruncDivExamples | server/src/Simulator.Core/Geometry/Shapes/Polygon.cs:36 | −7 / 2 truncates to −3, where Euclidean division gives −4 |
| ShapesPolygons.TruncRemainder | server/src/Simulator.Core/Geometry/Shapes/Polygon.cs:36 | what truncating division leaves over is smaller than the divisor and never of the opposite sign to the dividend |
| ShapesPolygons.IntersectX | server/src/Simulator.Core/Geometry/Shapes/Polygon.cs:33-36 | the truncated intersection X lies less than one unit, horizontally, from the edge's line: the triangle (next, current, (x, p.Y)) has a signed double area smaller than \|deltaY\| |
| ShapesPolygons.CrossingEdgeNotHorizontal | server/src/Simulator.Core/Geometry/Shapes/Polygon.cs:28-36 | an edge that passes the `crossesY` test is not horizontal, so the division by `deltaY` is defined |
| ShapesPolygons.Edges | server/src/Simulator.Core/Geometry/Shapes/Polygon.cs:22-25 | the closed ring of edges: edge i runs from vertex i to vertex (i + 1) mod n |
| ShapesPolygons.CountTogglesAppend | server/src/Simulator.Core/Geometry/Shapes/Polygon.cs:22-43 | the number of toggling edges is additive over concatenation |
| ShapesPolygons.CountTogglesStep | server/src/Simulator.Core/Geometry/Shapes/Polygon.cs:22-43 | counting one more edge adds exactly that edge's toggle |
| ShapesPolygons.ParityAfterEdge | server/src/Simulator.Core/Geometry/Shapes/Polygon.cs:24-42 | one turn of the loop: the parity over edges 0..i differs from the parity over edges 0..i-1 exactly when the inline test (straddles the line, truncated intersection X right of the point) holds for edge i |
| ShapesPolygons.EdgeStep | server/src/Simulator.Core/Geometry/Shapes/Polygon.cs:24-42 | the count over edges 0..i is the count over edges 0..i-1 plus the toggle of the edge from vertex i to vertex (i + 1) mod n |
| ShapesPolygons.InsideRotationInvariant | server/src/Simulator.Core/Geometry/Shapes/Polygon.cs:19-46 | the even-odd result does not depend on which vertex the ring starts at |
| ShapesPolygons.CountTogglesRotated | server/src/Simulator.Core/Geometry/Shapes/Polygon.cs:22-43 | rotating the edge sequence does not change how many edges toggle |
| ShapesPolygons.EmptyContainsNothing | server/src/Simulator.Core/Geometry/Shapes/Polygon.cs:21-45 | a polygon with no vertices contains no point |
| ShapesPolygons.Polygon.Empty | server/src/Simulator.Core/Geometry/Shapes/Polygon.cs:9-12 | the new polygon has no vertices |
| ShapesPolygons.Polygon.constructor | server/src/Simulator.Core/Geometry/Shapes/Polygon.cs:14-17 | the new polygon holds exactly the given vertices |
| ShapesPolygons.Polygon.ContainsPoint | server/src/Simulator.Core/Geometry/Shapes/Polygon.cs:19-46 | the loop returns the even-odd rule: true exactly when an odd number of edges straddle the point's horizontal line (lower end excluded) and meet it, at the truncated intersection X, to the right of the point |
| ShapesPolygons.Polygon.ToListInt | server/src/Simulator.Core/Geometry/Shapes/Polygon.cs:48-57 | one `[X, Y]` pair per vertex, in vertex order |
| ShapesPolygons.EdgesRotated | server/src/Simulator.Core/Geometry/Shapes/Polygon.cs:22-25 | starting the ring at vertex k gives the same edges, rotated by k |
| ShapesPolygons.RotatedEdge | server/src/Simulator.Core/Geometry/Shapes/Polygon.cs:22-25 | edge i of the ring started at vertex k is edge (k + i) mod n of the original ring |
| EdgeKeys.Eq | server/src/Simulator.Core/Geometry/Utils/EdgeKey.cs:11-14 | two keys are `==` exactly when they hold the same unordered pair of endpoints |
| EdgeKeys.Ne | server/src/Simulator.Core/Geometry/Utils/EdgeKey.cs:15 | true exactly when the two keys do not join the same unordered pair of endpoints |
| EdgeKeys.DirectionIgnored | server/src/Simulator.Core/Geometry/Utils/EdgeKey.cs:5-26 | the key of (a, b) equals the key of (b, a), and both hash the same pair |
| EdgeKeys.EqIsEquivalence | server/src/Simulator.Core/Geometry/Utils/EdgeKey.cs:11-17 | `==` on keys is reflexive, symmetric and transitive |
| EdgeKeys.HashPair | server/src/Simulator.Core/Geometry/Utils/EdgeKey.cs:20-26 | the hashed pair holds the key's two endpoints, lexicographically smaller first |
| EdgeKeys.HashConsistent | server/src/Simulator.Core/Geometry/Utils/EdgeKey.cs:17-26 | keys that are `==` hash the same pair, so hashing agrees with equality |
| PolygonBuilders.FirstMaxXIndex | server/src/Simulator.Core/Geometry/Utils/PolygonBuilder.cs:68-84 | the index the max-X scan settles on: it holds the largest X of the prefix and every earlier vertex is strictly left of it |
| PolygonBuilders.FirstMaxUnique | server/src/Simulator.Core/Geometry/Utils/PolygonBuilder.cs:73-81 | only one index can be the first occurrence of the largest X, so the strict `x > maxX` test fixes it |
| PolygonBuilders.GetMaxX | server/src/Simulator.Core/Geometry/Utils/PolygonBuilder.cs:68-84 | returns the largest X of a non-empty list and the first index holding it; a later vertex with an equal X does not replace it |
| PolygonBuilders.HoleInfoOf | server/src/Simulator.Core/Geometry/Utils/PolygonBuilder.cs:51-61 | the record made for hole i keeps the hole, its input index i, its largest X and the first index of that X |
| PolygonBuilders.HoleInfos | server/src/Simulator.Core/Geometry/Utils/PolygonBuilder.cs:47-65 | one well-formed record per hole, in input order |
| PolygonBuilders.BuildHoleInfo | server/src/Simulator.Core/Geometry/Utils/PolygonBuilder.cs:47-65 | fails (reading the first vertex of an empty hole) exactly when some hole is empty; otherwise returns the records of all holes in input order |
| PolygonBuilders.Insert | server/src/Simulator.Core/Geometry/Utils/PolygonBuilder.cs:25-30 | inserting one record keeps a sorted list sorted, adds exactly that record to the multiset, and adds its \|hole\| + 2 vertices to the count |
| PolygonBuilders.PrependSorted | server/src/Simulator.Core/Geometry/Utils/PolygonBuilder.cs:25-30 | a record in order with the head of a sorted list can go in front |
| PolygonBuilders.InsertSortedStep | server/src/Simulator.Core/Geometry/Utils/PolygonBuilder.cs:25-30 | when the new record goes after the head, the head stays in front of the sorted rest |
| PolygonBuilders.SortHoles | server/src/Simulator.Core/Geometry/Utils/PolygonBuilder.cs:25-30 | the holes in processing order: a sorted permutation of the records (larger max X first, then smaller input index) adding the same number of vertices |
| PolygonBuilders.SortedPermutationUnique | server/src/Simulator.Core/Geometry/Utils/PolygonBuilder.cs:23-30 | since the comparison never ties two different holes, two sorted permutations of the same records are equal |
| PolygonBuilders.SortedHeadsEqual | server/src/Simulator.Core/Geometry/Utils/PolygonBuilder.cs:23-30 | two sorted permutations keyed by input index start with the same record |
| PolygonBuilders.SameTail | server/src/Simulator.Core/Geometry/Utils/PolygonBuilder.cs:23-30 | equal heads and equal multisets leave equal tail multisets |
| PolygonBuilders.TailKeeps | server/src/Simulator.Core/Geometry/Utils/PolygonBuilder.cs:23-30 | dropping the head keeps a list sorted and keyed by input index |
| PolygonBuilders.SortIsDeterministic | server/src/Simulator.Core/Geometry/Utils/PolygonBuilder.cs:23-30 | whatever sorted permutation `List.Sort` produces with this comparison is the one modelled |
| PolygonBuilders.KeptEdge | server/src/Simulator.Core/Geometry/Utils/PolygonBuilder.cs:136-153 | the ray cast keeps exactly the upward edges spanning M's height (A.Y <= M.Y < B.Y) with M strictly on their left: a valid downward edge always fails the discard test |
| PolygonBuilders.KeptParam | server/src/Simulator.Core/Geometry/Utils/PolygonBuilder.cs:165 | on a kept edge t lies in [0, 1), is never 1, and is 0 exactly when the ray passes through A |
| PolygonBuilders.KeptCrossing | server/src/Simulator.Core/Geometry/Utils/PolygonBuilder.cs:142-159 | on a kept edge the crossing X is strictly right of M and equals A.X + t * (B.X - A.X) |
| PolygonBuilders.CrossExpand | server/src/Simulator.Core/Geometry/Utils/PolygonBuilder.cs:180 | the cross product of the edge with A->M in terms of the edge's offsets |
| PolygonBuilders.Cross | server/src/Simulator.Core/Geometry/Utils/PolygonBuilder.cs:186-189 | twice the signed area of the triangle (origin, a, b), zero for equal vectors |
| PolygonBuilders.IsValidEdge | server/src/Simulator.Core/Geometry/Utils/PolygonBuilder.cs:175-183 | true exactly when M.Y lies in the half-open span [min, max) of the edge's Y values and the cross product of A->B with A->M is positive (M strictly left of A->B); a horizontal edge has an empty span |
| PolygonBuilders.ParamFacts | server/src/Simulator.Core/Geometry/Utils/PolygonBuilder.cs:165 | t = n/d with 0 <= n < d is finite, in [0, 1), never one, and zero exactly when n is |
| PolygonBuilders.CrossingFacts | server/src/Simulator.Core/Geometry/Utils/PolygonBuilder.cs:157-159 | the candidate (ax*dy + n*ex)/dy is right of M when the cross product is positive, and equals ax + t*ex |
| PolygonBuilders.FractionBelowOne | server/src/Simulator.Core/Geometry/Utils/PolygonBuilder.cs:165 | n/d lies in [0, 1) when 0 <= n < d |
| PolygonBuilders.CrossingRight | server/src/Simulator.Core/Geometry/Utils/PolygonBuilder.cs:145-159 | the candidate crossing lies right of M when the edge has M on its left |
| PolygonBuilders.CrossingAtT | server/src/Simulator.Core/Geometry/Utils/PolygonBuilder.cs:157-165 | the candidate crossing equals the point at parameter t along the edge |
| PolygonBuilders.EdgeEnd | server/src/Simulator.Core/Geometry/Utils/PolygonBuilder.cs:134 | the node after k in the cycle (`Next ?? First`) is a node of the cycle |
| PolygonBuilders.ScanEdges | server/src/Simulator.Core/Geometry/Utils/PolygonBuilder.cs:126-170 | the state of the ray cast after k edges names an edge start inside the cycle |
| PolygonBuilders.NearestHit | server/src/Simulator.Core/Geometry/Utils/PolygonBuilder.cs:123-173 | the ray cast finds nothing (infinite X and t, first node) exactly when no edge is kept; otherwise a kept edge whose crossing is nearest of all kept edges, the first on a tie, with its own t |
| PolygonBuilders.FindNearestIntersection | server/src/Simulator.Core/Geometry/Utils/PolygonBuilder.cs:123-173 | the loop over the cycle's edges computes the nearest-hit scan over all edges |
| PolygonBuilders.PrevIndex | server/src/Simulator.Core/Geometry/Utils/PolygonBuilder.cs:198 | the node before k (`Previous ?? Last`) is a node of the cycle |
| PolygonBuilders.IndicesWhere | server/src/Simulator.Core/Geometry/Utils/PolygonBuilder.cs:191-215 | the flagged indices below k, each exactly once, in increasing order |
| PolygonBuilders.ObstructingStep | server/src/Simulator.Core/Geometry/Utils/PolygonBuilder.cs:208-209 | one more vertex is appended exactly when it is flagged |
| PolygonBuilders.ObstructionFlags | server/src/Simulator.Core/Geometry/Utils/PolygonBuilder.cs:198-208 | flag i is set exactly when vertex i is reflex (not convex) and inside the test region |
| PolygonBuilders.Obstructing | server/src/Simulator.Core/Geometry/Utils/PolygonBuilder.cs:191-215 | the obstructing vertices: exactly the reflex vertices inside the test region, each once, in cycle order |
| PolygonBuilders.GetObstructingVertices | server/src/Simulator.Core/Geometry/Utils/PolygonBuilder.cs:191-215 | the loop collects exactly the obstructing vertices in cycle order |
| PolygonBuilders.TestVertex | server/src/Simulator.Core/Geometry/Utils/PolygonBuilder.cs:198-209 | the body of the scan decides one vertex's obstruction flag |
| PolygonBuilders.AngleDenominatorZero | server/src/Simulator.Core/Geometry/Utils/PolygonBuilder.cs:228-231 | the score denominator (v.X - M.X)^2 + v.Y^2 is never negative and is zero exactly at (M.X, 0) |
| PolygonBuilders.Square | server/src/Simulator.Core/Geometry/Utils/PolygonBuilder.cs:228-229 | a square is non-negative and zero exactly at zero |
| PolygonBuilders.FindMinimumAngleVertex | server/src/Simulator.Core/Geometry/Utils/PolygonBuilder.cs:222-240 | the loop returns the first vertex unless some score is 0/0, in which case the fraction's construction throws |
| PolygonBuilders.ScoreNotBelowZero | server/src/Simulator.Core/Geometry/Utils/PolygonBuilder.cs:231-232 | no score n/d with n >= 0 and d > 0 is below the initial 0/1, so the minimum never moves |
| PolygonBuilders.RightEndpoint | server/src/Simulator.Core/Geometry/Utils/PolygonBuilder.cs:108 | P is an endpoint of the hit edge with the largest X of the two (the end vertex on a tie) |
| PolygonBuilders.UnobstructedOrNearest | server/src/Simulator.Core/Geometry/Utils/PolygonBuilder.cs:105-117 | the test-region step of the bridge search: when it succeeds it names a vertex of the cycle (the hit edge's right endpoint, or an obstructing vertex) |
| PolygonBuilders.VisibleVertex | server/src/Simulator.Core/Geometry/Utils/PolygonBuilder.cs:86-118 | a successful bridge search names a vertex of the cycle |
| PolygonBuilders.HitVertexIsEdgeStart | server/src/Simulator.Core/Geometry/Utils/PolygonBuilder.cs:96-103 | t is 0 or 1 exactly when the ray hits an edge whose start is at M's height, so the `edgeEnd` test never decides |
| PolygonBuilders.FirstIndexWhere | server/src/Simulator.Core/Geometry/Utils/PolygonBuilder.cs:191-215 | the selected indices are empty exactly when no flag is set, and start at the first set flag |
| PolygonBuilders.MinimumAngleCases | server/src/Simulator.Core/Geometry/Utils/PolygonBuilder.cs:222-240 | the angle search fails exactly when a listed vertex lies at (M.X, 0) and otherwise returns the first listed vertex |
| PolygonBuilders.FirstObstructing | server/src/Simulator.Core/Geometry/Utils/PolygonBuilder.cs:113-117 | no obstructing vertex exactly when none obstructs; otherwise the first obstructing vertex in cycle order is returned, or the division by zero exactly when one lies at (M.X, 0) |
| PolygonBuilders.FirstFlagged | server/src/Simulator.Core/Geometry/Utils/PolygonBuilder.cs:222-240 | the same facts for any flags over the cycle |
| PolygonBuilders.BridgeTarget | server/src/Simulator.Core/Geometry/Utils/PolygonBuilder.cs:86-118 | the bridge goes to the hit edge's start when the ray passes through it; otherwise to P when nothing obstructs, else to the first obstructing vertex; the division by zero arises exactly when an obstructing vertex lies at (M.X, 0) |
| PolygonBuilders.FindMutuallyVisibleVertex | server/src/Simulator.Core/Geometry/Utils/PolygonBuilder.cs:86-118 | the bridge search computes the outcome described by `VisibleVertex` |
| PolygonBuilders.AddAfter | server/src/Simulator.Core/Geometry/Utils/PolygonBuilder.cs:252-255 | `LinkedList.AddAfter`: the new vertex sits right after position k and nothing else moves |
| PolygonBuilders.HoleWalk | server/src/Simulator.Core/Geometry/Utils/PolygonBuilder.cs:249-253 | the hole walked once round from M back to M: \|hole\| + 1 vertices, step i being vertex (maxXIndex + i) mod n |
| PolygonBuilders.WalkCoversHole | server/src/Simulator.Core/Geometry/Utils/PolygonBuilder.cs:248-253 | the walk starts and ends at M and passes through every vertex of the hole |
| PolygonBuilders.WalkReaches | server/src/Simulator.Core/Geometry/Utils/PolygonBuilder.cs:251 | vertex j of the hole is reached by the walk |
| PolygonBuilders.Spliced | server/src/Simulator.Core/Geometry/Utils/PolygonBuilder.cs:242-258 | splicing adds \|hole\| + 2 vertices |
| PolygonBuilders.SplicedShape | server/src/Simulator.Core/Geometry/Utils/PolygonBuilder.cs:242-258 | the cycle after splicing: unchanged up to v, then the walk M .. M, then v again, then the rest unchanged; nothing is lost |
| PolygonBuilders.SpliceVertices | server/src/Simulator.Core/Geometry/Utils/PolygonBuilder.cs:242-258 | the insertions after a moving cursor, then the visible vertex once more, produce the spliced cycle |
| PolygonBuilders.TailWellFormed | server/src/Simulator.Core/Geometry/Utils/PolygonBuilder.cs:37-42 | dropping the first record keeps every record well formed |
| PolygonBuilders.MergeErrors | server/src/Simulator.Core/Geometry/Utils/PolygonBuilder.cs:37-42 | the merge fails for want of an outer cycle exactly when there is none and there are holes; the only other failure is the angle search's division by zero |
| PolygonBuilders.MergeLength | server/src/Simulator.Core/Geometry/Utils/PolygonBuilder.cs:37-42 | a successful merge has \|vertices\| plus \|hole\| + 2 for each hole |
| PolygonBuilders.MergeKeepsVertices | server/src/Simulator.Core/Geometry/Utils/PolygonBuilder.cs:37-42 | a successful merge keeps every outer vertex and contains every vertex of every hole |
| PolygonBuilders.SortedWellFormed | server/src/Simulator.Core/Geometry/Utils/PolygonBuilder.cs:25-30 | sorting keeps every record well formed |
| PolygonBuilders.BuildVertexList | server/src/Simulator.Core/Geometry/Utils/PolygonBuilder.cs:17-45 | record and sort the holes, copy the outer vertices, and splice each hole in: the outcome `BuildVertexListOutcome` |
| PolygonBuilders.MergeAll | server/src/Simulator.Core/Geometry/Utils/PolygonBuilder.cs:37-42 | the loop over the sorted holes computes the merge |
| PolygonBuilders.AddedVerticesOfHoles | server/src/Simulator.Core/Geometry/Utils/PolygonBuilder.cs:37-42 | records with the holes' sizes add what the holes add |
| PolygonBuilders.BuildVertexListProperties | server/src/Simulator.Core/Geometry/Utils/PolygonBuilder.cs:17-45 | with no holes the outer cycle comes back unchanged; an empty hole is an error exactly when present, holes without an outer cycle are an error; a success has \|positive\| + sum(\|hole\| + 2) vertices and contains every outer and every hole vertex |
| EarClipping.IndexOf | server/src/Simulator.Core/Geometry/Triangulators/EarClippingTriangulator.cs:11 | the position of a live node in the list holds that node |
| EarClipping.IndexFrom | server/src/Simulator.Core/Geometry/Triangulators/EarClippingTriangulator.cs:11 | the first position at or after k holding the node |
| EarClipping.IndexOfAt | server/src/Simulator.Core/Geometry/Triangulators/EarClippingTriangulator.cs:11 | in a list without repeats the node at position k is found at k |
| EarClipping.PrevNode | server/src/Simulator.Core/Geometry/Triangulators/EarClippingTriangulator.cs:139 | `node.Previous ?? _vertices.Last` is a live node |
| EarClipping.NextNode | server/src/Simulator.Core/Geometry/Triangulators/EarClippingTriangulator.cs:140 | `node.Next ?? _vertices.First` is a live node |
| EarClipping.NeighboursDistinct | server/src/Simulator.Core/Geometry/Triangulators/EarClippingTriangulator.cs:136-144 | in a list of three or more distinct nodes a node's neighbours are two other, different nodes, and each points back at it |
| EarClipping.Removed | server/src/Simulator.Core/Geometry/Triangulators/EarClippingTriangulator.cs:115 | `LinkedList.Remove`: one element fewer, those before the position unchanged, those after shifted down by one |
| EarClipping.RemovedDistinct | server/src/Simulator.Core/Geometry/Triangulators/EarClippingTriangulator.cs:115 | unlinking keeps the list free of repeats and removes exactly the unlinked node |
| EarClipping.NeighboursAt | server/src/Simulator.Core/Geometry/Triangulators/EarClippingTriangulator.cs:136-144 | the neighbours of the node at position k, with wrap-around at both ends |
| EarClipping.RemovedLinks | server/src/Simulator.Core/Geometry/Triangulators/EarClippingTriangulator.cs:136-144 | after unlinking a node its former previous node is followed by its former next node |
| EarClipping.RemovedKeepsNeighbours | server/src/Simulator.Core/Geometry/Triangulators/EarClippingTriangulator.cs:115-130 | unlinking leaves the neighbours of every node other than the two adjacent ones as they were, so only those two need reclassifying |
| EarClipping.PlacedOther | server/src/Simulator.Core/Geometry/Triangulators/EarClippingTriangulator.cs:57-71 | classifying one node leaves the placement of every other node unchanged |
| EarClipping.EarInIgnoresNext | server/src/Simulator.Core/Geometry/Triangulators/EarClippingTriangulator.cs:122-130 | the ear test of the previous neighbour does not depend on whether its own next node is reflex, so reclassifying the next neighbour afterwards does not invalidate it |
| PolygonBuilders.IsConvex | server/src/Simulator.Core/Geometry/Utils/PolygonBuilder.cs:217-220 | holds exactly when the three corners turn counter-clockwise (positive `Sign`), which is what the ear clipper also uses to sort vertices into convex and reflex |
| EarClipping.ChainAppend | server/src/Simulator.Core/Geometry/Triangulators/EarClippingTriangulator.cs:113 | the open-chain cross-product sum grows by one cross product per appended point |
| EarClipping.CrossSign | server/src/Simulator.Core/Geometry/Triangulators/EarClippingTriangulator.cs:113 | the cross products round p, e, n less the chord p, n equal the triangle's doubled signed area |
| EarClipping.ChainRemove | server/src/Simulator.Core/Geometry/Triangulators/EarClippingTriangulator.cs:113-115 | cutting an interior point out of a chain takes away the triangle it made with its neighbours |
| EarClipping.ShoelaceRotate | server/src/Simulator.Core/Geometry/Triangulators/EarClippingTriangulator.cs:11 | the closed polygon's shoelace area does not depend on where the list starts |
| EarClipping.ShoelaceRemove | server/src/Simulator.Core/Geometry/Triangulators/EarClippingTriangulator.cs:110-118 | clipping any vertex of a polygon of three or more takes exactly the signed area of the triangle it made with its neighbours |
| EarClipping.ChainOfFour | server/src/Simulator.Core/Geometry/Triangulators/EarClippingTriangulator.cs:148-151 | the chain sum of four points written out |
| EarClipping.ShoelaceTriangle | server/src/Simulator.Core/Geometry/Triangulators/EarClippingTriangulator.cs:148-151 | the shoelace area of three points is their triangle's signed area |
| EarClipping.Points | server/src/Simulator.Core/Geometry/Triangulators/EarClippingTriangulator.cs:11 | the vertices of the live nodes in list order |
| EarClipping.Identity | server/src/Simulator.Core/Geometry/Triangulators/EarClippingTriangulator.cs:18 | the nodes of a freshly built list: 0 .. n-1, distinct |
| EarClipping.PointsRemoved | server/src/Simulator.Core/Geometry/Triangulators/EarClippingTriangulator.cs:115 | reading the vertices after unlinking equals unlinking the vertex from the vertex list |
| EarClipping.ConvexEarTriangle | server/src/Simulator.Core/Geometry/Triangulators/EarClippingTriangulator.cs:113 | the triangle clipped at a convex node keeps the corner order (prev, node, next) and has a positive area |
| EarClipping.ClipArea | server/src/Simulator.Core/Geometry/Triangulators/EarClippingTriangulator.cs:110-118 | clipping a convex node takes exactly its ear triangle's area from the cycle's shoelace area |
| EarClipping.SamePlacement | server/src/Simulator.Core/Geometry/Triangulators/EarClippingTriangulator.cs:57-71 | a node with the same neighbours and memberships in two states is placed in one exactly when in the other |
| EarClipping.ClipKeepsPlaced | server/src/Simulator.Core/Geometry/Triangulators/EarClippingTriangulator.cs:110-133 | after clipping and reclassifying the two neighbours, every live node is still in the set its current turn calls for |
| EarClipping.ClipKeepsPlacedAt | server/src/Simulator.Core/Geometry/Triangulators/EarClippingTriangulator.cs:110-133 | the same for one node other than the clipped node and its neighbours |
| EarClipping.UnlinkCoherent | server/src/Simulator.Core/Geometry/Triangulators/EarClippingTriangulator.cs:115-118 | unlinking a node and dropping it from both sets keeps the state coherent and makes its neighbours adjacent |
| EarClipping.EarClippingTriangulator.constructor | server/src/Simulator.Core/Geometry/Triangulators/EarClippingTriangulator.cs:11-14 | a fresh triangulator has an empty list and three empty sets |
| EarClipping.EarClippingTriangulator.GetNeighbours | server/src/Simulator.Core/Geometry/Triangulators/EarClippingTriangulator.cs:136-144 | the previous and next node with wrap-around; in a list of three or more they are two other nodes |
| EarClipping.EarClippingTriangulator.ClassifyVertex | server/src/Simulator.Core/Geometry/Triangulators/EarClippingTriangulator.cs:57-71 | puts the node in exactly one of the convex and reflex sets, convex exactly when it turns left, reports which, and changes nothing else |
| EarClipping.EarClippingTriangulator.ClassifyVertices | server/src/Simulator.Core/Geometry/Triangulators/EarClippingTriangulator.cs:45-53 | after the walk every live node is classified by its current turn |
| EarClipping.EarClippingTriangulator.IsEar | server/src/Simulator.Core/Geometry/Triangulators/EarClippingTriangulator.cs:91-107 | true exactly when no reflex node other than the three corners has its vertex in the triangle (prev, tip, next), boundary included |
| EarClipping.EarClippingTriangulator.ComputeEars | server/src/Simulator.Core/Geometry/Triangulators/EarClippingTriangulator.cs:81-88 | adds exactly the convex nodes that pass the ear test to the ear set and changes nothing else |
| EarClipping.EarClippingTriangulator.ClipEar | server/src/Simulator.Core/Geometry/Triangulators/EarClippingTriangulator.cs:110-133 | returns the ear's triangle, unlinks it from the list and all three sets, and reclassifies only its two neighbours, each an ear afterwards exactly when it is convex and passes the ear test |
| EarClipping.EarClippingTriangulator.Unlink | server/src/Simulator.Core/Geometry/Triangulators/EarClippingTriangulator.cs:115-118 | removes the node from the list and all three sets, making its neighbours adjacent |
| EarClipping.EarClippingTriangulator.Reclassify | server/src/Simulator.Core/Geometry/Triangulators/EarClippingTriangulator.cs:122-130 | one neighbour's update: classified, and in the ear set exactly when convex and passing the ear test; no other node changes |
| EarClipping.EarClippingTriangulator.GetLastTriangle | server/src/Simulator.Core/Geometry/Triangulators/EarClippingTriangulator.cs:148-152 | the triangle of the last three nodes in list order, whose area is the absolute shoelace area of the three |
| EarClipping.EarClippingTriangulator.Triangulate | server/src/Simulator.Core/Geometry/Triangulators/EarClippingTriangulator.cs:16-42 | propagates a failure to build the vertex list; fewer than three vertices give no triangles, three give one; otherwise a failure is `EmptyEarSet`, reported only when the ear set ran empty while more than three vertices remained, and a success is n - 2 triangles whose clipped ears are counter-clockwise and whose areas balance the built list's shoelace area |
| EarClipping.EarClippingTriangulator.TriangulateVertices | server/src/Simulator.Core/Geometry/Triangulators/EarClippingTriangulator.cs:21-41 | the same outcome for an already built vertex list |
| EarClipping.EarClippingTriangulator.LoadVertices | server/src/Simulator.Core/Geometry/Triangulators/EarClippingTriangulator.cs:18 | the list holds the vertices in order and the three sets are empty |
| EarClipping.EarClippingTriangulator.ClipEars | server/src/Simulator.Core/Geometry/Triangulators/EarClippingTriangulator.cs:30-41 | the clipping loop fails, with `EmptyEarSet`, only when the ear set is empty while more than three vertices remain, leaving the lists classified; otherwise it yields n - 2 triangles for the n vertices it started from, every clipped ear counter-clockwise and the last triangle covering the shoelace area the ears leave |
| EarClipping.AppendArea | server/src/Simulator.Core/Geometry/Triangulators/EarClippingTriangulator.cs:36 | appending a triangle adds its area |
| EarClipping.AppendEar | server/src/Simulator.Core/Geometry/Triangulators/EarClippingTriangulator.cs:36 | appending a clipped ear keeps every triangle counter-clockwise and adds its area |
| EarClipping.LastTriangle | server/src/Simulator.Core/Geometry/Triangulators/EarClippingTriangulator.cs:39 | the clipped ears plus the final triangle give n - 2 triangles, the ears counter-clockwise, the last covering the area they leave |
| NavMeshes.Node.constructor | server/src/Simulator.Core/Geometry/NavMesh.cs:9-14 | a node holds the triangle's corners in order, -1 in all three neighbour slots, and the triangle's centroid |
| NavMeshes.NavMesh.constructor | server/src/Simulator.Core/Geometry/NavMesh.cs:16 | a new mesh has no nodes |
| NavMeshes.NavMesh.AddNode | server/src/Simulator.Core/Geometry/NavMesh.cs:20-25 | the node is appended, earlier nodes keep their indices, and the returned index is the old `Count`, where the node now sits |
| NavMeshes.NavMesh.Count | server/src/Simulator.Core/Geometry/NavMesh.cs:18 | the number of nodes held, which is the index the next `AddNode` returns (stated in `AddNode`'s contract) |
| NavMeshes.NavMesh.AddNeighbour | server/src/Simulator.Core/Geometry/NavMesh.cs:27-31 | each triangle's slot names the other triangle (the second write wins when both writes hit the same slot), and no other slot of any node changes |
| NavMeshes.LinkTwoTriangles | server/src/Simulator.Core/Geometry/NavMesh.cs:9-31 | example: two nodes linked through edge 0 of the first and edge 2 of the second name each other in those slots, and their other slots stay -1 |
| UniformGrids.Added | server/src/Simulator.Core/Geometry/Primitives/UniformGrid.cs:15-18 | after an add, the cell is present, the key set grows by that cell alone, and every other cell keeps its list |
| UniformGrids.Lookup | server/src/Simulator.Core/Geometry/Primitives/UniformGrid.cs:26-29 | the stored list of a present cell, and the empty list for a missing one (its properties are stated in `AddThenGet`, `AddOnlyGrows` and `Get`) |
| UniformGrids.AddThenGet | server/src/Simulator.Core/Geometry/Primitives/UniformGrid.cs:10-30 | reading the cell just added to gives its old list (empty if it was missing) with the value at the end; every other cell reads as before |
| UniformGrids.AddOnlyGrows | server/src/Simulator.Core/Geometry/Primitives/UniformGrid.cs:10-19 | adding never removes anything: each cell's old list is a prefix of its new one, and only the added cell grows, by one |
| UniformGrids.UniformGrid.constructor | server/src/Simulator.Core/Geometry/Primitives/UniformGrid.cs:3-8 | a new grid has an empty dictionary and keeps the given cell function |
| UniformGrids.UniformGrid.Add | server/src/Simulator.Core/Geometry/Primitives/UniformGrid.cs:10-19 | the new dictionary is the old one with `value` appended to the point's cell |
| UniformGrids.UniformGrid.Get | server/src/Simulator.Core/Geometry/Primitives/UniformGrid.cs:21-30 | returns the point's cell list, or an empty list when the cell is missing |
| SimulationSnapshots.PreviewCount | server/src/Simulator.Core/SimulationSnapshot.cs:29 | `Math.Min(StoredAgents, 5)`: at most 5 and at most the stored count, and equal to one of them |
| SimulationSnapshots.SimulationSnapshot.constructor | server/src/Simulator.Core/SimulationSnapshot.cs:5-11 | buffers of capacity `n` filled with default values, no agent stored, the given step, not complete |
| SimulationSnapshots.SimulationSnapshot.AddAgent | server/src/Simulator.Core/SimulationSnapshot.cs:13-18 | the id and position go into slot `StoredAgents` of the two buffers, the counter grows by one, and nothing else changes |
| SimulationSnapshots.SimulationSnapshot.Preview | server/src/Simulator.Core/SimulationSnapshot.cs:29-42 | the text form lists the first min(StoredAgents, 5) agents in slot order, and ends with "..." exactly when more than 5 agents are stored |
| GenerateVertices.Orient | scripts/src/generate_vertices.py:10-11 | `orient(p, q, r)` is the signed double area that the triangle code calls `Sign` |
| GenerateVertices.OrientSymmetries | scripts/src/generate_vertices.py:10-11 | exchanging the first two points negates `orient`; rotating the points keeps it |
| GenerateVertices.OnSegment | scripts/src/generate_vertices.py:13-16 | true exactly when q lies between p and r in x and between them in y, in either order |
| GenerateVertices.OnSegmentProperties | scripts/src/generate_vertices.py:13-16 | the box test does not depend on which end comes first, and both ends pass it |
| GenerateVertices.ProperCrossingIntersects | scripts/src/generate_vertices.py:18-24 | segments whose endpoints lie strictly on opposite sides of each other's line intersect |
| GenerateVertices.SegmentsIntersect | scripts/src/generate_vertices.py:7-35 | two segments that share an endpoint always intersect, however they share it |
| GenerateVertices.SegmentsIntersectSymmetric | scripts/src/generate_vertices.py:7-35 | `segments_intersect(a, b, c, d)` equals `segments_intersect(c, d, a, b)` |
| GenerateVertices.SegmentsIntersectReversed | scripts/src/generate_vertices.py:7-35 | reversing the first segment does not change the answer |
| GenerateVertices.ScanFrom | scripts/src/generate_vertices.py:41-51 | the nested loops, from pair (i, j) on, return true exactly when no examined pair at or after (i, j) has crossing edges |
| GenerateVertices.IsSimplePolygon | scripts/src/generate_vertices.py:38-51 | true exactly when no pair of non-adjacent edges (the first and last edges count as adjacent) intersects |
| GenerateVertices.SmallPolygonsSimple | scripts/src/generate_vertices.py:38-51 | every list of at most three points is reported simple, since all of its edge pairs are skipped |
| GenerateVertices.BowTieNotSimple | scripts/src/generate_vertices.py:38-51 | the bow tie (0,0), (2,2), (2,0), (0,2) is reported not simple |
| VerticesToFloorplan.Lines | scripts/src/vertices_to_floorplan.py:4-18 | one line per vertex, line i being vertex i followed by vertex (i + 1) mod n, flattened to four numbers |
| VerticesToFloorplan.GetLines | scripts/src/vertices_to_floorplan.py:4-18 | the appending loop returns exactly `Lines(vertices)` |
| VerticesToFloorplan.LineStartsAtVertex | scripts/src/vertices_to_floorplan.py:9-15 | line i starts at vertex i |
| VerticesToFloorplan.LinesChain | scripts/src/vertices_to_floorplan.py:7-16 | each line ends where the next one starts |
| VerticesToFloorplan.LastLineClosesRing | scripts/src/vertices_to_floorplan.py:8 | the last line ends at the first vertex, closing the ring |
| VerticesToFloorplan.EmptyGivesNoLines | scripts/src/vertices_to_floorplan.py:7 | no vertices give no lines |

## Left out

- Integer width: C# `int` and `long` wrap around silently; the model uses unbounded integers, which agree with the source while no intermediate value overflows (the source assumes coordinates of about 2^20 in magnitude).
- `LongFraction.ToLongFraction` and `Evaluate`: floating-point approximation and evaluation.
- `GetHashCode` of every type: `HashCode.Combine` is foreign code; for `EdgeKey` the model states which pair is hashed.
- `ToString` of every type: text formatting. For `SimulationSnapshot` the rows the preview lists, and whether it ends with "...", are modelled; the text is not.
- `Console.WriteLine` tracing in the hole bridging: output only.
- `Shapes/Triangle.ContainsPoint(Vector2)`, with its `EPSILON` tolerance, and `GenerateRandomPoint` of the triangle and of `Shapes/BoundingBox`: floating point and randomness.
- The cell computation of `UniformGrid` (a reciprocal times `Math.Floor` on doubles): the grid is given the cell function as a parameter and uses the same one in `Add` and `Get`.
- UniformGrids.UniformGrid.Get: returns the cell's list as a value; in the source the caller receives the stored list itself, and changes it would make through that alias are not modelled.
- `NavMesh.ToString` and path planning: floating point, and path-finding code that is not part of this model.
- Node identity of `LinkedList`: in the hole bridging a node is an index into the cycle at that moment, which is exact because no node reference outlives a splice; in the triangulator nodes are identities in an arena that are never reused.
- `List.Sort` of the holes is modelled as an insertion sort (`SortHoles`); the comparison never ties two different holes, so every sort by it gives that order (`SortIsDeterministic`), although `List.Sort` is not stable.
- `HashSet.First()` in the clipping loop: the set's enumeration order is not specified, so the clipped ear is an arbitrary member of the ear set.
- `Debug.Assert` checks become preconditions: a non-empty cycle in `FindMutuallyVisibleVertex`, and exactly three nodes in `GetLastTriangle`.
- The crash paths become errors: an empty hole (`GetMaxX` reads `vertices[0]`), holes with no outer polygon (the bridge search dereferences a missing first node), a 0/0 angle score (a listed vertex at (M.X, 0)), and an empty ear set while more than three vertices remain.
- EarClipping.EarClippingTriangulator.Triangulate: requires empty convex, reflex and ear sets, i.e. a fresh instance, because the source never clears them between calls.
- EarClipping.EarClippingTriangulator.Triangulate: the source calls a one-argument `BuildVertexList(inputGeometry)`, which is not part of this model; the model passes the outer polygon's and the holes' vertices to the two-argument form instead.
- EarClipping.EarClippingTriangulator.Triangulate: states the triangle count, the counter-clockwise winding of every clipped ear and the balance of shoelace areas, not that the triangles tile the polygon, which the class promises; a proof that the clipped ears cover the polygon without overlap needs a point-set model of polygons and containment that is beyond the size of this model. That ears never run out (the two-ears theorem for simple polygons) is not stated either: it holds only for simple input, which the source does not check, and the failure path is modelled instead.
- EarClipping.EarClippingTriangulator.ClipEar: requires at least three live nodes, which the clipping loop guarantees (it runs while more than three remain).
- PolygonBuilders.FindMinimumAngleVertex: the comment at server/src/Simulator.Core/Geometry/Utils/PolygonBuilder.cs:116 says the obstructing vertex with the minimum angle is returned, but the search starts from the score 0/1, below which no score (a non-negative fraction) can fall, so the code returns the first obstructing vertex; the model follows the code (`MinimumAngleCases`) and does not state the minimum-angle choice.
- Copies of `SimulationSnapshot`: the source type is a mutable struct, so a copy shares the two buffers but has its own `StoredAgents` counter; the model is a class, and what a copied snapshot sees after the original adds agents is not modelled.
- NavMeshes.NavMesh.AddNeighbour: the index bounds, whose violation makes the source throw from the list or array indexer, are preconditions.
- Methods that name a stretch of inline source code, so that each proof stays small: `TestVertex` and `MergeAll` in the hole bridging; `LoadVertices`, `TriangulateVertices`, `ClipEars`, `Unlink` and `Reclassify` in the triangulator.
- LongFractions.Less: this, `Greater`, `Equal` and `Trichotomy` are stated for reduced operands, which every value made by the constructor or an operator is.
- The random polygon generation (floating-point angles and radii), `main` and the CSV output in `generate_vertices.py`, and the module-level JSON reading and printing in `vertices_to_floorplan.py`: randomness, floating point and I/O.
- The rest of the repository is not part of this model: the constrained-Delaunay triangulators and their conversions (wrappers over third-party libraries), the superseded first triangulator, agents and their random distributions, the simulation server, the I/O library and the client.
