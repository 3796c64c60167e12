# lostinmsh, modelled in Dafny

lostinmsh builds T-conform meshes of polygonal cavities for gmsh. A polygon
is given by its vertices. Each corner gets an exact rational angle, a
multiple of π. The polygon's elementary angle φ divides every corner angle.
Around each corner, the mesh is a disc of p + q sectors: p lie inside the
polygon (the cavity) and q lie outside it (the vacuum). Each side becomes
two quadrangles that join the discs of its two corners. A border around all
polygons (a circle or a rectangle, fitted automatically or given) closes the
domain. The largest admissible corner radius is half the smallest vertex
distance, capped by the clearance to the border.

This project models the computational core of that pipeline:

- `CircularIterable`: circular pair and triple iteration.
- `Angles`: the rational angle. This covers its string, the per-corner
  elementary angle and the per-corner critical interval.
- `Polygons`: vertex validation, orientation, side lengths, corner
  assembly with the exact angle-sum check, and the polygon's elementary
  angle. Also the `Polygon` class with its in-place `translate` and its
  critical interval.
- `SmallestBoundary`: Andrew's monotone-chain hull, the trivial circles,
  the strict inside test, Welzl's recursion and the bounding rectangle.
- `ClosestPoints`: the naive and divide-and-conquer closest-pair distance.
- `Borders`: the signed distance to the inner boundary, and the automatic
  circular and rectangular fits. These cover both `lostinmsh/geometry/border.py`
  and the older `lostinmsh/border.py`.
- `Geometries`: the `Geometry` class. It has the factories, the in-place
  `make_center_origin`, the named critical intervals and `max_corner_radius`.
- `MeshLost`: the layout of the corner-adapted mesh. A recording kernel class
  allocates consecutive gmsh tags and stands in for gmsh.
- `HelperType`: `Domain` and the in-place merge `update_domain_tags`.

The two closest-point files (`lostinmsh/geometry/closest_points.py` and the
older `lostinmsh/closest_points.py`) hold the same algorithm, and one model
serves both.

The helper modules are `Arith`, `Rationals` (gcd, lcm, normalised
fractions), `Points` (real plane vectors), `Sorting` (a stable lexicographic
sort standing in for numpy's `lexsort`/`argsort`) and `Wrappers` (`Option`,
`Result` and the Python exception kinds).

Coordinates are Dafny `real`, so they are exact. There is no NaN and no
rounding. The source's `Fraction` arithmetic is exact as well. Square roots
are a parameter `sqrt` constrained by `IsSqrt`: non-negative on
non-negative arguments, and squaring back to the argument. The rounding of
a measured angle to a fraction with a bounded denominator (`arctan2` plus
`limit_denominator`) is a parameter `turn`. The random permutation of
`smallest_circle` is a parameter `shuffle` constrained to be a permutation.

## Model

| member | source | states |
|---|---|---|
| `CircularIterable.RotateAt` | lostinmsh/circular_iterable.py:11-13 | the turn `islice(cycle(c), start, start+n)` has n elements and element k is `c[(start+k) mod n]` |
| `CircularIterable.PairwiseAt` | lostinmsh/circular_iterable.py:9-15 | `circular_pairwise(c, start)` has exactly `len(c)` pairs and pair k is `(c[(start+k) mod n], c[(start+k+1) mod n])` |
| `CircularIterable.PairwiseFromZero` | lostinmsh/circular_iterable.py:9-15 | from the default start 0, pair k is `(c[k], c[(k+1) mod n])` |
| `CircularIterable.PairwiseEmpty` | lostinmsh/circular_iterable.py:9-15 | an empty collection yields no pairs |
| `CircularIterable.PairwiseWraps` | lostinmsh/circular_iterable.py:11-15 | the last pair ends at the element where the first pair starts, `c[start mod n]` |
| `CircularIterable.TriplewiseAt` | lostinmsh/circular_iterable.py:18-25 | `circular_triplewise(c, start)` has n triples and triple k is `(c[(s+k) mod n], c[(s+k+1) mod n], c[(s+k+2) mod n])` |
| `CircularIterable.TriplewiseFromLast` | lostinmsh/circular_iterable.py:18-25 | with `start = n-1`, triple k is `(c[k-1 mod n], c[k], c[k+1 mod n])`, so its middle element is element k |
| `CircularIterable.SlotBijective` | lostinmsh/circular_iterable.py:9-25 | every index is read at exactly one position of a turn, so each element takes each tuple position exactly once |
| `Angles.StrRoundTrip` | lostinmsh/geometry/polygon.py:25-36 | parsing `str(angle)` gives back its numerator and denominator, so the rendering loses nothing |
| `Angles.ElementaryPQBounds` | lostinmsh/geometry/polygon.py:80-89 | for 0 < angle < 2 the parity rule followed by the doubling rule gives p ≥ 2 and q ≥ 2 |
| `Angles.ElementaryAngleMultiples` | lostinmsh/geometry/polygon.py:74-91 | for 0 < angle < 2 the result e = 2/(p+q) satisfies angle = p·e and 2 − angle = q·e with p, q ≥ 2, as the docstring promises |
| `Angles.ElementaryAngleCoarsest` | lostinmsh/geometry/polygon.py:74-91 | any split angle = 2p'/(p'+q') with p', q' ≥ 2 has p'+q' ≥ p+q, so the elementary angle is the coarsest such angle |
| `Angles.ElementaryAngleTable1` | tests/test_angles.py:14 | elementary angle of 1/12 is 1/24 |
| `Angles.ElementaryAngleTable2` | tests/test_angles.py:15 | elementary angle of 2/12 is 1/12 |
| `Angles.ElementaryAngleTable3` | tests/test_angles.py:16 | elementary angle of 3/12 is 1/8 |
| `Angles.ElementaryAngleTable4` | tests/test_angles.py:17 | elementary angle of 4/12 is 1/6 |
| `Angles.ElementaryAngleTable5` | tests/test_angles.py:18 | elementary angle of 5/12 is 1/12 |
| `Angles.ElementaryAngleTable6` | tests/test_angles.py:19 | elementary angle of 6/12 is 1/4 |
| `Angles.ElementaryAngleTable7` | tests/test_angles.py:20 | elementary angle of 7/12 is 1/12 |
| `Angles.ElementaryAngleTable8` | tests/test_angles.py:21 | elementary angle of 8/12 is 1/3 |
| `Angles.ElementaryAngleTable9` | tests/test_angles.py:22 | elementary angle of 9/12 is 1/4 |
| `Angles.ElementaryAngleTable10` | tests/test_angles.py:23 | elementary angle of 10/12 is 1/6 |
| `Angles.ElementaryAngleTable11` | tests/test_angles.py:24 | elementary angle of 11/12 is 1/12 |
| `Angles.ElementaryAngleTable12` | tests/test_angles.py:25 | elementary angle of 12/12 is 1/2 |
| `Angles.ElementaryAngleTable13` | tests/test_angles.py:26 | elementary angle of 13/12 is 1/12 |
| `Angles.ElementaryAngleTable14` | tests/test_angles.py:27 | elementary angle of 14/12 is 1/6 |
| `Angles.ElementaryAngleTable15` | tests/test_angles.py:28 | elementary angle of 15/12 is 1/4 |
| `Angles.ElementaryAngleTable16` | tests/test_angles.py:29 | elementary angle of 16/12 is 1/3 |
| `Angles.ElementaryAngleTable17` | tests/test_angles.py:30 | elementary angle of 17/12 is 1/12 |
| `Angles.ElementaryAngleTable18` | tests/test_angles.py:31 | elementary angle of 18/12 is 1/4 |
| `Angles.ElementaryAngleTable19` | tests/test_angles.py:32 | elementary angle of 19/12 is 1/12 |
| `Angles.ElementaryAngleTable20` | tests/test_angles.py:33 | elementary angle of 20/12 is 1/6 |
| `Angles.ElementaryAngleTable21` | tests/test_angles.py:34 | elementary angle of 21/12 is 1/8 |
| `Angles.ElementaryAngleTable22` | tests/test_angles.py:35 | elementary angle of 22/12 is 1/12 |
| `Angles.ElementaryAngleTable23` | tests/test_angles.py:36 | elementary angle of 23/12 is 1/24 |
| `Angles.CriticalInterval` | lostinmsh/geometry/polygon.py:64-72 | `Corner.critical_interval` raises ZeroDivisionError exactly for the angles 0 and 2 |
| `Angles.CriticalIntervalBounds` | lostinmsh/geometry/polygon.py:64-72 | for 0 < angle < 2 the interval is (−max(a, 1/a), −min(a, 1/a)) with a = (2−angle)/angle, so lo ≤ hi < 0 and lo·hi = 1; a flat angle gives (−1, −1) |
| `Polygons.ToArray` | lostinmsh/geometry/polygon.py:146-158 | succeeds exactly for a two-dimensional array with ≥ 3 rows of 2 numbers, keeping every row as a point; otherwise ValueError |
| `Polygons.LexMinIndex` | lostinmsh/geometry/polygon.py:164 | the index `lexsort` puts first: no vertex is lexicographically smaller (x, then y), and every earlier vertex is strictly larger |
| `Polygons.FixOrientationTurn` | lostinmsh/geometry/polygon.py:161-175 | for distinct vertices the result has the same length, and the cross product at its lexicographically smallest vertex is ≥ 0, whether or not the input was reversed |
| `Polygons.ReversedLexMin` | lostinmsh/geometry/polygon.py:164-173 | reversing distinct vertices moves the lexicographic minimum from index i to n−1−i |
| `Polygons.ComputeLengths` | lostinmsh/geometry/polygon.py:178-186 | succeeds exactly when every side (to the next vertex, cyclically) is longer than 1e-8; ValueError otherwise; each length is positive and squares to the side's squared length |
| `Polygons.UnitVectorSpec` | lostinmsh/geometry/polygon.py:213-215 | `_normalize` gives a unit vector whose multiple by the original norm is the original vector |
| `Polygons.SignFix` | lostinmsh/geometry/polygon.py:224-227 | the result is ρ or ρ + 2; it is ρ for ρ ≥ 0 and lies in [0, 2) for ρ ∈ [−2, 2) |
| `Polygons.CornerAtSpec` | lostinmsh/geometry/polygon.py:189-198 | corner i has apex `v[i]`; `v1` is the unit vector toward `v[i+1]` and `v2` toward `v[i−1]`; its angle lies in [0, 2) |
| `Polygons.TripleCorner` | lostinmsh/geometry/polygon.py:194-198 | the corner built from triple k of `circular_triplewise(v, n−1)` is the corner at vertex k |
| `Polygons.ComputeCorners` | lostinmsh/geometry/polygon.py:189-210 | returns the n corners exactly when their angles sum to n − 2, otherwise ValueError |
| `Polygons.GcdAllDivides` | lostinmsh/geometry/polygon.py:132 | the gcd of the numerators is positive and divides every numerator |
| `Polygons.LcmAllMultiple` | lostinmsh/geometry/polygon.py:132 | every denominator divides the lcm of the denominators |
| `Polygons.PolygonElementaryAngleDivides` | lostinmsh/geometry/polygon.py:128-133 | the polygon's elementary angle is positive; every corner's elementary angle is an integer multiple k ≥ 1 of it, and so is every corner angle in (0, 2) |
| `Polygons.IntervalHullBounds` | lostinmsh/geometry/polygon.py:135-143 | the hull exists exactly when there is a corner and every corner interval exists; it is the least lower end and the greatest upper end, and both are attained |
| `Polygons.IntervalHullContains` | lostinmsh/geometry/polygon.py:135-143 | the polygon's critical interval contains every corner's interval |
| `Polygons.TranslatedVertices` | lostinmsh/geometry/polygon.py:119-122 | translation adds the vector to each corner's centre and keeps `v1` and `v2` |
| `Polygons.TranslatedInverse` | lostinmsh/geometry/polygon.py:119-122 | translating by v and then by −v restores the corners |
| `Polygons.TranslatedInvariants` | lostinmsh/geometry/polygon.py:119-122 | translation keeps every angle, the elementary angle and the critical interval |
| `Polygons.Polygon.constructor` | lostinmsh/geometry/polygon.py:94-100 | a polygon holds its corners, lengths and name |
| `Polygons.Polygon.Translate` | lostinmsh/geometry/polygon.py:119-122 | the corners become their translates; the lengths and the name are unchanged |
| `Polygons.VerticesRoundTrip` | lostinmsh/geometry/polygon.py:124-126 | the vertices of a polygon whose corners were assembled from oriented, non-degenerate vertices are those vertices, in order, so `get_vertices` inverts the corner assembly |
| `Polygons.Polygon.CriticalInterval` | lostinmsh/geometry/polygon.py:135-143 | the running min/max loop computes the interval hull (IndexError without corners, the first corner's error otherwise) |
| `Polygons.Polygon.FromVertices` | lostinmsh/geometry/polygon.py:102-112 | validates, orients, measures and assembles; each failing stage gives ValueError, and on success the polygon holds the corners and lengths of the oriented vertices |
| `SmallestBoundary.CrossProductSymmetries` | lostinmsh/geometry/smallest_boundary.py:63-65 | swapping u and v negates the cross product; translating all three points keeps it |
| `SmallestBoundary.PopNonLeftSpec` | lostinmsh/geometry/smallest_boundary.py:51-56 | the inner `while` leaves a prefix of the stack that ends in a turn above `EPS_ADD` towards the new index; the last index it removed made a turn of at most `EPS_ADD`; a non-empty stack keeps at least one index |
| `SmallestBoundary.LowerHull` | lostinmsh/geometry/smallest_boundary.py:47-60 | the loop of pops and pushes leaves exactly `LowerStack(pts, order)`, the fold that pushes each index of the order after the pops `PopNonLeft` makes |
| `SmallestBoundary.LowerStackChain` | lostinmsh/geometry/smallest_boundary.py:47-60 | the stack is a subsequence of the order that starts with its first and ends with its last index, with at least two indices for two or more; every consecutive triple turns left by more than `EPS_ADD` |
| `SmallestBoundary.LowerStackExample` | lostinmsh/geometry/smallest_boundary.py:47-60 | for (0, 0), (2, 0), (1, 5), (1, −5) in the order 0, 3, 2, 1 the stack is 0, 3, 1: index 2 is pushed and then popped by the right turn towards 1 |
| `SmallestBoundary.LexOrder` | lostinmsh/geometry/smallest_boundary.py:39 | `lexsort` gives every index once, ordered by x and then y |
| `SmallestBoundary.LexOrderExtremes` | lostinmsh/geometry/smallest_boundary.py:39 | the first index is a lexicographic minimum and the last a maximum |
| `SmallestBoundary.SortedSelection` | lostinmsh/geometry/smallest_boundary.py:44 | `sort` of the concatenated chains is ascending and keeps every chosen index |
| `SmallestBoundary.ConvexHull` | lostinmsh/geometry/smallest_boundary.py:36-44 | for n ≤ 1 the index range; otherwise exactly the rows `HullRows(points)`: the points at `sort(lower[:-1] + upper[:-1])`, where `lower` is the `LowerStack` fold over the lexicographic order and `upper` the fold over its reverse |
| `SmallestBoundary.HullChainsSpec` | lostinmsh/geometry/smallest_boundary.py:39-42 | for two or more points both `_lower_hull` stacks are monotone chains, of at least two indices each, that start at one lexicographic extreme and end at the other |
| `SmallestBoundary.HullSelectionSpec` | lostinmsh/geometry/smallest_boundary.py:39-44 | the sorted selection holds exactly the indices of both stacks without their last one, is ascending, in range, has at least two indices and keeps both lexicographic extremes |
| `SmallestBoundary.HullRowsAt` | lostinmsh/geometry/smallest_boundary.py:44 | the hull rows are the points at the selected indices, at least two of them |
| `SmallestBoundary.TwoPointHull` | lostinmsh/geometry/smallest_boundary.py:36-44 | for two points the hull rows hold both points and are at most three |
| `SmallestBoundary.IsInsideBounds` | lostinmsh/geometry/smallest_boundary.py:135-138 | the test is strict: a circle of radius 0 contains nothing, not even its centre; anything closer than the radius is inside |
| `SmallestBoundary.TwoPointCircleThrough` | lostinmsh/geometry/smallest_boundary.py:116-121 | the midpoint circle passes through both points |
| `SmallestBoundary.TwoPointCircleMinimal` | lostinmsh/geometry/smallest_boundary.py:116-121 | every circle containing both points is at least as large as the midpoint circle |
| `SmallestBoundary.CircumcircleThrough` | lostinmsh/geometry/smallest_boundary.py:141-154 | the circumcircle is defined exactly when the determinant `a` is non-zero and then passes through all three points |
| `SmallestBoundary.ThreeTriples` | lostinmsh/geometry/smallest_boundary.py:127 | the triples tried are (A, B, C), (B, C, A), (C, A, B) |
| `SmallestBoundary.FirstDiameterOfThree` | lostinmsh/geometry/smallest_boundary.py:124-132 | the loop returns the first diameter circle on (A,B), (B,C), (C,A) that contains the third point, else the circumcircle |
| `SmallestBoundary.SmallestCircle3PointsEncloses` | lostinmsh/geometry/smallest_boundary.py:124-132 | the three-point circle, when defined, encloses all three points |
| `SmallestBoundary.TrivialCircle` | lostinmsh/geometry/smallest_boundary.py:97-113 | defined exactly for ≤ 3 boundary points; 0 points give centre (0, 0) radius 0, 1 point gives that point radius 0; more give ValueError |
| `SmallestBoundary.TrivialCircleEncloses` | lostinmsh/geometry/smallest_boundary.py:97-113 | a defined trivial circle encloses all its boundary points |
| `SmallestBoundary.WelzlOk` | lostinmsh/geometry/smallest_boundary.py:81-94 | with a boundary of at most 3, the recursion never reaches the ValueError of `trivial_circle` |
| `SmallestBoundary.WelzlEncloses` | lostinmsh/geometry/smallest_boundary.py:81-94 | a defined result encloses the boundary and, while the boundary has fewer than 3 points, `points[lenght-1]` |
| `SmallestBoundary.SmallestCircleAsWritten` | lostinmsh/geometry/smallest_boundary.py:68-78 | as written: one point raises IndexError (the hull is an index array); 0 points give the zero circle; 3 points use the three-point circle |
| `SmallestBoundary.SmallestCircle` | lostinmsh/geometry/smallest_boundary.py:68-78 | corrected: one point gives that point with radius 0, no point the zero circle; three points the three-point circle; otherwise the result is Welzl's circle, with an empty boundary, over the shuffle of exactly the rows `HullRows(points)` |
| `SmallestBoundary.CircleOfUnique` | lostinmsh/geometry/smallest_boundary.py:68-78 | the circle is determined by the points and the shuffle: any two runs go over the same hull rows and give the same circle |
| `SmallestBoundary.CircleOfEncloses` | lostinmsh/geometry/smallest_boundary.py:68-94 | a defined smallest circle encloses every point when there are at most three, the last three shuffled hull rows Welzl examines, and every hull row when the hull has at most three rows; two or more points give a hull of at least two rows |
| `SmallestBoundary.MinCoord` | lostinmsh/geometry/smallest_boundary.py:164-165 | the minimum of a coordinate is a lower bound that some point attains |
| `SmallestBoundary.MaxCoord` | lostinmsh/geometry/smallest_boundary.py:164-165 | the maximum of a coordinate is an upper bound that some point attains |
| `SmallestBoundary.SmallestRectangle` | lostinmsh/geometry/smallest_boundary.py:162-170 | defined exactly for a non-empty set (ValueError otherwise); lengths are ≥ 0, every point lies in the box, and each of the four sides touches a point |
| `ClosestPoints.MinOf` | lostinmsh/geometry/closest_points.py:76 | `min` of two distances is one of them and below both |
| `ClosestPoints.MinDistUnique` | lostinmsh/geometry/closest_points.py:22-31 | the minimal distance is unique and is +∞ exactly for fewer than 2 points |
| `ClosestPoints.PairDistGaps` | lostinmsh/geometry/closest_points.py:107-109 | the distance is symmetric and at least each coordinate gap, which justifies the `break` |
| `ClosestPoints.MinDistTranslation` | lostinmsh/geometry/closest_points.py:8-50 | translating all the points keeps the minimal distance |
| `ClosestPoints.MinDistNaive` | lostinmsh/geometry/closest_points.py:22-31 | the double loop returns the minimal distance over pairs i < j: +∞ for fewer than 2 points, otherwise a lower bound that some pair attains |
| `ClosestPoints.ArgSort` | lostinmsh/geometry/closest_points.py:101 | `argsort` gives every index once, ordered by the chosen coordinate |
| `ClosestPoints.StripIndices` | lostinmsh/geometry/closest_points.py:78 | the strip holds exactly the indices with \|x − M.x\| < d, in increasing order |
| `ClosestPoints.BreakBound` | lostinmsh/closest_points.py:64-65 | once the y-gap reaches the current minimum, no later point in y order is closer |
| `ClosestPoints.StripRow` | lostinmsh/closest_points.py:60-67 | one pass of the inner loop lowers the minimum to below every distance from row i onward, or leaves it |
| `ClosestPoints.MinDistStrip` | lostinmsh/geometry/closest_points.py:98-112 | the result is ≤ d, is a lower bound on the strip's distances, and is d or an attained distance |
| `ClosestPoints.CrossingInStrip` | lostinmsh/geometry/closest_points.py:76-80 | a pair across the split that is closer than d has both points in the strip |
| `ClosestPoints.RecBound` | lostinmsh/geometry/closest_points.py:74-80 | the halves' minima and the strip's minimum together bound every pair of x-sorted points |
| `ClosestPoints.MinDistRec` | lostinmsh/geometry/closest_points.py:66-80 | the result is an attained distance (finite for ≥ 2 points) and, on x-sorted points, a lower bound on all pairs |
| `ClosestPoints.Reordered` | lostinmsh/geometry/closest_points.py:49-50 | a permutation of the points has the same minimal distance |
| `ClosestPoints.MinDist` | lostinmsh/geometry/closest_points.py:34-50 | the divide-and-conquer result is the minimal distance |
| `ClosestPoints.MinDistAgree` | lostinmsh/closest_points.py:14-31 | `min_dist` and `min_dist_naive` agree, and are +∞ exactly for fewer than 2 points |
| `Borders.NewBorder` | lostinmsh/geometry/border.py:28-31 | a border holds the given fields; the name defaults are "background" and "PML" and the thickness defaults to none |
| `Borders.MaxNorm` | lostinmsh/geometry/border.py:54 | the maximum norm is an upper bound that some offset attains |
| `Borders.DistToInnerBoundary` | lostinmsh/geometry/border.py:33-68 | the base border raises NotImplementedError; the shaped borders raise ValueError exactly for no points |
| `Borders.CircularInside` | lostinmsh/geometry/border.py:53-54 | the circular distance is positive exactly when every point is strictly within the radius |
| `Borders.RectangularInside` | lostinmsh/geometry/border.py:64-68 | the rectangular distance is positive exactly when every point's signed offset is below the half width in x and below the half height in y |
| `Borders.RectangularLeftOutside` | lostinmsh/geometry/border.py:64-68 | the rectangular distance uses the signed offset, as the code does: a point far to the left of the unit square, at x = −5, still has distance 1 > 0, although the docstring of `Border.dist_to_inner_boundary` (lines 33-37) promises a negative distance when a point is outside |
| `Borders.DistTranslation` | lostinmsh/geometry/border.py:33-68 | moving the border centre and the points by the same vector keeps the distance |
| `Borders.ScaledThickness` | lostinmsh/geometry/border.py:78-81 | the thickness is absent exactly when the thickness factor is |
| `Borders.FitCircle` | lostinmsh/geometry/border.py:71-83 | a circular border centred on the smallest circle, with default names; an undefined circle has no border |
| `Borders.FitCircleNoSmaller` | lostinmsh/geometry/border.py:77-81 | with border_factor ≥ 0 the radius is at least the smallest circle's |
| `Borders.FitCircleClears` | lostinmsh/geometry/border.py:71-83 | with border_factor > 0 every point enclosed by the smallest circle is strictly inside the fitted border |
| `Borders.CircularFit` | lostinmsh/geometry/border.py:71-83 | `circular()` fits the border to the circle of `SmallestCircle(points)`: Welzl's circle over the shuffled rows `HullRows(points)`, or the three-point circle; one point gives that point with radius 0 (the source raises IndexError there) |
| `Borders.FitCircleClearsEnclosed` | lostinmsh/geometry/border.py:71-83 | a border fitted with factor at least the enclosure tolerance to a circle of positive radius that encloses the points leaves every point strictly inside: the clearance is > 0 |
| `Borders.CircularFitClears` | lostinmsh/geometry/border.py:71-83 | for one to three points whose smallest circle has positive radius, the circular fit leaves a positive clearance, so `max_corner_radius` stays positive |
| `Borders.FitRectangle` | lostinmsh/geometry/border.py:86-106 | defined exactly for non-empty points (ValueError otherwise); a rectangular border centred at the box midpoint, with default names |
| `Borders.FitRectangleNoSmaller` | lostinmsh/geometry/border.py:94-99 | with border_factor ≥ 0 the half extents are at least the box's; the thickness is absent exactly when the factor is |
| `Borders.WidenedBoxBounds` | lostinmsh/geometry/border.py:94-97 | widening the box by `norm(lengths) * border_factor` never shrinks it for border_factor ≥ 0, and makes it strictly larger in both directions for border_factor > 0 and a box of non-zero size |
| `Borders.FitRectangleClears` | lostinmsh/geometry/border.py:86-106 | with border_factor > 0 and a non-degenerate box, all points are strictly inside the fitted border |
| `Borders.GetBorder` | lostinmsh/border.py:80-138 | `AutoBorder.get_border` raises NotImplementedError; `AutoCircular` fits the circle `SmallestCircle(points)` fixes through `HullRows(points)` (one point: radius 0, where the source raises IndexError); `AutoRectangular` fits the bounding box |
| `Geometries.StackTranslated` | lostinmsh/geometry/geometry.py:88 | the stacked vertices of translated polygons are the translated stacked vertices |
| `Geometries.CornerRadius` | lostinmsh/geometry/geometry.py:89 | the radius is at most the clearance and at most half the minimal distance, and equals one of them; a clearance error propagates |
| `Geometries.CornerRadiusTranslation` | lostinmsh/geometry/geometry.py:73-89 | translating the polygons and the border centre keeps the minimal distance and the clearance |
| `Geometries.CenterOriginKeepsRadius` | lostinmsh/geometry/geometry.py:73-89 | `max_corner_radius` is the same before and after `make_center_origin` |
| `Geometries.NamedIntervalsOk` | lostinmsh/geometry/geometry.py:82-84 | the dictionary is built exactly when every polygon's interval exists |
| `Geometries.NamedIntervalsKeys` | lostinmsh/geometry/geometry.py:82-84 | its keys are the polygon names |
| `Geometries.NamedIntervalsLast` | lostinmsh/geometry/geometry.py:82-84 | a name maps to the interval of the last polygon with that name |
| `Geometries.NamedIntervalsPrefix` | lostinmsh/geometry/geometry.py:82-84 | the first polygon whose interval fails decides the error |
| `Geometries.AutoFit` | lostinmsh/geometry/geometry.py:65-66 | the base auto border raises NotImplementedError; a rectangle fits any non-empty set; a circle fits when the smallest circle is defined |
| `Geometries.Geometry.constructor` | lostinmsh/geometry/geometry.py:16-27 | a geometry holds its polygons and border |
| `Geometries.Geometry.FromPolygons` | lostinmsh/geometry/geometry.py:51-71 | no polygons gives ValueError (from `vstack`); an explicit border is kept; an automatic one is fitted to all stacked vertices, a circular one through the circle `SmallestCircle` fixes for those vertices; anything else gives ValueError |
| `Geometries.Geometry.FromAuto` | lostinmsh/geometry/geometry.py:63-66 | the automatic-border branch of `from_polygons`: the geometry holds the polygons and `get_border` of the stacked vertices, or the fit's error; a circular border goes through `SmallestCircle` of those vertices |
| `Geometries.Geometry.FromPolygon` | lostinmsh/geometry/geometry.py:29-49 | the same with the one polygon's vertices, the circular fit tied to `SmallestCircle` of them |
| `Geometries.Geometry.MakeCenterOrigin` | lostinmsh/geometry/geometry.py:73-80 | every corner centre moves by −(old border centre) and the border centre becomes (0, 0); the polygon list, lengths and names are kept |
| `Geometries.Geometry.CriticalInterval` | lostinmsh/geometry/geometry.py:82-84 | the dictionary from polygon name to polygon critical interval |
| `Geometries.Geometry.MaxCornerRadius` | lostinmsh/geometry/geometry.py:86-89 | min(min_dist/2, clearance) over the stacked vertices; no polygon gives ValueError |
| `MeshLost.ComputePQ` | lostinmsh/mesh/mesh_lost.py:172-174 | raises ZeroDivisionError exactly for φ = 0 |
| `MeshLost.ExactQuotient` | lostinmsh/mesh/mesh_lost.py:174 | `int(x / φ)` of an exact non-negative multiple m·φ is m |
| `MeshLost.PQOfMultiples` | lostinmsh/mesh/mesh_lost.py:172-174 | when angle = p·φ and 2 − angle = q·φ, `_compute_pq` returns (p, q) and (p+q)·φ = 2 |
| `MeshLost.PolygonPQ` | lostinmsh/mesh/mesh_lost.py:95-132 | with the polygon's elementary angle φ, a corner in (0, 2) splits into p, q ≥ 2 with p·φ = angle, q·φ = 2 − angle and (p+q)·φ = 2 |
| `MeshLost.SamePQSum` | lostinmsh/mesh/mesh_lost.py:172-174 | p + q is the same for every corner of the polygon |
| `MeshLost.Round` | lostinmsh/mesh/mesh_lost.py:102 | `round` gives the nearest integer, halves to even |
| `MeshLost.NCorner` | lostinmsh/mesh/mesh_lost.py:102 | `N_corner` is at least 2, and is 2 or the rounded 1 + r/h |
| `MeshLost.NCornerIsTwo` | lostinmsh/mesh/mesh_lost.py:96-102 | with r = min(corner_radius, h) and h > 0, `N_corner` is exactly 2 |
| `MeshLost.NEdge` | lostinmsh/mesh/mesh_lost.py:112 | `N_edge` is at least 2, and is 2 or within ½ of 1 + (l − 2r)/h_corner |
| `MeshLost.Kernel.constructor` | lostinmsh/mesh/mesh_lost.py:62 | a fresh gmsh model has no entities |
| `MeshLost.Kernel.AddPoint` | lostinmsh/mesh/mesh_lost.py:134-138 | `addPoint` returns the next point tag and changes nothing else |
| `MeshLost.Kernel.AddLine` | lostinmsh/mesh/mesh_lost.py:140-141 | `addLine` records the line and returns the next line tag |
| `MeshLost.Kernel.AddCurveLoop` | lostinmsh/mesh/mesh_lost.py:151 | `addCurveLoop` records the loop and returns the next loop tag |
| `MeshLost.Kernel.AddPlaneSurface` | lostinmsh/mesh/mesh_lost.py:156 | `addPlaneSurface` records the surface and returns the next surface tag |
| `MeshLost.Kernel.SetTransfiniteCurve` | lostinmsh/mesh/mesh_lost.py:144 | records the transfinite setting of a curve |
| `MeshLost.Kernel.SetTransfiniteSurface` | lostinmsh/mesh/mesh_lost.py:157 | records the transfinite setting of a surface |
| `MeshLost.SliceBound` | lostinmsh/mesh/mesh_lost.py:162-168 | Python's slice bound lies in [0, n] and is p itself for 0 ≤ p ≤ n |
| `MeshLost.HeadTail` | lostinmsh/mesh/mesh_lost.py:162-168 | `s[:p] + s[p:]` is s: the split drops and duplicates nothing |
| `MeshLost.CornerSplit` | lostinmsh/mesh/mesh_lost.py:160-169 | for p + q items with p, q ≥ 0, the cavity part has p and the vacuum part q |
| `MeshLost.SectorShape` | lostinmsh/mesh/mesh_lost.py:140-152 | arc i joins rim points i and i+1 mod (p+q), and sector i is bounded by spoke i, arc i and spoke i+1 |
| `MeshLost.AddPoints` | lostinmsh/mesh/mesh_lost.py:135-138 | adds n points with consecutive tags and nothing else |
| `MeshLost.AddLines` | lostinmsh/mesh/mesh_lost.py:140-141 | adds the lines with consecutive tags and nothing else |
| `MeshLost.AddCurveLoops` | lostinmsh/mesh/mesh_lost.py:148-152 | adds the loops with consecutive tags and nothing else |
| `MeshLost.SetTransfiniteCurves` | lostinmsh/mesh/mesh_lost.py:143-146 | sets every given line transfinite and nothing else |
| `MeshLost.AddSectorSurfaces` | lostinmsh/mesh/mesh_lost.py:154-158 | adds one transfinite plane surface per loop, with consecutive tags |
| `MeshLost.RimPoints` | lostinmsh/mesh/mesh_lost.py:135-138 | the p+q rim points get consecutive tags after the current ones, and nothing else of the model changes |
| `MeshLost.RimLines` | lostinmsh/mesh/mesh_lost.py:140-146 | the spokes and then the rim arcs, with their transfinite settings (N with coefficient f on spokes, N on arcs) |
| `MeshLost.BuildSectors` | lostinmsh/mesh/mesh_lost.py:148-158 | the sector loops and their transfinite surfaces |
| `MeshLost.BuildCorner` | lostinmsh/mesh/mesh_lost.py:135-158 | after the centre, the whole new model state of one corner disc: rim points, spokes, arcs, sector loops and transfinite surfaces, and the tags of its rim points, arcs and surfaces |
| `MeshLost.CornerSteps` | lostinmsh/mesh/mesh_lost.py:132-158 | the three stages compose into the corner disc state |
| `MeshLost.MeshCorner` | lostinmsh/mesh/mesh_lost.py:127-169 | ZeroDivisionError for φ = 0, with the model unchanged; ValueError (from `linspace`) when p + q < 0, after the centre point was added; otherwise the centre and the disc are built and the first p rim points, arcs and surfaces go to the cavity, the rest to the vacuum |
| `MeshLost.CornerOfCentre` | lostinmsh/mesh/mesh_lost.py:134-158 | adding the centre and then building the disc around it is the corner's whole state change, and the disc's rim, arcs and surfaces are those counted from before the centre |
| `MeshLost.CornerOfDisc` | lostinmsh/mesh/mesh_lost.py:160-169 | a built corner whose result splits the rim, arcs and surfaces at p is a meshed corner |
| `MeshLost.FitSizes` | lostinmsh/mesh/mesh_lost.py:160-169 | a corner tag fitted to (p, q) has p cavity points and arcs and q vacuum ones |
| `MeshLost.SplitSizes` | lostinmsh/mesh/mesh_lost.py:160-169 | the split of p + q rim items at p has the sizes p and q, and both are ≥ 2 when p, q ≥ 2 |
| `MeshLost.MeshCorners` | lostinmsh/mesh/mesh_lost.py:104-108 | one corner tag per corner, each fitted to its corner's split; succeeds when every corner splits into p, q ≥ 2; on success corner i is meshed from kernel state i to state i+1, from the old state to the new, and the tags and the cavity and vacuum surfaces are the per-corner results, concatenated in order |
| `MeshLost.MeshCornerSummary` | lostinmsh/mesh/mesh_lost.py:104-108 | one corner meshed as in the loop of `_tmesh_polygon`: a success is a meshed corner whose tag fits its split, and a split into p, q ≥ 2 always succeeds with a wide tag |
| `MeshLost.CornersFit` | lostinmsh/mesh/mesh_lost.py:104-108 | every corner meshed by the loop gets a tag that fits its split, and a wide one when all corners are wide |
| `MeshLost.MeshedFits` | lostinmsh/mesh/mesh_lost.py:127-169 | a meshed corner's tag has p cavity and q vacuum rim points and arcs, and is wide when p, q ≥ 2 |
| `MeshLost.ResultsStep` | lostinmsh/mesh/mesh_lost.py:104-116 | appending one result appends its tag to the tags and extends the cavity and vacuum lists by its own, as `append` and `extend` do |
| `MeshLost.CornerStepsGrow` | lostinmsh/mesh/mesh_lost.py:104-108 | one more meshed corner extends the corner steps by one |
| `MeshLost.EdgeStepsGrow` | lostinmsh/mesh/mesh_lost.py:110-116 | one more meshed side extends the side steps by one |
| `MeshLost.EdgeReadyOfSplit` | lostinmsh/mesh/mesh_lost.py:186-195 | with p, q ≥ 2 on both corners, every index `_mesh_edge` reads exists |
| `MeshLost.MeshEdge` | lostinmsh/mesh/mesh_lost.py:186-215 | IndexError exactly when an index read is missing; otherwise three lines (the interface from `C.pts_cav[0]` to `D.pts_vac[0]`), two quadrangle loops and their transfinite surfaces, and the returned tags |
| `MeshLost.EdgeLines` | lostinmsh/mesh/mesh_lost.py:190-195 | the interface, cavity and vacuum lines with consecutive tags, all transfinite with N |
| `MeshLost.EdgeSurface` | lostinmsh/mesh/mesh_lost.py:197-213 | one curve loop and one transfinite plane surface on it |
| `MeshLost.EdgeSteps` | lostinmsh/mesh/mesh_lost.py:186-215 | the line and two surface stages compose into the edge's state |
| `MeshLost.EdgePairing` | lostinmsh/mesh/mesh_lost.py:111 | `zip(lengths, circular_pairwise(corners_tag))` has as many items as the shorter list, and item i pairs `lengths[i]` with corners i and i+1 mod n |
| `MeshLost.MeshEdges` | lostinmsh/mesh/mesh_lost.py:110-116 | one edge per (length, neighbouring corner pair), as many as the shorter list; succeeds when every corner is split into p, q ≥ 2; on success side j is meshed between corners j and j+1 mod n from kernel state j to j+1, and the results are the per-side results concatenated in order |
| `MeshLost.MeshSides` | lostinmsh/mesh/mesh_lost.py:104-116 | the corner loop and then the side loop, the sides starting from the state the corners left; on success the corner tags, the edge tags and the cavity and vacuum surfaces of both loops, concatenated in order; succeeds when every corner is wide |
| `MeshLost.MiddleRestores` | lostinmsh/mesh/mesh_lost.py:225 | `s[1:-1]` has two items fewer (none for fewer than 2), and the first item, the middle and the last item put back together give `s` again |
| `MeshLost.NegatedInvolution` | lostinmsh/mesh/mesh_lost.py:232 | negating the tags twice gives them back, so the negated loop is the inner loop run backwards, tag for tag |
| `MeshLost.ChainLength` | lostinmsh/mesh/mesh_lost.py:224-229 | a loop has the parts' total length plus one edge line per corner |
| `MeshLost.LoopLengths` | lostinmsh/mesh/mesh_lost.py:218-234 | the inner loop has Σ(\|lines_cav\|−2) + n lines and the outer loop Σ(\|lines_vac\|−2) + n |
| `MeshLost.ChainStep` | lostinmsh/mesh/mesh_lost.py:224-229 | one loop iteration appends the corner's middle arcs and then the edge's line |
| `MeshLost.ChainLoops` | lostinmsh/mesh/mesh_lost.py:222-229 | the loop builds the inner and outer loops |
| `MeshLost.GetLoops` | lostinmsh/mesh/mesh_lost.py:218-234 | adds the negated inner loop and then the outer loop, returning their tags, and changes nothing else |
| `MeshLost.Splits` | lostinmsh/mesh/mesh_lost.py:95-105 | with φ the polygon's elementary angle and all angles in (0, 2), every corner splits into p, q ≥ 2 |
| `MeshLost.InsideWide` | lostinmsh/mesh/mesh_lost.py:95-105 | angles in (0, 2) make every corner wide enough for `_mesh_edge` |
| `MeshLost.PolygonLoopLengths` | lostinmsh/mesh/mesh_lost.py:218-234 | the loop lengths are Σ(p_i − 2) + n and Σ(q_i − 2) + n |
| `MeshLost.ArcsOfSplits` | lostinmsh/mesh/mesh_lost.py:160-169 | the arc counts per corner are the splits' p − 2 and q − 2 |
| `MeshLost.MeshPolygon` | lostinmsh/mesh/mesh_lost.py:99-124 | corners, then edges, each step by step as in `MeshCorners` and `MeshEdges`, then the negated inner loop and the outer loop and the plane surface on the inner loop are added; the result is the outer loop's tag, all cavity surfaces with the new one last, and all vacuum surfaces; succeeds when every corner is wide |
| `MeshLost.TMeshPolygon` | lostinmsh/mesh/mesh_lost.py:90-124 | with r = min(corner_radius, h), N_corner from r and h and φ the polygon's elementary angle, the polygon is meshed as `MeshPolygon` states; for a polygon whose angles lie in (0, 2) meshing succeeds; every corner tag fits its (p, q) split |
| `MeshLost.CornerSurfaceCount` | lostinmsh/mesh/mesh_lost.py:154-169 | a meshed corner adds exactly as many surfaces as its cavity and vacuum lists hold |
| `MeshLost.CornersSurfaceCount` | lostinmsh/mesh/mesh_lost.py:104-108 | the corner loop adds exactly as many surfaces as the concatenated cavity and vacuum lists hold |
| `MeshLost.EdgesSurfaceCount` | lostinmsh/mesh/mesh_lost.py:110-116 | the side loop adds exactly as many surfaces as the concatenated cavity and vacuum lists hold |
| `MeshLost.PolygonSurfaceCount` | lostinmsh/mesh/mesh_lost.py:99-124 | a meshed polygon adds exactly the surfaces it returns, cavity and vacuum (none is lost or left unreported), and the tag it returns is that of the outer loop, the last loop added |
| `MeshLost.PolygonLoops` | lostinmsh/mesh/mesh_lost.py:118-124 | a meshed polygon ends with the negated inner loop and the outer loop, whose tag it returns, and its last cavity surface is the new plane surface on the inner loop |
| `HelperType.DomainTags.constructor` | lostinmsh/mesh/helper_type.py:28 | a table of domain tags |
| `HelperType.DomainTags.UpdateDomainTags` | lostinmsh/mesh/helper_type.py:31-45 | the loop over the added entries leaves the table equal to `Update(old, add)` |
| `HelperType.UpdateSpec` | lostinmsh/mesh/helper_type.py:41-45 | keys are the union; a domain in both gets the old tags followed by the added ones; a domain in one keeps its tags |
| `HelperType.UpdateOne` | lostinmsh/mesh/helper_type.py:42-45 | adding one domain extends its tags when present and inserts them otherwise |
| `HelperType.UpdateEmpty` | lostinmsh/mesh/helper_type.py:31-45 | adding nothing changes nothing; adding to an empty table gives the added table |
| `HelperType.UpdateTwice` | lostinmsh/mesh/helper_type.py:31-45 | two updates in a row are one update with the merged additions |
| `HelperType.RestrictStep` | lostinmsh/mesh/helper_type.py:41-45 | merging one more domain of the addition is one more step of the loop |

## Left out

- gmsh itself: the kernel class records points, lines, loops, surfaces and transfinite settings as tags, and nothing else. Point coordinates, mesh sizes, `to_global` (cos and sin), `linspace` angles, and the session and file handling of the context managers are not modelled.
- `mesh_loc_struct` and the border meshing (`_mesh_border`) are not part of this model: they only chain gmsh calls.
- `print(surfaces_vac)` in `_tmesh_polygon` is output only.
- Floating point: all coordinates are exact reals, so NaN, infinities and round-off do not exist. `Angle.value` (a float times π) and `Angle.latex` are not modelled.
- `norm`/`sqrt` are the `sqrt` parameter; `arctan2` with `limit_denominator` is the `turn` parameter; `numpy.random.shuffle` is the `shuffle` parameter.
- Plotting and the package re-exports are left out.
- Borders.FitCircle: a circumcircle with a zero determinant divides by zero in the source; `smallest_circle` reaches it only for three coincident points, where 0/0 gives a NaN centre and radius (other collinear points would give an infinite radius, but a two-point circle catches them first). The model reports the `NotANumber` error kind instead of producing a border with a NaN or infinite radius.
- Borders.NewBorder: the older `lostinmsh/border.py` border has only `center` and `thickness`; the model gives it the default names of the newer file.
- Geometries.Geometry.MakeCenterOrigin: requires the polygon objects to be distinct; with one polygon listed twice, the source translates it twice. The model also treats the border centre as a vector, whereas negating the tuple centre that `circular()` and `rectangular()` store would raise TypeError in Python.
- MeshLost.MeshEdge: it checks all the indices before adding anything, whereas the source may already have added the interface line when a later index fails.
- MeshLost.TMeshPolygon: requires h > 0 and takes h_corner > 0 as a parameter; the source computes h_corner as sqrt(2·h·r·sin(φ/2)) with r = min(corner_radius, h), so corner_radius < 0 makes it NaN and corner_radius = 0 makes it zero, after which the `round` in `N_edge` fails on a NaN or infinite quotient; at h = 0 the source raises ZeroDivisionError.
- MeshLost.MeshCorners, MeshLost.MeshEdges, MeshLost.MeshPolygon: the kernel state is stated step by step only on success; after a failing corner or side the model state is left unstated (the first failure returns at once, as the exception does).
- SmallestBoundary.SmallestCircle: enclosure is proved for every point when there are at most three, for the last three shuffled hull rows, and for every hull row when the hull has at most three rows; that a larger hull and the points inside it are all enclosed rests on the correctness argument of Welzl's algorithm under the EPS tolerances, which is not modelled.
- Borders.CircularFit, Borders.GetBorder, Geometries.Geometry.FromPolygons, Geometries.Geometry.FromPolygon: for a single point the source raises IndexError inside `smallest_circle` (see Findings); the model fits the corrected circle of radius 0 at that point instead.
- CircularIterable.CircularPairwise, CircularIterable.CircularTriplewise: `start` is a `nat`; a negative start makes `islice` raise ValueError in the source, which the model does not represent.
- HelperType.DomainTags.UpdateDomainTags: tag lists are values, so the aliasing of a newly inserted list with the caller's list is not modelled; the order in which entries are merged is arbitrary, which does not change the result.
- The tie order of `argsort`/`lexsort` among equal keys is not relied on: the model's sort is stable, and only the order of distinct keys is stated.

## Findings

| source | as written | input that shows it | evidently intended | confidence | as-written member | corrected member |
|---|---|---|---|---|---|---|
| lostinmsh/geometry/smallest_boundary.py:36-78 | for n ≤ 1 `convex_hull` returns `arange(n)`, an index array, and `welzl` then reads a numpy integer as a point | `smallest_circle` of a single point, e.g. `[[0.0, 0.0]]`: `_is_inside` indexes a scalar and raises IndexError | the circle of radius 0 at that point, as `trivial_circle` gives for one boundary point | not executed | `SmallestBoundary.SmallestCircleAsWritten` | `SmallestBoundary.SmallestCircle` |
