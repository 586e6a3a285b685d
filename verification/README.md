# A verified model of the uon-team/math 2D polygon kernel

This project is a Dafny model of the planar geometry core of the
`uon-team/math` TypeScript library. It covers:

- **Ear-clipping tessellator** (`Tessellator2`): builds the vertex ring,
  z-order hashing, merge sort of the z-list, ear tests, point filtering,
  local-intersection cure and polygon splitting.
- **Polygon Boolean engine** (`VertexNode` in `Polygon2.ts`): finds the
  crossings of a subject and a clip polygon, splices intersection nodes
  into both vertex lists, flags entry/exit, traces the result rings and
  cleans them.
- **Polygon data model** (`Polygon2`): construction, area and winding,
  reversal, edge segments, point containment, segment intersection,
  closest boundary point, `optimize`.
- **Primitives**: `Segment2`, `Segment3`, `Line2`, `Triangle2`, `Vector2`,
  and the `Vector3` operations the 3D segment uses.
- **Boxes and utilities**: `Box2` and `Box3` (with infinite corners),
  `Utils`, `ConvexHull`, the bookkeeping of `Delaunay`, and the `Path2`
  builder and flattener.

Numbers are exact reals. `Math.fround` is the identity, and JavaScript's
`±Infinity` in box corners is the `ExtReal.Ext` datatype. Integer wrap-around
is written out where the source relies on it: `ToUint32`, `Uint16Array` and
the 32-bit z-order arithmetic.

The tessellator's linked `VertexNode` rings are sequences of original
point indices in `next` order, with the current node first. Every ring of
one run holds each index at most once, so `prev`/`next` are ring positions
and are mutually inverse by construction.

The Boolean engine keeps an arena of nodes and two chains. A chain holds:
- the nodes spliced before the head;
- one run of intersection nodes per edge;
- a sentinel copy of vertex 0.

The tracing phase sees the lists only through the closed loops (`Loops`).

Oracles are passed as function-typed parameters:
- the conic subdivider of `Path2`;
- the circumcircle tests of the Delaunay insertion loop;
- the ear and diagonal tests inside the tessellator's loops. `SourceEnv`
  instantiates them with the source's own geometry, and lemmas connect
  the two.

Modules follow the source files:
- `box2.dfy`, `box3.dfy`, `ext_real.dfy`, `utils.dfy`;
- `vector2.dfy`, `vector3.dfy`, `triangle2.dfy`, `line2.dfy`, `segment2.dfy`, `segment3.dfy`;
- `polygon2.dfy`, `vertex_node.dfy`, `polygon_boolean.dfy`;
- `zorder.dfy`, `linked_sort.dfy`, `tess_geometry.dfy`, `tess_ring.dfy`, `tess_ear.dfy`, `tess_filter.dfy`, `tess_split.dfy`, `tessellator2.dfy`;
- `convex_hull.dfy`, `delaunay.dfy`, `delaunay_edges.dfy`, `path2.dfy`;
- `wrappers.dfy` and `seq_util.dfy` hold shared helpers.

Two behaviours of `Polygon2` are modelled as the code has them:
- `Boolean` handles disjoint or nested polygons in an `else` branch that is
  commented out (src/Polygon2.ts:640-696). Polygons whose edges never cross
  therefore give an empty result for every operation
  (`PolygonBoolean.BooleanNoCrossing`).
- The constructor, `reverseOrder`, `offset`, `optimize` and `copy` call
  `computeAll()` (src/Polygon2.ts:270, 317, 556, 599, 713). `translate`
  (src/Polygon2.ts:485-500) moves only the points and the cached center, so
  the cached bounds, segments and area keep their old values.

## Model

| member | source | states |
|---|---|---|
| Box2.Empty | src/Box2.ts:54-61 | the empty box (min at +Infinity, max at -Infinity) contains no point |
| Box2.ContainsPointBetweenCorners | src/Box2.ts:98-109 | containsPoint holds exactly when min <= p <= max on both axes |
| Box2.Expand | src/Box2.ts:146-153 | the expanded box contains the new point, the old box and every point the old box contained |
| Box2.Merge | src/Box2.ts:168-175 | the merged box contains both boxes |
| Box2.MergeIsLeast | src/Box2.ts:168-175 | any box containing both boxes contains their merge: merge is the least upper bound |
| Box2.SetFromPoints | src/Box2.ts:37-49 | the box set from points contains every one of them |
| Box2.SetFromPointsTight | src/Box2.ts:37-49 | for a nonempty list each of the four bounds is attained by some point, and the box is nonempty |
| Box2.Copy | src/Box2.ts:189-196 | as written: min is copied, and each coordinate of max is the larger of the target's and the source's, so the result covers both maxima and contains the source |
| Box2.CopyCounterexample | src/Box2.ts:189-196 | copying a unit box into a 5x5 box leaves the 5x5 box unchanged, so the result differs from the source |
| Box2.CopyCorrected | src/Box2.ts:189-196 | the intended copy equals its source |
| Box2.CloneIsExact | src/Box2.ts:180-184 | clone copies into a fresh empty box, where the max.max bug cannot show: the clone equals the original |
| Box2.GetCenter | src/Box2.ts:76-81 | a center exists exactly when all corners are finite (an infinite corner gives an infinite or NaN coordinate), and it is the midpoint: as far from min as from max |
| Box2.GetSize | src/Box2.ts:87-92 | a size exists exactly when all corners are finite |
| Box2.CenterAndSize | src/Box2.ts:76-92 | for a finite nonempty box the center lies inside it, the size is nonnegative, min + size == max and the center is min + size / 2 |
| Box2.Scale | src/Box2.ts:158-163 | scaling fails (NaN) exactly when the factor is 0 and a corner is infinite; finite boxes stay finite |
| Box2.ScalePositive | src/Box2.ts:158-163 | under a positive factor p is in the box iff p*s is in the scaled box |
| Box2.ScaleNegativeEmpties | src/Box2.ts:158-163 | a negative factor swaps min and max, so a box with positive width then contains no point |
| Box2.IntersectsSymmetric | src/Box2.ts:132-141 | box intersection is symmetric |
| Box2.ContainsBoxIntersects | src/Box2.ts:115-141 | a box containing a nonempty box intersects it |
| Box3.Empty | src/Box3.ts:63-70 | the empty 3D box contains no point |
| Box3.ContainsPointBetweenCorners | src/Box3.ts:107-119 | containsPoint holds exactly when min <= p <= max on all three axes |
| Box3.Expand | src/Box3.ts:160-167 | the expanded box contains the new point, the old box and all its points |
| Box3.Merge | src/Box3.ts:182-189 | the merged box contains both boxes |
| Box3.MergeIsLeast | src/Box3.ts:182-189 | any box containing both contains their merge |
| Box3.SetFromPoints | src/Box3.ts:46-58 | the box contains every point it was set from |
| Box3.SetFromPointsTight | src/Box3.ts:46-58 | each of the six bounds is attained by some point, and the box is nonempty |
| Box3.Copy | src/Box3.ts:203-210 | as written: min is copied, and each coordinate of max is the larger of the target's and the source's, so the result covers both maxima and contains the source |
| Box3.CopyCounterexample | src/Box3.ts:203-210 | a concrete pair of boxes where copy does not produce the source |
| Box3.CopyCorrected | src/Box3.ts:203-210 | the intended copy equals its source |
| Box3.CloneIsExact | src/Box3.ts:194-198 | clone (copy into an empty box) equals the original |
| Box3.GetCenter | src/Box3.ts:84-89 | a center exists exactly when all corners are finite, and it is the midpoint: as far from min as from max |
| Box3.GetSize | src/Box3.ts:95-100 | a size exists exactly when all corners are finite |
| Box3.CenterAndSize | src/Box3.ts:84-100 | the center of a finite nonempty box lies inside it, the size is nonnegative, min + size == max and the center is min + size / 2 |
| Box3.Scale | src/Box3.ts:172-177 | scaling fails exactly when the factor is 0 and a corner is infinite |
| Box3.ScalePositive | src/Box3.ts:172-177 | under a positive factor p is in the box iff p*s is in the scaled box |
| Box3.ScaleNegativeEmpties | src/Box3.ts:172-177 | a negative factor empties a box with positive width |
| Box3.IntersectsSymmetric | src/Box3.ts:145-155 | box intersection is symmetric |
| Box3.ContainsBoxIntersects | src/Box3.ts:126-155 | a box containing a nonempty box intersects it |
| ExtReal.LtIsStrictTotalOrder | src/Box2.ts:98-109 | JavaScript's `<` on finite numbers and ±Infinity is a strict total order |
| ExtReal.Min | src/Box2.ts:146-153 | Math.min over extended reals is a lower bound of both arguments and one of them |
| ExtReal.Max | src/Box2.ts:146-153 | Math.max over extended reals is an upper bound of both arguments and one of them |
| ExtReal.Scale | src/Box2.ts:158-163 | multiplying is undefined (NaN) exactly for an infinity times zero, and exact on finite values |
| ExtReal.ScaleOrder | src/Box2.ts:158-163 | a positive factor preserves `<`, a negative one reverses it |
| ExtReal.ScaleBetween | src/Box2.ts:158-163 | x is between two bounds iff x*s is between the scaled bounds, for s > 0 |
| Utils.IsNearEqualDistance | src/Utils.ts:70-72 | IsNearEqual(a, b, eps) iff abs(a - b) < eps, and it is symmetric |
| Utils.GetSign | src/Utils.ts:79-82 | the sign is -1 exactly for negative values, else 1, and sign * v == abs(v) |
| Utils.BitAndPredecessor | src/Utils.ts:61-63 | for v > 0, v & (v-1) == 0 iff v is a power of two |
| Utils.IsPowerOfTwoCorrect | src/Utils.ts:61-63 | within the uint32 range IsPowerOfTwo holds exactly for the powers of two |
| Utils.IsPowerOfTwoWraps | src/Utils.ts:61-63 | as written: 3 * 2^32 passes the test because ToUint32 wraps it to 0, though it is no power of two |
| Utils.IsPowerOfTwoNegative | src/Utils.ts:61-63 | as written: -2^31 passes the test |
| Utils.Trunc | src/Utils.ts:61-63 | ToInt32's truncation toward zero: the result is within one of the argument, on the zero side |
| Utils.IsPowerOfTwoNumberIntegral | src/Utils.ts:61-63 | on integral numbers the test on a real argument agrees with the integer test |
| Utils.IsPowerOfTwoFractions | src/Utils.ts:61-63 | as written: 0.3 and 1.5 pass, since the operands are truncated before the bitwise and |
| Utils.IsPowerOfTwoCorrectedCorrect | src/Utils.ts:61-63 | the corrected test holds exactly for the positive powers of two, and agrees with the source within the uint32 range |
| Utils.AngleRoundTrip | src/Utils.ts:44-55 | ToDegrees and ToRadians are inverse to each other |
| Triangle2.CCWIffSignedAreaNonPositive | src/Triangle2.ts:9-17 | CCW holds exactly when GetSignedArea is <= 0 (collinear triples count as CCW) |
| Triangle2.SignedAreaSymmetries | src/Triangle2.ts:9-11 | rotating the vertices keeps the signed area; swapping two negates it |
| Triangle2.SignedAreaDegenerate | src/Triangle2.ts:9-11 | a triangle with a repeated vertex has zero signed area |
| Triangle2.SignedAreaIsShoelace | src/Triangle2.ts:9-11 | GetSignedArea is minus twice the shoelace area of the triangle |
| Line2.Solve | src/Line2.ts:19-39 | no intersection exactly when abs(det) < EPSILON; otherwise the result lies on both lines |
| Line2.IntersectLines | src/Line2.ts:19-39 | the lines through p0p1 and p2p3 meet in a point on both unless they are near-parallel |
| Line2.OnLineIffCollinear | src/Line2.ts:19-39 | a point is on the line through p0 and p1 iff it is collinear with them |
| Line2.IntersectionIsCollinear | src/Line2.ts:19-39 | the intersection point is collinear with both input pairs |
| Line2.IntersectLinesSwap | src/Line2.ts:19-39 | exchanging the two lines gives the same result |
| Line2.IntersectLinesReverse | src/Line2.ts:19-39 | reversing either line's two points gives the same result |
| Line2.SolveNegateFirst | src/Line2.ts:19-39 | negating one line's equation changes neither the near-parallel test nor the solution |
| Vector2.EqualsIsIdentity | src/Vector2.ts:65-69 | equals is structural equality |
| Vector2.AddSubInverse | src/Vector2.ts:84-102 | subtract undoes add and add undoes subtract |
| Vector2.Negate | src/Vector2.ts:71-78 | v + negate(v) is the zero vector |
| Vector2.DivScalar | src/Vector2.ts:140-158 | dividing by s != 0 is undone by multiplying by s; dividing by 0 gives the zero vector |
| Vector2.Min | src/Vector2.ts:226-242 | min is a componentwise lower bound attained by one of the inputs |
| Vector2.Max | src/Vector2.ts:248-260 | max is a componentwise upper bound attained by one of the inputs |
| Vector2.Lerp | src/Vector2.ts:196-201 | lerp is v at 0 and w at 1, and moves along w - v in proportion to alpha |
| Vector2.LengthSqZero | src/Vector2.ts:178-181 | the squared length is positive exactly for nonzero vectors |
| Vector2.ComputeAreaIsShoelace | src/Vector2.ts:401-415 | the trapezoid sum of ComputeArea equals the shoelace signed area |
| Vector2.ComputeAreaReverse | src/Vector2.ts:401-415 | reversing the points negates the computed area |
| Vector2.ShoelaceReverse | src/Vector2.ts:401-415 | the shoelace area of the reversed ring is the negated area |
| Vector2.ComputeCentroid | src/Vector2.ts:332-374 | a centroid exists exactly for a nonempty ring of nonzero area |
| Vector2.ComputeCenterOfMass | src/Vector2.ts:376-399 | as written: defined exactly when the open cross sum (no closing edge) is nonzero |
| Vector2.CenterOfMassTriangleCounterexample | src/Vector2.ts:332-399 | on the unit right triangle the centroid is (1/3, 1/3) but the center of mass as written is (1/6, 1/6) |
| Vector2.CenterOfMassOfClosedIsHalfCentroid | src/Vector2.ts:332-399 | even with the ring closed explicitly, the center of mass as written is half the centroid |
| Vector2.CenterOfMassCorrected | src/Vector2.ts:376-399 | the corrected center of mass is defined exactly when the centroid is |
| Vector2.CenterOfMassCorrectedIsCentroid | src/Vector2.ts:332-399 | the corrected center of mass equals the centroid on every input |
| Vector2.CenterOfMassCorrectedTriangle | src/Vector2.ts:376-399 | for a nondegenerate triangle the corrected center of mass is the mean of the three corners |
| Vector3.LengthSqZero | src/Vector3.ts:305-309 | the squared length is positive exactly for nonzero vectors |
| Vector3.DistanceSqSymmetric | src/Vector3.ts:290-297 | the squared distance is symmetric |
| Segment2.Inverse | src/Segment2.ts:32-37 | the inverse swaps the endpoints |
| Segment2.InverseInvolution | src/Segment2.ts:32-37 | inverting twice gives the segment back |
| Segment2.Intersect | src/Segment2.ts:309-374 | a point is returned iff neither segment has both endpoints strictly on one side of the other's line and the lines are not parallel |
| Segment2.IntersectValue | src/Segment2.ts:309-374 | the returned point is the Cramer solution of the two line equations |
| Segment2.IntersectIsLineIntersection | src/Segment2.ts:309-374 | the returned point is Line2's solution for the same two lines |
| Segment2.IntersectOnBothLines | src/Segment2.ts:309-374 | the returned point lies on both supporting lines |
| Segment2.FastIntersectsSymmetric | src/Segment2.ts:296-300 | the fast test does not depend on the order of the segments |
| Segment2.FastIntersectsImpliesIntersect | src/Segment2.ts:296-374 | when the fast test passes, Intersect returns a point |
| Segment2.IntersectsAgreesWithIntersect | src/Segment2.ts:43-155 | for non-parallel segments the `intersects` test agrees exactly with Intersect |
| Segment2.IntersectImpliesIntersects | src/Segment2.ts:43-155 | whenever Intersect finds a point, `intersects` holds |
| Segment2.IntersectsParallel | src/Segment2.ts:43-117 | for parallel segments `intersects` holds iff both are proper, they are collinear and their x and y ranges meet |
| Segment2.GetClosestPoint | src/Segment2.ts:262-286 | a closest point exists exactly when the segment has distinct endpoints |
| Segment2.ComputeDistanceSq | src/Segment2.ts:382-425 | the squared point-segment distance is nonnegative |
| Segment2.DistanceSqAtStart | src/Segment2.ts:382-425 | the distance from the start point is 0 |
| Segment2.DistanceSqAtEnd | src/Segment2.ts:382-425 | the distance from the end point is 0 |
| Segment2.DistanceSqIsClosest | src/Segment2.ts:262-286 | ComputeDistanceSq equals the squared distance to the clamped closest point |
| Segment2.ClosestPointIsFoot | src/Segment2.ts:262-286 | without clamping the closest point is on the line and p - q is orthogonal to the segment |
| Segment2.ClosestPointClamp | src/Segment2.ts:262-286 | with clamping the result is p1 before the start, p2 past the end and the foot in between |
| Segment2.GetPointAt | src/Segment2.ts:183-190 | getPointAt is p1 at 0 and p2 at 1, and moves along the segment in proportion to t |
| Segment2.GetPointAtOnLine | src/Segment2.ts:183-190 | every point getPointAt yields lies on the segment's line |
| Segment2.Translate | src/Segment2.ts:210-215 | translating keeps the direction and moves both endpoints by v |
| Segment2.TranslateKeepsDistance | src/Segment2.ts:210-215 | translating segment and point together keeps their distance, and translating by -v undoes it |
| Segment2.IsPerpendicularSymmetric | src/Segment2.ts:158-164 | perpendicularity is symmetric and does not depend on the direction of either segment |
| Segment2.GetSegmentDistanceSq | src/Segment2.ts:250-256 | the result is the smaller of the distances from the other segment's two endpoints |
| Segment2.GetSegmentDistanceSqShared | src/Segment2.ts:250-256 | segments sharing an endpoint are at distance 0 |
| Segment2.GetSegmentDistanceSqInverse | src/Segment2.ts:250-256 | inverting the other segment does not change the distance |
| Segment3.Inverse | src/Segment3.ts:35-40 | the inverse swaps the endpoints |
| Segment3.InverseInvolution | src/Segment3.ts:35-40 | inverting twice gives the segment back |
| Segment3.GetClosestPoint | src/Segment3.ts:175-199 | a closest point exists exactly when the endpoints differ |
| Segment3.ComputeDistanceSq | src/Segment3.ts:215-263 | the squared point-segment distance is nonnegative |
| Segment3.DistanceSqAtStart | src/Segment3.ts:215-263 | the distance from the start point is 0 |
| Segment3.DistanceSqAtEnd | src/Segment3.ts:215-263 | the distance from the end point is 0 |
| Segment3.DistanceSqIsClosest | src/Segment3.ts:175-263 | ComputeDistanceSq equals the squared distance to the clamped closest point |
| Segment3.ClosestPointIsFoot | src/Segment3.ts:175-199 | without clamping the closest point is the orthogonal projection onto the line |
| Segment3.ClosestPointClamp | src/Segment3.ts:175-199 | with clamping the result is p1 before the start, p2 past the end and the foot in between |
| Segment3.GetPointAt | src/Segment3.ts:89-94 | getPointAt is p1 at 0 and p2 at 1, and moves along the segment in proportion to t |
| Segment3.Translate | src/Segment3.ts:114-119 | translating keeps the direction and moves both endpoints by v |
| Segment3.TranslateKeepsDistance | src/Segment3.ts:114-119 | translating segment and point together keeps their distance, and translating back undoes it |
| Segment3.IsPerpendicularSymmetric | src/Segment3.ts:47-53 | the tolerance test is symmetric and does not depend on direction |
| Segment3.GetSegmentDistanceSq | src/Segment3.ts:163-169 | the result is the smaller of the distances from the other segment's endpoints |
| Segment3.GetSegmentDistanceSqShared | src/Segment3.ts:163-169 | segments sharing an endpoint are at distance 0 |
| Polygon2.New | src/Polygon2.ts:256-272 | construction succeeds exactly with at least three points, and keeps them in order |
| Polygon2.Area | src/Polygon2.ts:751-760 | the area is the absolute value of the signed area |
| Polygon2.Bounds | src/Polygon2.ts:292-294 | the bounds contain every vertex |
| Polygon2.SignedAreaIsShoelace | src/Polygon2.ts:762-779 | the signed-area loop equals the shoelace formula and Vector2.ComputeArea |
| Polygon2.TriangleSignedArea | src/Polygon2.ts:762-779 | on a triangle the signed area is -GetSignedArea/2, tying the polygon and triangle conventions together |
| Polygon2.ReverseOrder | src/Polygon2.ts:313-320 | reversing keeps validity and puts the i-th point at n-1-i |
| Polygon2.ReverseOrderArea | src/Polygon2.ts:313-320 | reversal negates the signed area and keeps the area |
| Polygon2.ReverseOrderWinding | src/Polygon2.ts:306-320 | reversing a polygon of nonzero area flips `clockwise` |
| Polygon2.ReverseOrderInvolution | src/Polygon2.ts:313-320 | reversing twice gives the polygon back |
| Polygon2.ToSegments | src/Polygon2.ts:326-348 | one segment per vertex, from that vertex to the next, the last closing back to the first |
| Polygon2.ToggleFrom | src/Polygon2.ts:355-374 | the loop's flag ends toggled once per crossing edge |
| Polygon2.ContainsPoint | src/Polygon2.ts:355-374 | a point is inside iff an odd number of edges cross the horizontal ray from it |
| Polygon2.CrossesSymmetric | src/Polygon2.ts:355-374 | whether an edge crosses the ray does not depend on its direction |
| Polygon2.CrossPointOnEdgeLine | src/Polygon2.ts:355-374 | the x-coordinate the test compares against is the edge's own crossing with the ray's line |
| Polygon2.CrossingsFromIsCount | src/Polygon2.ts:355-374 | the recursive crossing count equals the number of crossing edges |
| Polygon2.ContainsPointReverse | src/Polygon2.ts:313-374 | containment does not depend on the winding: reversing the polygon gives the same answer |
| Polygon2.EdgeHitIsIntersect | src/Polygon2.ts:380-414 | the overlap pre-test never discards a point Intersect finds, so each edge's hit is its Intersect result |
| Polygon2.ClosestHit | src/Polygon2.ts:380-414 | None iff no hit is nearer than MAX_VALUE; otherwise the nearest hit, the first on ties |
| Polygon2.Hits | src/Polygon2.ts:380-414 | one hit per edge, in ring order |
| Polygon2.IntersectSegment | src/Polygon2.ts:380-414 | the boundary crossing of the segment nearest its start, or None when no edge yields a point |
| Polygon2.EdgeDistances | src/Polygon2.ts:420-455 | one squared distance per edge, each the point-segment distance and nonnegative |
| Polygon2.FindFirstMinimum | src/Polygon2.ts:420-455 | -1 iff no distance is below MAX_VALUE; otherwise the first strict minimum |
| Polygon2.FirstMinimumUnique | src/Polygon2.ts:420-455 | the first minimum is unique |
| Polygon2.GetClosestBoundaryPoint | src/Polygon2.ts:420-455 | None iff no edge is in range or the nearest edge is degenerate; otherwise the nearest edge's closest point, no farther than any edge |
| Polygon2.KeptMembers | src/Polygon2.ts:565-601 | a point survives the filter iff some vertex equal to it is not redundant against its original neighbours |
| Polygon2.Optimize | src/Polygon2.ts:565-601 | keeps exactly the non-redundant vertices (neither equal to the next nor collinear within 1e-4), never adds any |
| VertexNode.CreateLinkedList | src/Polygon2.ts:90-109 | one node per point, carrying it, not an intersection, with alpha 0 |
| VertexNode.InitLists | src/Polygon2.ts:90-151 | the subject and clip lists start as their vertices in order followed by a sentinel copy of vertex 0 |
| VertexNode.StopIndex | src/Polygon2.ts:75-88 | the insertion walk stops at the first node whose alpha is not below the new node's |
| VertexNode.InsertBetween | src/Polygon2.ts:75-88 | insertion keeps the chain's layout and its ids in the arena |
| VertexNode.InsertBetweenPositive | src/Polygon2.ts:75-88 | a node with alpha > 0 goes into its edge's run in alpha order, nothing else moves, and sorted runs stay sorted |
| VertexNode.InsertBetweenAtStart | src/Polygon2.ts:75-88 | a node with alpha <= 0 lands before `first`: at the end of the previous edge's run, or before the head on edge 0 |
| VertexNode.InsertBetweenCount | src/Polygon2.ts:75-88 | insertion adds exactly one occurrence of the new node and nothing else |
| VertexNode.InsertBetweenFresh | src/Polygon2.ts:75-88 | inserting a fresh node keeps the list free of repeats |
| VertexNode.IntersectDistinct | src/Polygon2.ts:111-151 | a crossing is only found between proper edges |
| VertexNode.AlphaOf | src/Polygon2.ts:111-151 | the position along an edge is nonnegative and zero exactly at the edge's start |
| VertexNode.EdgeStep | src/Polygon2.ts:111-151 | one edge pair keeps the well-formedness invariant, only appends to the arena, and reports exactly whether the edges cross |
| VertexNode.StepWellFormed | src/Polygon2.ts:111-151 | splicing a fresh mutual-neighbour pair into both lists keeps the invariant |
| VertexNode.ClipLoop | src/Polygon2.ts:111-151 | the inner loop keeps the invariant and reports whether any remaining clip edge crosses |
| VertexNode.SubjectLoop | src/Polygon2.ts:111-151 | the outer loop keeps the invariant and reports whether any remaining pair crosses |
| VertexNode.InitWellFormed | src/Polygon2.ts:90-151 | the initial lists satisfy the invariant |
| VertexNode.IdentifyIntersections | src/Polygon2.ts:111-151 | the result is well-formed, and the flag is set iff some subject edge crosses some clip edge |
| VertexNode.NextNonIntersection | src/Polygon2.ts:41-47 | the first non-intersection node of a list, or None when all are intersection nodes |
| VertexNode.NextNonIntersectionSkips | src/Polygon2.ts:41-47 | leading intersection nodes are skipped |
| VertexNode.EdgeNext | src/Polygon2.ts:111-151 | from an original vertex the next original vertex is i+1, or the sentinel after the last, whatever was spliced |
| PolygonBoolean.Ring | src/Polygon2.ts:57-61 | the closed ring starts at the list's first vertex and names only arena nodes |
| PolygonBoolean.CloseOk | src/Polygon2.ts:57-61 | closing both lists gives loops with a handle and nodes past it |
| PolygonBoolean.StepAt | src/Polygon2.ts:57-61 | after createLoop, following next or prev from a list position is the chain's own link |
| PolygonBoolean.RingLinksInverse | src/Polygon2.ts:57-61 | on the closed ring, prev undoes next and next undoes prev |
| PolygonBoolean.OrphanLinks | src/Polygon2.ts:57-61 | a node spliced before the head still points forward into the list, but the first has no prev |
| PolygonBoolean.SetEntriesParity | src/Polygon2.ts:154-180 | an intersection node is flagged with the seed iff an even number of intersection nodes precede it |
| PolygonBoolean.SetEntriesHead | src/Polygon2.ts:154-180 | the first intersection node gets the seed |
| PolygonBoolean.EntriesAlternate | src/Polygon2.ts:154-180 | consecutive intersection nodes get opposite flags |
| PolygonBoolean.IdentifyIntersectionType | src/Polygon2.ts:154-180 | flagging changes only entry flags |
| PolygonBoolean.EntryParity | src/Polygon2.ts:154-180 | along either ring the flag is the list's seed, toggled by the parity of earlier crossings, untouched by the other list |
| PolygonBoolean.EntryAlternates | src/Polygon2.ts:154-180 | consecutive intersection nodes of a ring get opposite entry flags |
| PolygonBoolean.Walk | src/Polygon2.ts:183-214 | a finished walk marks its start and stops at a visited intersection node |
| PolygonBoolean.WalkPoints | src/Polygon2.ts:183-214 | a walk collects exactly the points of the non-intersection nodes it passes |
| PolygonBoolean.WalkFollowsLinks | src/Polygon2.ts:183-214 | a walk follows the links from its start to where it stops |
| PolygonBoolean.OrphanWalk | src/Polygon2.ts:57-214 | walking backward from a node spliced before the head reads a missing prev: NullLink |
| PolygonBoolean.FirstNodeOfInterest | src/Polygon2.ts:63-73 | an unvisited intersection node of the subject loop, or None iff there is none |
| PolygonBoolean.Trace | src/Polygon2.ts:183-214 | tracing marks its start, only adds visited marks, and a ring from an unvisited node starts with that node's point |
| PolygonBoolean.KeepNoAdjacent | src/Polygon2.ts:216-228 | the reference filter leaves no two equal adjacent points |
| PolygonBoolean.KeepFixed | src/Polygon2.ts:216-228 | the filter changes a list iff it has adjacent duplicates |
| PolygonBoolean.CleanDownKeep | src/Polygon2.ts:216-228 | the backward splice loop computes the reference filter |
| PolygonBoolean.Clean | src/Polygon2.ts:216-228 | Clean equals the reference filter: each point dropped iff the next one equals it |
| PolygonBoolean.Collect | src/Polygon2.ts:183-214 | collection ends with no intersection node of interest left; rings are nonempty, clean and at most one per node |
| PolygonBoolean.ToPolygons | src/Polygon2.ts:698 | succeeds iff every ring has three points, giving one polygon per ring with its points |
| PolygonBoolean.ToPolygonsValid | src/Polygon2.ts:698 | cleaned rings give valid polygons without adjacent duplicates |
| PolygonBoolean.Boolean | src/Polygon2.ts:605-699 | every polygon of a successful result is valid and has no adjacent duplicate points |
| PolygonBoolean.BooleanNoCrossing | src/Polygon2.ts:605-699 | polygons whose edges never cross give an empty result for every operation |
| ZBits.SpreadBits | src/Tessellator2.ts:577-597 | the shift-and-mask steps put bit i of x at bit 2i and clear the odd bits |
| ZBits.InterleaveIsMorton | src/Tessellator2.ts:577-597 | the bitwise interleave of two 15-bit coordinates is their Morton number |
| ZBits.MortonStrict | src/Tessellator2.ts:577-597 | the Morton order strictly respects the componentwise order of distinct points |
| ZBits.MortonMonotone | src/Tessellator2.ts:577-597 | the Morton order respects the componentwise order |
| ZBits.MortonBelow | src/Tessellator2.ts:577-597 | 15-bit coordinates give keys below 2^30, so int32 comparison is exact |
| ZOrder.FrameOf | src/Tessellator2.ts:279-298 | the frame has nonnegative size and contains every point |
| ZOrder.ScaleRange | src/Tessellator2.ts:577-597 | a point in the frame scales into 0..32767 |
| ZOrder.CoordMonotone | src/Tessellator2.ts:577-597 | truncation is monotone and stays below 2^15 |
| ZOrder.KeyIsBitwise | src/Tessellator2.ts:577-597 | the literal bit-twiddling key equals the Morton key of the scaled point, and it is below 2^30 |
| ZOrder.KeyMonotone | src/Tessellator2.ts:577-597 | the z-order key respects the componentwise order of points in the frame |
| LinkedSort.MergeCount | src/Tessellator2.ts:524-574 | a merge holds each element as often as both runs together |
| LinkedSort.SortLinkedPermutes | src/Tessellator2.ts:524-574 | sortLinked permutes its input |
| LinkedSort.MergeSorted | src/Tessellator2.ts:524-574 | merging sorted runs gives a sorted run |
| LinkedSort.PassRuns | src/Tessellator2.ts:524-574 | one pass turns sorted runs of width w into sorted runs of width 2w |
| LinkedSort.SortLinkedSorted | src/Tessellator2.ts:524-574 | sortLinked sorts by key |
| LinkedSort.MergeStable | src/Tessellator2.ts:524-574 | merging keeps the relative order of equal keys |
| LinkedSort.SortLinkedStable | src/Tessellator2.ts:524-574 | sortLinked is stable: equal keys keep their input order |
| TessRing.Advance | src/Tessellator2.ts:329-383 | moving to `next` keeps the ring's length and nodes |
| TessRing.AdvanceDistinct | src/Tessellator2.ts:329-383 | moving to `next` keeps the nodes distinct |
| TessRing.Rotate | src/Tessellator2.ts:329-383 | rotating keeps the ring's length and nodes |
| TessRing.RemoveDistinct | src/Tessellator2.ts:432-439 | removeNode takes out exactly the current node and keeps the rest distinct |
| TessRing.InsertAllShape | src/Tessellator2.ts:415-430 | inserting after the last inserted node builds the ring in insertion order |
| TessRing.CreateLinkedListOrder | src/Tessellator2.ts:387-413 | clockwise input gives 0, n-1 .. 1, otherwise n-1, 0 .. n-2; a leading node equal to its next is dropped |
| TessRing.CreateLinkedListRing | src/Tessellator2.ts:387-413 | the initial ring names distinct indices below n and has n-1 or n nodes |
| TessRing.Keep | src/Tessellator2.ts:432-439 | the z-list after removals holds exactly the surviving ring nodes |
| TessRing.KeepSorted | src/Tessellator2.ts:432-439 | splicing nodes out keeps the z-list sorted and distinct |
| TessRing.ZIndexedSortLinked | src/Tessellator2.ts:508-574 | indexCurve leaves the z-list sorted by key, with each ring node once |
| TessRing.ZIndexedKeep | src/Tessellator2.ts:432-439 | the z-list stays indexed as nodes are removed |
| TessGeometry.TermsSum | src/Tessellator2.ts:697-701 | the three edge terms of the point-in-triangle test sum to minus the triangle's signed area |
| TessGeometry.InTriangleBounds | src/Tessellator2.ts:697-701 | a point inside a proper triangle lies within its bounding box |
| TessGeometry.IntersectsAdjacent | src/Tessellator2.ts:719-726 | edges sharing a vertex "intersect" iff they fold back or turn with positive area |
| TessGeometry.IntersectsSelf | src/Tessellator2.ts:719-726 | an edge meets its reverse, and a proper edge does not meet itself |
| TessGeometry.LocallyInsideNext | src/Tessellator2.ts:728-732 | a diagonal to the next node is locally inside iff the corner turns with negative area |
| TessEar.EarScan | src/Tessellator2.ts:484-506 | the scan passes iff no later node blocks the ear |
| TessEar.IsEar | src/Tessellator2.ts:484-506 | a corner is an ear iff it is convex and no other ring node blocks it |
| TessEar.ScanUpFinds | src/Tessellator2.ts:442-482 | the upward z scan fails if a blocker is in range above |
| TessEar.ScanDownFinds | src/Tessellator2.ts:442-482 | the downward z scan fails if a blocker is in range below |
| TessEar.HashBlocksAt | src/Tessellator2.ts:442-482 | the hashed blocker test on a ring node is the plain blocker test |
| TessEar.BlockerKeyInRange | src/Tessellator2.ts:442-482 | a blocker inside the triangle has its key within the triangle's key range |
| TessEar.NoHashBlocker | src/Tessellator2.ts:442-482 | with no plain blocker, no z-list node blocks in the hashed test |
| TessEar.HashedAccepts | src/Tessellator2.ts:442-482 | every ear passes the hashed test |
| TessEar.HashedRejects | src/Tessellator2.ts:442-482 | a blocked convex corner fails the hashed test |
| TessEar.EarHashedIsEar | src/Tessellator2.ts:442-506 | the hashed and the plain ear test agree on every indexed ring |
| TessFilter.RemovableRemovesFolds | src/Tessellator2.ts:646-667 | the source's test removes every node whose prev and next coincide |
| TessFilter.FilterLoop | src/Tessellator2.ts:646-667 | the filter returns a nonempty ring no longer than its input, or null |
| TessFilter.FilterLoopAtLeastThree | src/Tessellator2.ts:646-667 | whatever survives filtering has at least three nodes |
| TessFilter.FilterLoopNodes | src/Tessellator2.ts:646-667 | filtering only removes nodes and keeps them distinct |
| TessFilter.FilterDropped | src/Tessellator2.ts:646-667 | every node the filter drops was removable at the moment it was dropped, judged on its own position |
| TessFilter.FilterDroppedIn | src/Tessellator2.ts:646-667 | only nodes of the ring are dropped |
| TessFilter.FilterAccounts | src/Tessellator2.ts:646-667 | on success every node of the ring is either kept or dropped, and kept plus dropped is the ring's length |
| TessFilter.FilterClean | src/Tessellator2.ts:646-667 | after a full filter no node would be removed |
| TessFilter.FilterOfClean | src/Tessellator2.ts:646-667 | filtering a clean ring returns it unchanged |
| TessFilter.FilterIdempotent | src/Tessellator2.ts:646-667 | filtering twice equals filtering once |
| TessFilter.CureNeedsFour | src/Tessellator2.ts:669-691 | the cure test can only fire on rings of at least four nodes |
| TessFilter.CureLoop | src/Tessellator2.ts:669-691 | the cure emits three indices (one triangle) for every two nodes it removes, and leaves a nonempty ring, of at least two nodes when it started with two |
| TessFilter.CureLoopTriangles | src/Tessellator2.ts:669-691 | the cure emits whole triangles |
| TessFilter.CureLoopMembers | src/Tessellator2.ts:669-691 | the cure only emits and keeps nodes of the ring |
| TessFilter.CureLoopDistinct | src/Tessellator2.ts:669-691 | the cured ring keeps its nodes distinct |
| TessFilter.CureOfUncrossed | src/Tessellator2.ts:669-691 | a ring where the test never fires is returned unchanged with no output |
| TessSplit.HitFrom | src/Tessellator2.ts:708-717 | the scan finds a crossing iff some remaining edge crosses the diagonal |
| TessSplit.IntersectsPolygon | src/Tessellator2.ts:708-717 | a diagonal crosses the polygon iff some edge crosses it |
| TessSplit.MidFlags | src/Tessellator2.ts:734-747 | one crossing flag per edge against the diagonal's midpoint |
| TessSplit.MiddleFrom | src/Tessellator2.ts:734-747 | the flag toggles once per crossing edge |
| TessSplit.MiddleInside | src/Tessellator2.ts:734-747 | the midpoint is inside iff an odd number of edges cross its ray |
| TessSplit.MidCrossesIsCrosses | src/Tessellator2.ts:734-747 | the tessellator's crossing test is Polygon2's with the edge reversed |
| TessSplit.MiddleInsideContains | src/Tessellator2.ts:734-747 | isMiddleInside agrees with Polygon2.containsPoint on the ring's points |
| TessSplit.SearchB | src/Tessellator2.ts:599-623 | the inner search returns the first valid diagonal end, or None iff there is none |
| TessSplit.SearchA | src/Tessellator2.ts:599-623 | the outer search returns a valid diagonal, or None iff no rotation has one |
| TessSplit.SearchAFirst | src/Tessellator2.ts:599-623 | the diagonal found is the first in search order |
| TessSplit.SplitRings | src/Tessellator2.ts:625-644 | both halves are smaller rings of at least three nodes, with sizes that add up to n+2 |
| TessSplit.SplitRingsCover | src/Tessellator2.ts:625-644 | together the halves hold exactly the ring's nodes |
| TessSplit.SplitRingsDistinct | src/Tessellator2.ts:625-644 | each half is distinct, and they share exactly the diagonal's two ends |
| Tessellator2.Oriented | src/Tessellator2.ts:279-298 | the oriented polygon is valid with the same number of points |
| Tessellator2.OrientedClockwise | src/Tessellator2.ts:279-298 | the constructor leaves the polygon clockwise, with the same points |
| Tessellator2.Process | src/Tessellator2.ts:300-326 | processing fails exactly with fewer than three points |
| Tessellator2.ProcessListFits | src/Tessellator2.ts:329-383 | processList emits whole triangles of ring nodes, at most n-2 of them |
| Tessellator2.ClipLoopFits | src/Tessellator2.ts:329-383 | the ear loop emits whole triangles of ring nodes, at most n-2 of them |
| Tessellator2.SplitNodeFits | src/Tessellator2.ts:599-623 | splitting emits whole triangles of ring nodes, at most n-2 of them |
| Tessellator2.SourceEnvEarAgree | src/Tessellator2.ts:442-506 | with the frame of all the points, the hashed and plain ear tests agree |
| Tessellator2.ComplexMatchesPlain | src/Tessellator2.ts:279-383 | z-order hashing (used from 70 points on) never changes the triangulation |
| Tessellator2.AllEarsCount | src/Tessellator2.ts:329-383 | when the corner under the cursor is an ear at every step of the loop, it emits exactly n-2 triangles |
| Tessellator2.SquareAllEars | src/Tessellator2.ts:329-383 | with the source's tests, the unit square is clipped ear after ear into two triangles |
| Tessellator2.TriangulateFits | src/Tessellator2.ts:300-383 | the output is whole triangles of input indices, at most n-2 of them |
| Tessellator2.ProcessOutput | src/Tessellator2.ts:300-326 | the output points come in triangles of input points, at most n-2 of them |
| ConvexHull.CrossIsEdgeCross | src/ConvexHull.ts:16-19 | Cross(o, a, b) is the cross product of a-o and b-o |
| ConvexHull.PopWhile | src/ConvexHull.ts:21-31 | popping keeps a prefix of the stack, never empties it, and ends on a left turn |
| ConvexHull.Scan | src/ConvexHull.ts:21-31 | the stack holds indices of points seen so far |
| ConvexHull.ScanEnds | src/ConvexHull.ts:21-31 | the stack starts with the first point and ends with the latest one |
| ConvexHull.ScanIncreasing | src/ConvexHull.ts:21-31 | the stack's indices increase |
| ConvexHull.ScanTurns | src/ConvexHull.ts:21-31 | every three consecutive stack points turn strictly left |
| ConvexHull.ChainSubsequence | src/ConvexHull.ts:21-45 | a chain is a subsequence of the input without its last point |
| ConvexHull.ChainTurns | src/ConvexHull.ts:21-45 | a chain turns strictly left at every interior point |
| ConvexHull.ChainFirst | src/ConvexHull.ts:21-45 | a chain over two or more points starts with the first point |
| ConvexHull.Hull | src/ConvexHull.ts:5-13 | ConvexHull leaves the caller's array reversed |
| ConvexHull.HullIsClosed | src/ConvexHull.ts:5-45 | the hull starts and ends with the caller's last point, and is [undefined] on empty input |
| ConvexHull.HullPoints | src/ConvexHull.ts:5-45 | the hull has at most 2n-1 entries, all input points |
| Delaunay.GetCircleResult | src/Delaunay.ts:191-240 | a circle records its three indices, and three equal points are refused |
| Delaunay.HorizontalTripleThrows | src/Delaunay.ts:191-240 | three collinear points on a horizontal line are refused |
| Delaunay.ExtentOf | src/Delaunay.ts:160-188 | the extent contains every vertex |
| Delaunay.SuperTriangle | src/Delaunay.ts:160-188 | the super-triangle has three points |
| Delaunay.SuperCircleGuard | src/Delaunay.ts:52-58 | the super-triangle's circle is refused iff the input spans less than EPSILON/21 |
| Delaunay.IndicesAsWritten | src/Delaunay.ts:39-42 | as written: one Uint16 slot per vertex, each below 65536 and at most its slot number; identical to 0..n-1 up to 65536 vertices |
| Delaunay.IndicesAsWrittenCount | src/Delaunay.ts:39-42 | up to 131072 vertices the stored array holds x once for each of x and x + 65536 that is a vertex number, when x < 65536, and never otherwise |
| Delaunay.IndicesWrapAround | src/Delaunay.ts:39-42 | with 65537 vertices, index 65536 wraps to 0: vertex 0 is listed twice and vertex 65536 never |
| Delaunay.Indices | src/Delaunay.ts:39-42 | one index per vertex |
| Delaunay.IndicesArePermutation | src/Delaunay.ts:39-42 | the intended indices hold each vertex exactly once |
| Delaunay.SortIndicesSpec | src/Delaunay.ts:44-47 | the sort orders by descending x, ties by ascending index, and permutes its input |
| Delaunay.SortIndicesCount | src/Delaunay.ts:44-47 | the sort keeps every index as often as its input holds it, duplicates included |
| Delaunay.InsertionOrder | src/Delaunay.ts:39-64 | as written, from the Uint16 array: one insertion per vertex slot, each a vertex number |
| Delaunay.InsertionOrderCorrected | src/Delaunay.ts:39-64 | with a wide index array: one insertion per vertex slot, each a vertex number |
| Delaunay.InsertionOrderSpec | src/Delaunay.ts:39-64 | as written each number is inserted as often as the Uint16 array stores it, and up to 65536 vertices the order is the corrected one |
| Delaunay.InsertionOrderWrapAround | src/Delaunay.ts:39-64 | as written, with 65537 vertices vertex 0 is inserted twice and vertex 65536 never |
| Delaunay.InsertionOrderCorrectedSpec | src/Delaunay.ts:39-64 | with a wide index array each vertex is inserted exactly once, in ascending x with ties in descending index |
| Delaunay.Sweep | src/Delaunay.ts:69-92 | the sweep keeps or moves at most the open triangles, and removes whole triangles' edges |
| Delaunay.AddCircles | src/Delaunay.ts:98-102 | one new triangle per hole edge, from the edge's ends to the new vertex, last edge first |
| Delaunay.InsertVertex | src/Delaunay.ts:63-103 | inserting a vertex keeps all triangles on known vertices |
| Delaunay.InsertAll | src/Delaunay.ts:63-103 | the insertion loop keeps all triangles on known vertices |
| Delaunay.KeepExactly | src/Delaunay.ts:108-116 | a triangle survives iff it has no super-triangle vertex |
| Delaunay.Corners | src/Delaunay.ts:108-116 | each kept triangle emits its three corners in order |
| Delaunay.Emit | src/Delaunay.ts:108-116 | the output is whole triangles of input vertices |
| Delaunay.Triangulate | src/Delaunay.ts:18-120 | fewer than three vertices give no triangles; otherwise the output is whole triangles of input vertices |
| Delaunay.RepeatedPointThrows | src/Delaunay.ts:18-120 | a list of one repeated point is refused as coincident |
| DelaunayEdges.SameIsEquivalence | src/Delaunay.ts:244-263 | matching edges in either direction is an equivalence |
| DelaunayEdges.FindCopy | src/Delaunay.ts:244-263 | the inner loop finds the nearest earlier copy of an edge, or None iff there is none |
| DelaunayEdges.RemoveFromSpec | src/Delaunay.ts:244-263 | the loop leaves no repeated edge and keeps each edge's count parity |
| DelaunayEdges.RemoveDuplicatedEdgesSpec | src/Delaunay.ts:244-263 | each edge is kept once iff it occurred an odd number of times; no edge is invented |
| Path2.Close | src/Path2.ts:132-138 | close sets the closed flag iff there is a vertex, changing nothing else |
| Path2.BuildersKeepAligned | src/Path2.ts:48-138 | every builder keeps the vertex list in step with the segment types |
| Path2.End | src/Path2.ts:69-71 | end() keeps the path's segments and flag, and resets the computed length |
| Path2.PolylineShape | src/Path2.ts:61-82 | begin followed by lineTo calls gives one Move and then Linear segments over the points |
| Path2.PolylineEnd | src/Path2.ts:180-244 | a polyline flattens to its own points, or to nothing for a lone begin |
| Path2.ConicNotBounded | src/Path2.ts:180-244 | conic points never reach the bounds: a begin-plus-conic path keeps an empty bounding box |
| Path2.CubicMisalignsLaterSegments | src/Path2.ts:180-244 | after a cubic, a lineTo draws from the begin point to the cubic's first control point |
| Path2.LineWithoutBeginThrows | src/Path2.ts:180-244 | a lineTo with no vertex before it makes end() fail |
| Path2.ClearThenEnd | src/Path2.ts:48-56 | clear empties the path but keeps the computed points until the next end() |

## Left out

- The stroke tessellator (`src/Tessellator2.ts:38-260`): it extrudes line
  widths with floating-point joins, and none of its arithmetic is exact.
- `Polygon2` `rotate`, `offset`, `computeRadius` and `computeCentroid`:
  they use trigonometry and square roots. `copy`, `clone` and `FromArray`
  only copy points. `translate` moves the points and the cached center but
  leaves the other caches stale; the model derives every cached value from
  the points, so translate has no counterpart.
- `Polygon2.Optimize`: the source logs the dropped count to the console.
  That log is not modelled.
- Floating point: `Math.fround` is the identity and all arithmetic is exact.
  Results the source gets through rounding (a near-collinear corner, a
  crossing exactly at a vertex) can differ.
- Utils.IsPowerOfTwoNumber: the argument is an exact real, so NaN and the
  infinities have no counterpart; in the source they pass the test,
  because ToInt32 maps them to 0.
- VertexNode.AlphaOf: the position along an edge is the squared distance
  ratio, not the square-root ratio. The two have the same order and both
  are zero exactly at the edge's start; no square root is modelled.
- PolygonBoolean.Walk: the walk has fuel equal to the arena size and fails
  with `Hang` when it runs out. That a walk on a well-formed pair of lists
  never needs more is not proved.
- The tessellator's `steiner` guard is always false, since nothing marks a
  node as a Steiner point, so it is left out.
- The ear, diagonal and cure tests inside the tessellator's loops are
  function parameters. `SourceEnv` instantiates them with the source's tests.
- Path2:
  - conic subdivision is a function parameter;
  - `subdivideCubic` emits nothing, as in the source;
  - `arcTo`, `arc` and `isInside` are empty stubs in the source;
  - `length` and `computedLength` need square roots.
- Delaunay:
  - the circumcircle centre and radius (`GetCircle`'s arithmetic) and the
    insertion loop's inside/right-of tests are function parameters;
  - the refusal of near-horizontal triples (both y-gaps below EPSILON) is
    modelled; another collinear triple makes the source divide by
    m1 - m2 == 0, giving an infinite or NaN centre, which is not modelled:
    the circle is recorded and the oracles decide;
  - `IsInsideTriangle` is never called;
  - the flat edge array is a sequence of pairs, which is how the source
    grows and splices it.
- Segment2 and Segment3 `length`, `getDirection`, `getTangent`, `grow`,
  `isParallel` and `isColinear`: they need square roots.
- Vector2 `rotate`, `normalize` and `length` need trigonometry or square
  roots. Box `set` and `equals` are field assignments and comparisons.
- `Rectangle` in the tessellator is `Box2`.
- Not part of this model: the 3D matrix, quaternion, plane, frustum and
  sphere code, `ConcaveHull`, and `Ray2`.

## Findings

| source | as written | input that shows it | evidently intended | confidence | as-written member | corrected member |
|---|---|---|---|---|---|---|
| src/Vector2.ts:376-399 | divides the moment sums by 6 * (sum of cross terms), which is 6 * twice the area, and never adds the closing edge | the triangle (0,0), (1,0), (0,1): the centroid is (1/3, 1/3) but ComputeCenterOfMass gives (1/6, 1/6) | divide by 6 * area over the closed ring, which is the centroid | not executed | Vector2.CenterOfMassTriangleCounterexample | Vector2.CenterOfMassCorrectedIsCentroid |
| src/Box2.ts:189-196 | `this.max.max(box.max)` takes the componentwise maximum instead of copying | copy a unit box into a 5x5 box: the result stays 5x5 | `this.max.copy(box.max)` | not executed | Box2.CopyCounterexample | Box2.CopyCorrected |
| src/Box3.ts:203-210 | the same `max.max` in place of a copy | copy a unit box into a larger box: the max corner keeps the larger value | `this.max.copy(box.max)` | not executed | Box3.CopyCounterexample | Box3.CopyCorrected |
| src/Delaunay.ts:39-42 | indices are stored in a `Uint16Array`, so index i is kept as i mod 65536 | 65537 vertices: vertex 0 is inserted twice and vertex 65536 never | an index array wide enough for every vertex | not executed | Delaunay.InsertionOrderWrapAround | Delaunay.InsertionOrderCorrectedSpec |
| src/Utils.ts:61-63 | `(v & (v - 1)) == 0` works on ToUint32 of the operands | 3 * 2^32 and -2^31 both pass; so do 0.3 and 1.5, which are truncated first | a test on positive integers without wrap-around | not executed | Utils.IsPowerOfTwoWraps | Utils.IsPowerOfTwoCorrectedCorrect |
