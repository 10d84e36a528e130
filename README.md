# rusteriser triangle rasterisation in Dafny

This project models `src/triangle.rs` of the rusteriser software renderer
and proves properties of the model. That file decides which pixels a
triangle covers and then either paints them or hands them out:

- `bounding_box` computes the integer box of a vertex slice.
- `barycentric` reads barycentric weights off a cross product.
- `naive_point_in_triangle` is the same test with strict inequalities.
- `point_in_triangle` is the coverage predicate. It rejects pixels outside
  the vertex box widened by `EPSILON`. It accepts pixels the strict
  barycentric test accepts. Otherwise it accepts pixels within `EPSILON`
  of an edge, measured with `distance_square_point_to_segment`.
- `draw` scans the box and writes the colour into a flat frame buffer.
- `TriangleIterator` is a lazy form of `draw`. It yields the covered pixels
  of one scanline per call to `next`.

Files:

- `wrappers.dfy` (`Wrappers`): `Option`.
- `triangle_coverage.dfy` (`Triangle`): the pure part. It holds the bounding
  box, the barycentric weights, the box pre-check, the point-to-segment
  distance and the coverage predicate. It proves what the predicate
  accepts (`PointInTriangleIsCovered`), and it proves the source's unit test
  cases.
- `triangle_draw.dfy` (`TriangleDraw`): `draw` as a method over an
  `array<u32>`. Its postcondition gives every buffer cell's final value.
- `triangle_iterator.dfy` (`TriangleIter`): `TriangleIterator` as a class
  whose `Next` advances the row counter `y`. It also holds a method that
  drains a fresh iterator, and lemmas comparing the iterator's rows with
  the rows `draw` writes.

The two scan ranges are modelled as written. `draw` covers rows `min_y`
up to but not including `max_y`. The iterator yields rows `min_y + 1`
through `max_y + 1`, because `next` increments before it reads a row.
`TopVertexOnlyDrawn`, `BottomVertexOnlyIterated` and `LastRowEmpty` state
the consequences.

Abstractions:

- Every `f32` is an exact `real`, and `EPSILON_SQUARE` is exactly
  `0.01 * 0.01`.
- A zero-length edge makes the `f32` code divide 0 by 0. The resulting NaN
  fails both comparisons, so the code falls through to the last branch.
  `Projection` models that NaN as `None`.
- `line::LineIterator::new(min_x, y, max_x, y)` is the run of columns
  `min_x` through `max_x` in increasing order.
- `utils::xy(x, y, w)` is `y * w + x`.
- `color.bgra()` is an opaque `u32` parameter.

To verify the project, give Dafny all files in one command:

```
dafny verify --resource-limit 2000000 --verification-time-limit 0 --warn-contradictory-assumptions *.dfy
```

The lemmas about squared lengths (`SquareZero`, `SqDistVanishes`) rely on
nonlinear real arithmetic, where the solver is incomplete. With other
options, such as plain `dafny verify`, their proofs can depend on the
solver's random seed.

## Model

| member | source | states |
|---|---|---|
| Triangle.Least | src/triangle.rs:36-37 | the minimum of the first `n` coordinates is at most every one of them and equals one of them |
| Triangle.Greatest | src/triangle.rs:38-39 | the maximum of the first `n` coordinates is at least every one of them and equals one of them |
| Triangle.BoundingBox | src/triangle.rs:35-41 | on a non-empty slice, every vertex lies within the box and each of the four bounds is attained by some vertex |
| Triangle.LeastOfThree | src/triangle.rs:77-79 | on three vertices, the integer minimum equals the nested `f32` `min` the box pre-check takes |
| Triangle.GreatestOfThree | src/triangle.rs:78-80 | on three vertices, the integer maximum equals the nested `f32` `max` the box pre-check takes |
| Triangle.BoxOfThree | src/triangle.rs:77-80 | the four bounds of the pre-check, before widening, are the four bounds of `bounding_box` |
| Triangle.WeightVector | src/triangle.rs:11-17 | the vector `u`: the cross product of the x differences and the y differences; the lemmas below state what it means |
| Triangle.WeightsOf | src/triangle.rs:21 | the three weights `barycentric` and `naive_point_in_triangle` read off `u`; the lemmas below state what they mean |
| Triangle.WeightVectorZ | src/triangle.rs:11-17 | the z component of the cross product is minus twice the signed area of the triangle |
| Triangle.WeightsSumToOne | src/triangle.rs:21 | the three weights read off `u` sum to one |
| Triangle.WeightsReconstruct | src/triangle.rs:11-21 | for a non-degenerate triangle the weights sum to one and combine the vertices into the point itself |
| Triangle.WeightsUnique | src/triangle.rs:11-21 | for a non-degenerate triangle, any weights that sum to one and reproduce the point are the weights read off `u` |
| Triangle.Barycentric | src/triangle.rs:10-28 | `None` when abs(u.z) < 1; a `Some` result's weights are non-negative and sum to one |
| Triangle.BarycentricIsCoordinates | src/triangle.rs:10-28 | `Some(w)` exactly when abs(u.z) >= 1, `w` is non-negative, `w` sums to one and `w` reproduces the point |
| Triangle.OrientIsInteger | src/triangle.rs:45-52 | the doubled area over integer vertices is an integer |
| Triangle.NaivePointInTriangle | src/triangle.rs:44-61 | a pixel is accepted only when the integer doubled area is non-zero |
| Triangle.IntegerAwayFromZero | src/triangle.rs:54-56 | a non-zero integer u.z has absolute value at least 1, so the cut-off only rejects collinear vertices |
| Triangle.NaiveWeights | src/triangle.rs:50-60 | the naive test holds exactly when the vertices are not collinear and all three weights are strictly positive |
| Triangle.NaiveIsStrictlyInside | src/triangle.rs:44-61 | the naive test holds exactly when the pixel is a strictly positive combination of three non-collinear vertices |
| Triangle.NaiveIsStrictBarycentric | src/triangle.rs:58-60 | the naive test holds exactly when `barycentric` returns weights that are all strictly positive |
| Triangle.VertexWeights | src/triangle.rs:44-61 | at a vertex, `barycentric` gives that vertex's unit weight when the triangle is not degenerate, and the naive test rejects the vertex |
| Triangle.PointInTriangleBoundingBox | src/triangle.rs:66-83 | the widened-box pre-check; `EpsilonBoxIsBoundingBox` and `CombinationWithinBox` state what it accepts |
| Triangle.IntegerSlack | src/triangle.rs:82 | for integers, lying within a range widened by `EPSILON` is the same as lying within the range |
| Triangle.EpsilonBoxIsBoundingBox | src/triangle.rs:66-83 | on three vertices, a pixel passes the widened-box pre-check exactly when it lies in the inclusive `bounding_box` |
| Triangle.SqDistSymmetric | src/triangle.rs:91 | `p_p1_square_length`, written with `x1 - x`, equals the squared distance written with `x - x1` |
| Triangle.SqDistSelf | src/triangle.rs:86 | a point is at squared distance zero from itself |
| Triangle.SqDistZero | src/triangle.rs:86 | a squared length of zero means the two points coincide |
| Triangle.SqDistPositive | src/triangle.rs:86 | a non-zero squared length is positive |
| Triangle.SqDistVanishes | src/triangle.rs:86 | a squared length is never negative, and it is zero exactly when the two points coincide |
| Triangle.Quotient | src/triangle.rs:87 | dividing by a positive squared length and multiplying back gives the numerator |
| Triangle.Projection | src/triangle.rs:86-87 | the parameter is NaN (`None`) exactly when the endpoints coincide; otherwise it times the squared length is the dot product |
| Triangle.DistanceSquarePointToSegment | src/triangle.rs:85-96 | for a zero-length segment the result is the squared distance to `p2` |
| Triangle.AlongSegment | src/triangle.rs:85-96 | the squared distance from `p` to the point at parameter `s` is a quadratic in `s` |
| Triangle.EndDistance | src/triangle.rs:94 | the squared distance to `p2` is that quadratic at `s = 1` |
| Triangle.NearestIsStart | src/triangle.rs:88-89 | when the parameter is below 0, no point of the segment is nearer than `p1` |
| Triangle.NearestIsEnd | src/triangle.rs:93-94 | when the parameter is above 1, no point of the segment is nearer than `p2` |
| Triangle.NearestIsFoot | src/triangle.rs:90-92 | when the parameter is in [0, 1], no point of the segment is nearer than the foot of the perpendicular |
| Triangle.FootDistance | src/triangle.rs:90-92 | the middle branch's value is the squared distance to the foot of the perpendicular |
| Triangle.SegmentDistanceIsMinimum | src/triangle.rs:85-96 | the result is the squared distance to some point of the closed segment, and no point of the segment is nearer |
| Triangle.DistanceNonNegative | src/triangle.rs:85-96 | the result is never negative, in the middle branch too |
| Triangle.NearSegmentIsDistance | src/triangle.rs:115-121 | the distance is at most `EPSILON_SQUARE` exactly when some point of the edge lies within `EPSILON` of the pixel |
| Triangle.CombinationWithinBox | src/triangle.rs:77-82 | a non-negative combination of the vertices passes the widened-box pre-check |
| Triangle.InsideWithinBox | src/triangle.rs:108-113 | a point the strict test accepts always passes the pre-check, so the pre-check never hides it |
| Triangle.NearSegmentBounds | src/triangle.rs:108-121 | a point within `EPSILON` of an edge lies within the edge's box widened by `EPSILON` |
| Triangle.PointInTriangle | src/triangle.rs:98-125 | the coverage predicate: the box pre-check, then the strict barycentric test, then the distance to each edge; `PointInTriangleIsCovered` states what it accepts |
| Triangle.PointInTriangleIsCovered | src/triangle.rs:98-125 | `point_in_triangle` holds exactly when the pixel is strictly inside a non-degenerate triangle or within `EPSILON` of one of its edges |
| Triangle.CoveredWithinBoundingBox | src/triangle.rs:108-110 | every accepted pixel lies in the inclusive integer bounding box of the three vertices |
| Triangle.CoversStrictInterior | src/triangle.rs:112-114 | every pixel the naive test accepts is accepted |
| Triangle.CoversVertices | src/triangle.rs:115-121 | every vertex is accepted, also for a degenerate triangle |
| Triangle.SourceTestInsideA | src/triangle.rs:134-135 | (234, 357) is covered by [(245,391), (115,200), (306,438)] |
| Triangle.SourceTestOutsideA | src/triangle.rs:136-137 | (236, 277) is not covered by that triangle |
| Triangle.SourceTestInsideB | src/triangle.rs:144-145 | (340, 110) is covered by [(375,186), (2,257), (483,5)] |
| Triangle.SourceTestOutsideB | src/triangle.rs:146-147 | (288, 82) is not covered by that triangle |
| Triangle.SourceTestVertexB | src/triangle.rs:148-149 | the vertex (375, 186) is covered by that triangle |
| TriangleDraw.Xy | src/triangle.rs:166 | the index of (x, y) lies in row `y` of the buffer when `x` is less than the width |
| TriangleDraw.Drawn | src/triangle.rs:163-165 | the pixels `draw` writes: covered, in rows `min_y` to `max_y - 1` and columns `min_x` to `max_x`; `Draw` states the buffer it leaves |
| TriangleDraw.NothingBeforeStart | src/triangle.rs:163-165 | no cell is painted before the scan starts |
| TriangleDraw.PaintedStep | src/triangle.rs:165-166 | moving one column on paints exactly the pixel passed over, when it is covered |
| TriangleDraw.PaintedNextRow | src/triangle.rs:163-164 | the end of one row and the start of the next have painted the same cells |
| TriangleDraw.PaintedAtEnd | src/triangle.rs:163 | when the scan reaches row `max_y` it has painted every cell `draw` paints |
| TriangleDraw.Draw | src/triangle.rs:154-169 | a cell ends up holding the colour exactly when some covered pixel in rows `min_y` to `max_y - 1` and columns `min_x` to `max_x` maps to it; every other cell keeps its old value |
| TriangleIter.RowFrom | src/triangle.rs:202-204 | a row of columns filtered by `point_in_triangle` and collected; `RowContents` states what it holds |
| TriangleIter.RowContents | src/triangle.rs:202-204 | a row holds exactly the covered pixels of that scanline in the scanned columns, in increasing x and without repeats |
| TriangleIter.IteratorRowContents | src/triangle.rs:202-204 | an iterator row holds exactly the covered pixels of that scanline between `min_x` and `max_x` |
| TriangleIter.TriangleIterator.constructor | src/triangle.rs:181-190 | the iterator keeps the bounding box of the triangle and starts its counter at `min_y` |
| TriangleIter.TriangleIterator.Next | src/triangle.rs:196-206 | past `max_y` it returns `None` and changes nothing; otherwise it increments the counter and returns the covered pixels of the new row |
| TriangleIter.RowsInOrderAppend | src/triangle.rs:196-206 | appending the row after the last one keeps the rows in scanline order |
| TriangleIter.AllRows | src/triangle.rs:193-206 | draining a fresh iterator yields `max_y - min_y + 1` rows, and row `k` is the iterator row of scanline `min_y + 1 + k` |
| TriangleIter.InnerRowsAgree | src/triangle.rs:163-204 | on scanlines strictly between `min_y` and `max_y`, the iterator yields exactly the pixels `draw` writes |
| TriangleIter.OtherRowMisses | src/triangle.rs:202-204 | a pixel is in no iterator row but the one for its own scanline |
| TriangleIter.OwnRowHolds | src/triangle.rs:202-204 | a covered pixel within the columns of the box is in the iterator row for its own scanline |
| TriangleIter.AboveFirstRowMisses | src/triangle.rs:200-204 | a pixel above row `min_y + 1` is in none of the rows the iterator reads |
| TriangleIter.OnlyOwnRowHolds | src/triangle.rs:202-204 | a covered pixel within the columns of the box is in the iterator row for scanline `y` exactly when `y` is its own scanline |
| TriangleIter.TopVertexOnlyDrawn | src/triangle.rs:163-204 | a vertex on row `min_y` is covered; `draw` writes it unless the triangle is flat; no row the iterator yields holds it |
| TriangleIter.BottomVertexOnlyIterated | src/triangle.rs:163-204 | a vertex on row `max_y` is covered and `draw` never writes it; only iterator row `max_y` holds it, and the iterator yields that vertex exactly when the triangle is not flat |
| TriangleIter.LastRowEmpty | src/triangle.rs:197-204 | the last row the iterator yields, `max_y + 1`, is always empty |

## Left out

- `f32` rounding is not modelled: the model computes exactly over reals. `EPSILON_SQUARE` is exactly 0.0001, and `as f32` conversions are exact.
- The only NaN modelled is the one from a zero-length edge. No other operation here can produce NaN from integer vertices.
- `line::LineIterator`, `utils::xy` and `color::Color` are not part of this model. They are replaced by the abstractions listed above.
- TriangleIter.TriangleIterator.Next: does not model `self.y += 1` overflowing when `max_y` is `u32::MAX`; its precondition excludes it, and so does that of `AllRows`. A debug build panics there; a release build wraps `y` to 0, and the iterator starts over from row 0.
- Triangle.BoundingBox: requires a non-empty slice; the source panics on an empty one (`unwrap` of the missing minimum).
- Triangle.PointInTriangle: requires at least three vertices; the source panics when it indexes `triangle[2]` of a shorter slice. `TriangleDraw.Draw` and the iterator inherit that precondition, so they do not model a one- or two-vertex `draw` whose box is a single row. There the scan range `min_y..max_y` is empty, so the source never calls `point_in_triangle` and writes nothing.
- The bounding box uses every vertex of the slice. Coverage, like the source, reads only the first three. The lemmas that compare the two require exactly three vertices.
- TriangleDraw.Draw: requires every covered pixel in the scanned area to index inside the buffer, where the source would panic on an out-of-bounds write. Indices that run past a row into the next one are modelled as the source computes them.
- `point_in_triangle` takes `usize` pixels; the model uses unbounded naturals for them.
- The unit-test harness and the benches of `src/test.rs` are not part of this model.
