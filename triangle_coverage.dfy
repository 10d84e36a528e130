/**
 * The pure half of `src/triangle.rs`: the bounding box of a vertex slice,
 * barycentric weights, and the coverage predicate `point_in_triangle`
 * (a box pre-check, a strict barycentric test and an edge-distance rescue).
 *
 * The source computes in `f32`; here every `f32` is an exact `real`, so
 * rounding is not part of the model. The one float effect kept is the NaN
 * a zero-length edge produces.
 */
module Triangle {
  import opened Wrappers

  /** The source's `u32`. */
  newtype u32 = x: int | 0 <= x < 0x1_0000_0000

  const U32Max: int := 0xFFFF_FFFF

  /** `Vector2<u32>`: a vertex in screen space. */
  datatype Vertex = Vertex(x: u32, y: u32)

  /** A pixel `(usize, usize)` produced by the scanline walk. */
  datatype Pixel = Pixel(x: nat, y: nat)

  /** `Vector2<f32>` and `Vector3<f32>`, with `f32` read as an exact real. */
  datatype Vec2 = Vec2(x: real, y: real)
  datatype Vec3 = Vec3(x: real, y: real, z: real)

  /** `(min_x, min_y, max_x, max_y)`. */
  datatype Box = Box(minX: u32, minY: u32, maxX: u32, maxY: u32)

  const Epsilon: real := 0.01
  const EpsilonSquare: real := Epsilon * Epsilon

  // ---------------------------------------------------------------------
  // Bounding box

  /** The two axes of screen space. */
  datatype Axis = Horizontal | Vertical

  /** The coordinate of `v` along `axis`: the `pos.x` or `pos.y` the source maps each vertex to. */
  function Coord(v: Vertex, axis: Axis): u32 {
    match axis
    case Horizontal => v.x
    case Vertical => v.y
  }

  /** `Iterator::min` over the coordinates of the first `n` vertices, folded from the front. */
  function Least(ps: seq<Vertex>, axis: Axis, n: nat): (m: u32)
    requires 0 < n <= |ps|
    ensures forall i :: 0 <= i < n ==> m <= Coord(ps[i], axis)
    ensures exists i :: 0 <= i < n && Coord(ps[i], axis) == m
  {
    if n == 1 then Coord(ps[0], axis)
    else
      var m := Least(ps, axis, n - 1);
      if Coord(ps[n - 1], axis) < m then Coord(ps[n - 1], axis) else m
  }

  /** `Iterator::max` over the coordinates of the first `n` vertices, folded from the front. */
  function Greatest(ps: seq<Vertex>, axis: Axis, n: nat): (m: u32)
    requires 0 < n <= |ps|
    ensures forall i :: 0 <= i < n ==> Coord(ps[i], axis) <= m
    ensures exists i :: 0 <= i < n && Coord(ps[i], axis) == m
  {
    if n == 1 then Coord(ps[0], axis)
    else
      var m := Greatest(ps, axis, n - 1);
      if m <= Coord(ps[n - 1], axis) then Coord(ps[n - 1], axis) else m
  }

  /**
   * `bounding_box`: the tightest integer box holding every vertex. The
   * source unwraps `min()`/`max()`, so an empty slice panics: callers must
   * pass at least one vertex.
   */
  function BoundingBox(ps: seq<Vertex>): (b: Box)
    requires |ps| > 0
    ensures forall i :: 0 <= i < |ps| ==>
      b.minX <= ps[i].x <= b.maxX && b.minY <= ps[i].y <= b.maxY
    ensures exists i :: 0 <= i < |ps| && ps[i].x == b.minX
    ensures exists i :: 0 <= i < |ps| && ps[i].y == b.minY
    ensures exists i :: 0 <= i < |ps| && ps[i].x == b.maxX
    ensures exists i :: 0 <= i < |ps| && ps[i].y == b.maxY
  {
    var n := |ps|;
    Box(Least(ps, Horizontal, n), Least(ps, Vertical, n), Greatest(ps, Horizontal, n), Greatest(ps, Vertical, n))
  }

  /** Pixel `p` lies in box `b`, bounds inclusive on both sides. */
  predicate InBox(b: Box, p: Pixel) {
    b.minX as int <= p.x <= b.maxX as int && b.minY as int <= p.y <= b.maxY as int
  }

  // ---------------------------------------------------------------------
  // Barycentric weights

  function Abs(r: real): real {
    if r < 0.0 then -r else r
  }

  function Cross(a: Vec3, b: Vec3): Vec3 {
    Vec3(a.y * b.z - a.z * b.y, a.z * b.x - a.x * b.z, a.x * b.y - a.y * b.x)
  }

  /** The vector `u` from which `barycentric` and `naive_point_in_triangle` read the weights of `p`. */
  function WeightVector(p: Vec2, p0: Vec2, p1: Vec2, p2: Vec2): Vec3 {
    Cross(Vec3(p2.x - p0.x, p1.x - p0.x, p0.x - p.x), Vec3(p2.y - p0.y, p1.y - p0.y, p0.y - p.y))
  }

  /** The weights of `p0`, `p1`, `p2` read off `u`. */
  function WeightsOf(u: Vec3): Vec3
    requires u.z != 0.0
  {
    Vec3(1.0 - (u.x + u.y) / u.z, u.y / u.z, u.x / u.z)
  }

  /** Twice the signed area of the triangle `p0 p1 p2`; zero exactly when the three are collinear. */
  function Orient(p0: Vec2, p1: Vec2, p2: Vec2): real {
    (p1.x - p0.x) * (p2.y - p0.y) - (p2.x - p0.x) * (p1.y - p0.y)
  }

  /** The point with weights `w` on `p0`, `p1`, `p2`. */
  function Combine(p0: Vec2, p1: Vec2, p2: Vec2, w: Vec3): Vec2 {
    Vec2(w.x * p0.x + w.y * p1.x + w.z * p2.x, w.x * p0.y + w.y * p1.y + w.z * p2.y)
  }

  predicate SumsToOne(w: Vec3) {
    w.x + w.y + w.z == 1.0
  }

  predicate NonNegative(w: Vec3) {
    w.x >= 0.0 && w.y >= 0.0 && w.z >= 0.0
  }

  predicate Positive(w: Vec3) {
    w.x > 0.0 && w.y > 0.0 && w.z > 0.0
  }

  lemma WeightVectorZ(p: Vec2, p0: Vec2, p1: Vec2, p2: Vec2)
    ensures WeightVector(p, p0, p1, p2).z == -Orient(p0, p1, p2)
  {
  }

  function Dot(a: Vec3, b: Vec3): real {
    a.x * b.x + a.y * b.y + a.z * b.z
  }

  lemma CrossOrthogonal(a: Vec3, b: Vec3)
    ensures Dot(Cross(a, b), a) == 0.0 && Dot(Cross(a, b), b) == 0.0
  {
    var c := Cross(a, b);
    assert c.x * b.x == a.y * b.z * b.x - a.z * b.y * b.x;
    assert c.y * b.y == a.z * b.x * b.y - a.x * b.z * b.y;
    assert c.z * b.z == a.x * b.y * b.z - a.y * b.x * b.z;
  }

  /** With weights summing to one, the combination is `x0` moved along the two edges from it. */
  lemma AffineCombination(wx: real, wy: real, wz: real, x0: real, x1: real, x2: real)
    requires wx + wy + wz == 1.0
    ensures wx * x0 + wy * x1 + wz * x2 == x0 + wy * (x1 - x0) + wz * (x2 - x0)
  {
    assert wx * x0 == x0 - wy * x0 - wz * x0;
  }

  /** The weights read off `u` sum to one. */
  lemma WeightsSumToOne(u: Vec3)
    requires u.z != 0.0
    ensures SumsToOne(WeightsOf(u))
  {
    assert (u.x + u.y) / u.z == u.x / u.z + u.y / u.z;
  }

  /** One coordinate of `WeightsReconstruct`. */
  lemma ReconstructCoordinate(u: Vec3, x0: real, x1: real, x2: real, px: real)
    requires u.z != 0.0
    requires u.x * (x2 - x0) + u.y * (x1 - x0) + u.z * (x0 - px) == 0.0
    ensures WeightsOf(u).x * x0 + WeightsOf(u).y * x1 + WeightsOf(u).z * x2 == px
  {
    var w := WeightsOf(u);
    WeightsSumToOne(u);
    AffineCombination(w.x, w.y, w.z, x0, x1, x2);
    assert w.y * (x1 - x0) + w.z * (x2 - x0) == (u.y * (x1 - x0) + u.x * (x2 - x0)) / u.z;
    assert (u.y * (x1 - x0) + u.x * (x2 - x0)) / u.z == -(u.z * (x0 - px)) / u.z;
  }

  /** The weights read off `u` sum to one and reproduce `p`. */
  lemma WeightsReconstruct(p: Vec2, p0: Vec2, p1: Vec2, p2: Vec2)
    requires Orient(p0, p1, p2) != 0.0
    ensures WeightVector(p, p0, p1, p2).z != 0.0
    ensures var w := WeightsOf(WeightVector(p, p0, p1, p2));
      SumsToOne(w) && Combine(p0, p1, p2, w) == p
  {
    WeightVectorZ(p, p0, p1, p2);
    var a := Vec3(p2.x - p0.x, p1.x - p0.x, p0.x - p.x);
    var b := Vec3(p2.y - p0.y, p1.y - p0.y, p0.y - p.y);
    var u := Cross(a, b);
    CrossOrthogonal(a, b);
    WeightsSumToOne(u);
    ReconstructCoordinate(u, p0.x, p1.x, p2.x, p.x);
    ReconstructCoordinate(u, p0.y, p1.y, p2.y, p.y);
  }

  /** For a non-degenerate triangle, weights summing to one that reproduce `p` are the ones read off `u`. */
  lemma WeightsUnique(p: Vec2, p0: Vec2, p1: Vec2, p2: Vec2, w: Vec3)
    requires Orient(p0, p1, p2) != 0.0
    requires SumsToOne(w) && Combine(p0, p1, p2, w) == p
    ensures WeightVector(p, p0, p1, p2).z != 0.0
    ensures w == WeightsOf(WeightVector(p, p0, p1, p2))
  {
    WeightsReconstruct(p, p0, p1, p2);
    var v := WeightsOf(WeightVector(p, p0, p1, p2));
    var da, db := w.y - v.y, w.z - v.z;
    var d := Orient(p0, p1, p2);
    // both weight triples reproduce p, so their difference maps the edges to zero
    assert da * (p1.x - p0.x) + db * (p2.x - p0.x) == 0.0;
    assert da * (p1.y - p0.y) + db * (p2.y - p0.y) == 0.0;
    assert db * d == 0.0 by {
      assert db * d == (da * (p1.x - p0.x) + db * (p2.x - p0.x)) * (p1.y - p0.y)
                     - (da * (p1.y - p0.y) + db * (p2.y - p0.y)) * (p1.x - p0.x);
    }
    assert da * d == 0.0 by {
      assert da * d == (da * (p1.x - p0.x) + db * (p2.x - p0.x)) * (p2.y - p0.y)
                     - (da * (p1.y - p0.y) + db * (p2.y - p0.y)) * (p2.x - p0.x);
    }
  }

  /** The 2-D position of a `Vector3` vertex; `barycentric` ignores z. */
  function Flat(v: Vec3): Vec2 {
    Vec2(v.x, v.y)
  }

  /** A `Vector2<u32>` vertex as the `f32` pair the coverage code builds from it. */
  function VertexVec(v: Vertex): Vec2 {
    Vec2(v.x as real, v.y as real)
  }

  /** A pixel as the `f32` pair the coverage code builds from it. */
  function PixelVec(p: Pixel): Vec2 {
    Vec2(p.x as real, p.y as real)
  }

  /** The `Vector3` form of the first three vertices, as a caller of `barycentric` builds it. */
  function Lift(tri: seq<Vertex>): seq<Vec3>
    requires |tri| >= 3
  {
    [Vec3(tri[0].x as real, tri[0].y as real, 0.0),
     Vec3(tri[1].x as real, tri[1].y as real, 0.0),
     Vec3(tri[2].x as real, tri[2].y as real, 0.0)]
  }

  /**
   * `barycentric`: the weights of `point` on the first three vertices of
   * `tri`, or `None` when |u.z| < 1 (the triangle counts as degenerate) or a
   * weight is negative. The source indexes `tri[0..2]`, so `tri` needs three
   * entries.
   */
  function Barycentric(point: Vec2, tri: seq<Vec3>): (r: Option<Vec3>)
    requires |tri| >= 3
    ensures Abs(Orient(Flat(tri[0]), Flat(tri[1]), Flat(tri[2]))) < 1.0 ==> r == None
    ensures r.Some? ==> SumsToOne(r.value) && NonNegative(r.value)
  {
    WeightVectorZ(point, Flat(tri[0]), Flat(tri[1]), Flat(tri[2]));
    var u := WeightVector(point, Flat(tri[0]), Flat(tri[1]), Flat(tri[2]));
    if Abs(u.z) < 1.0 then None
    else
      var w := WeightsOf(u);
      if w.x < 0.0 || w.y < 0.0 || w.z < 0.0 then None else Some(w)
  }

  /**
   * `barycentric` returns `Some(w)` exactly when the triangle's doubled area
   * is at least 1 in magnitude and `w` is a triple of non-negative weights
   * summing to one that reproduces `point`.
   */
  lemma BarycentricIsCoordinates(point: Vec2, tri: seq<Vec3>, w: Vec3)
    requires |tri| >= 3
    ensures Barycentric(point, tri) == Some(w) <==>
      Abs(Orient(Flat(tri[0]), Flat(tri[1]), Flat(tri[2]))) >= 1.0 && SumsToOne(w) && NonNegative(w) &&
      Combine(Flat(tri[0]), Flat(tri[1]), Flat(tri[2]), w) == point
  {
    var p0, p1, p2 := Flat(tri[0]), Flat(tri[1]), Flat(tri[2]);
    if Orient(p0, p1, p2) != 0.0 {
      WeightsReconstruct(point, p0, p1, p2);
      if SumsToOne(w) && Combine(p0, p1, p2, w) == point {
        WeightsUnique(point, p0, p1, p2, w);
      }
    }
  }

  /** Twice the signed area of three integer vertices, in integers. */
  function IntOrient(a: Vertex, b: Vertex, c: Vertex): int {
    (b.x as int - a.x as int) * (c.y as int - a.y as int) - (c.x as int - a.x as int) * (b.y as int - a.y as int)
  }

  lemma OrientIsInteger(a: Vertex, b: Vertex, c: Vertex)
    ensures Orient(VertexVec(a), VertexVec(b), VertexVec(c)) == IntOrient(a, b, c) as real
  {
  }

  /**
   * `naive_point_in_triangle`: the strict barycentric test over the first
   * three vertices. Collinear vertices (integer u.z = 0) never pass.
   */
  function NaivePointInTriangle(point: Pixel, tri: seq<Vertex>): (r: bool)
    requires |tri| >= 3
    ensures r ==> IntOrient(tri[0], tri[1], tri[2]) != 0
  {
    WeightVectorZ(PixelVec(point), VertexVec(tri[0]), VertexVec(tri[1]), VertexVec(tri[2]));
    OrientIsInteger(tri[0], tri[1], tri[2]);
    var u := WeightVector(PixelVec(point), VertexVec(tri[0]), VertexVec(tri[1]), VertexVec(tri[2]));
    if Abs(u.z) < 1.0 then false
    else
      var w := WeightsOf(u);
      w.x > 0.0 && w.y > 0.0 && w.z > 0.0
  }

  /** `p` is a combination of `p0`, `p1`, `p2` with strictly positive weights, the three not collinear. */
  ghost predicate StrictlyInside(p: Vec2, p0: Vec2, p1: Vec2, p2: Vec2) {
    Orient(p0, p1, p2) != 0.0 &&
    exists w :: Positive(w) && SumsToOne(w) && Combine(p0, p1, p2, w) == p
  }

  /** A non-zero integer is at least 1 in magnitude. */
  lemma IntegerAwayFromZero(k: int)
    requires k != 0
    ensures Abs(k as real) >= 1.0
  {
  }

  /**
   * For integer vertices the cut-off |u.z| < 1 only rejects collinear
   * vertices: the naive test holds exactly when the vertices are not
   * collinear and the weights read off `u` are all positive.
   */
  lemma NaiveWeights(point: Pixel, tri: seq<Vertex>)
    requires |tri| >= 3
    ensures var p, p0, p1, p2 := PixelVec(point), VertexVec(tri[0]), VertexVec(tri[1]), VertexVec(tri[2]);
      WeightVector(p, p0, p1, p2).z == -Orient(p0, p1, p2) &&
      (NaivePointInTriangle(point, tri) <==>
        Orient(p0, p1, p2) != 0.0 && Positive(WeightsOf(WeightVector(p, p0, p1, p2))))
  {
    var p, p0, p1, p2 := PixelVec(point), VertexVec(tri[0]), VertexVec(tri[1]), VertexVec(tri[2]);
    OrientIsInteger(tri[0], tri[1], tri[2]);
    WeightVectorZ(p, p0, p1, p2);
    var k := IntOrient(tri[0], tri[1], tri[2]);
    if k != 0 {
      IntegerAwayFromZero(k);
    }
  }

  /** The naive test accepts exactly the pixels strictly inside a non-degenerate triangle. */
  lemma NaiveIsStrictlyInside(point: Pixel, tri: seq<Vertex>)
    requires |tri| >= 3
    ensures NaivePointInTriangle(point, tri) <==>
      StrictlyInside(PixelVec(point), VertexVec(tri[0]), VertexVec(tri[1]), VertexVec(tri[2]))
  {
    var p, p0, p1, p2 := PixelVec(point), VertexVec(tri[0]), VertexVec(tri[1]), VertexVec(tri[2]);
    NaiveWeights(point, tri);
    if Orient(p0, p1, p2) != 0.0 {
      WeightsReconstruct(p, p0, p1, p2);
      forall w | Positive(w) && SumsToOne(w) && Combine(p0, p1, p2, w) == p
        ensures NaivePointInTriangle(point, tri)
      {
        WeightsUnique(p, p0, p1, p2, w);
      }
    }
  }

  /**
   * The naive test is `barycentric` with strict inequalities: it accepts a
   * pixel exactly when `barycentric` finds weights and all are positive, so a
   * pixel on an edge or at a vertex (a zero weight) fails it.
   */
  lemma NaiveIsStrictBarycentric(point: Pixel, tri: seq<Vertex>)
    requires |tri| >= 3
    ensures NaivePointInTriangle(point, tri) <==>
      (var b := Barycentric(PixelVec(point), Lift(tri)); b.Some? && Positive(b.value))
  {
    OrientIsInteger(tri[0], tri[1], tri[2]);
    WeightVectorZ(PixelVec(point), VertexVec(tri[0]), VertexVec(tri[1]), VertexVec(tri[2]));
  }

  /** The unit weight selecting vertex `i`. */
  function Unit(i: nat): Vec3
    requires i < 3
  {
    if i == 0 then Vec3(1.0, 0.0, 0.0) else if i == 1 then Vec3(0.0, 1.0, 0.0) else Vec3(0.0, 0.0, 1.0)
  }

  /**
   * At a vertex of a triangle whose doubled area is at least 1, `barycentric`
   * returns the unit weight of that vertex, and the naive test rejects it.
   */
  lemma VertexWeights(tri: seq<Vertex>, i: nat)
    requires |tri| >= 3 && i < 3
    ensures IntOrient(tri[0], tri[1], tri[2]) != 0 ==>
      Barycentric(VertexVec(tri[i]), Lift(tri)) == Some(Unit(i))
    ensures !NaivePointInTriangle(Pixel(tri[i].x as nat, tri[i].y as nat), tri)
  {
    var p0, p1, p2 := VertexVec(tri[0]), VertexVec(tri[1]), VertexVec(tri[2]);
    var point := Pixel(tri[i].x as nat, tri[i].y as nat);
    assert PixelVec(point) == VertexVec(tri[i]);
    OrientIsInteger(tri[0], tri[1], tri[2]);
    assert Combine(p0, p1, p2, Unit(i)) == VertexVec(tri[i]);
    if IntOrient(tri[0], tri[1], tri[2]) != 0 {
      BarycentricIsCoordinates(VertexVec(tri[i]), Lift(tri), Unit(i));
      WeightsUnique(VertexVec(tri[i]), p0, p1, p2, Unit(i));
    }
    NaiveIsStrictBarycentric(point, tri);
  }

  // ---------------------------------------------------------------------
  // The box pre-check

  /** `f32::min`; no operand here is NaN. */
  function RMin(a: real, b: real): real {
    if a <= b then a else b
  }

  /** `f32::max`; no operand here is NaN. */
  function RMax(a: real, b: real): real {
    if a >= b then a else b
  }

  /** `point_in_triangle_bounding_box`: the box of the three vertices, widened by `EPSILON` on every side, holds `point`. */
  function PointInTriangleBoundingBox(p1: Vec2, p2: Vec2, p3: Vec2, point: Vec2): bool {
    var xMin := RMin(p1.x, RMin(p2.x, p3.x)) - Epsilon;
    var xMax := RMax(p1.x, RMax(p2.x, p3.x)) + Epsilon;
    var yMin := RMin(p1.y, RMin(p2.y, p3.y)) - Epsilon;
    var yMax := RMax(p1.y, RMax(p2.y, p3.y)) + Epsilon;
    !(point.x < xMin || xMax < point.x || point.y < yMin || yMax < point.y)
  }

  /** On three vertices, `Iterator::min` agrees with the `f32` minimum the box pre-check takes. */
  lemma LeastOfThree(tri: seq<Vertex>, axis: Axis)
    requires |tri| == 3
    ensures Least(tri, axis, 3) as real ==
      RMin(Coord(tri[0], axis) as real, RMin(Coord(tri[1], axis) as real, Coord(tri[2], axis) as real))
  {
    assert Least(tri, axis, 1) == Coord(tri[0], axis);
  }

  /** On three vertices, `Iterator::max` agrees with the `f32` maximum the box pre-check takes. */
  lemma GreatestOfThree(tri: seq<Vertex>, axis: Axis)
    requires |tri| == 3
    ensures Greatest(tri, axis, 3) as real ==
      RMax(Coord(tri[0], axis) as real, RMax(Coord(tri[1], axis) as real, Coord(tri[2], axis) as real))
  {
    assert Greatest(tri, axis, 1) == Coord(tri[0], axis);
  }

  /** Between integer bounds, widening by `EPSILON < 1` admits no further integer. */
  lemma IntegerSlack(a: int, lo: int, hi: int)
    ensures (lo as real - Epsilon <= a as real <= hi as real + Epsilon) <==> lo <= a <= hi
  {
  }

  /** The bounding box of three vertices, coordinate by coordinate, as the box pre-check computes it. */
  lemma BoxOfThree(tri: seq<Vertex>)
    requires |tri| == 3
    ensures var b := BoundingBox(tri);
      RMin(tri[0].x as real, RMin(tri[1].x as real, tri[2].x as real)) == b.minX as real &&
      RMin(tri[0].y as real, RMin(tri[1].y as real, tri[2].y as real)) == b.minY as real &&
      RMax(tri[0].x as real, RMax(tri[1].x as real, tri[2].x as real)) == b.maxX as real &&
      RMax(tri[0].y as real, RMax(tri[1].y as real, tri[2].y as real)) == b.maxY as real
  {
    LeastOfThree(tri, Horizontal);
    LeastOfThree(tri, Vertical);
    GreatestOfThree(tri, Horizontal);
    GreatestOfThree(tri, Vertical);
  }

  /**
   * For integer pixels and vertices, widening by `EPSILON < 1` changes
   * nothing: the pre-check accepts exactly the pixels of the inclusive
   * integer bounding box.
   */
  lemma EpsilonBoxIsBoundingBox(point: Pixel, tri: seq<Vertex>)
    requires |tri| == 3
    ensures PointInTriangleBoundingBox(VertexVec(tri[0]), VertexVec(tri[1]), VertexVec(tri[2]), PixelVec(point))
      <==> InBox(BoundingBox(tri), point)
  {
    var b := BoundingBox(tri);
    BoxOfThree(tri);
    IntegerSlack(point.x, b.minX as int, b.maxX as int);
    IntegerSlack(point.y, b.minY as int, b.maxY as int);
  }

  // ---------------------------------------------------------------------
  // Distance from a point to a segment

  /** The vector from `b` to `a`. */
  function Sub(a: Vec2, b: Vec2): Vec2 {
    Vec2(a.x - b.x, a.y - b.y)
  }

  function Dot2(u: Vec2, v: Vec2): real {
    u.x * v.x + u.y * v.y
  }

  /** The squared length of `a - b`, as the source writes it: `(ax - bx)^2 + (ay - by)^2`. */
  function SqDist(a: Vec2, b: Vec2): real {
    Dot2(Sub(a, b), Sub(a, b))
  }

  /** The point at parameter `s` on the way from `a` to `b`. */
  function At(a: Vec2, b: Vec2, s: real): Vec2 {
    Vec2(a.x + s * (b.x - a.x), a.y + s * (b.y - a.y))
  }

  /** The dot product of `p - p1` with the segment direction `p2 - p1`. */
  function Reach(p1: Vec2, p2: Vec2, p: Vec2): real {
    Dot2(Sub(p, p1), Sub(p2, p1))
  }

  /**
   * The `dot_product` of `distance_square_point_to_segment`: the parameter
   * of the projection of `p` on the line `p1 p2`. `None` stands for the NaN
   * the `f32` code gets from 0/0 when the squared length is zero. That
   * happens exactly when the endpoints coincide (`SqDistVanishes`), which is
   * the test written here.
   */
  function Projection(p1: Vec2, p2: Vec2, p: Vec2): (t: Option<real>)
    ensures t.None? <==> p1 == p2
    ensures t.Some? ==> SqDist(p2, p1) > 0.0 && Scales(Reach(p1, p2, p), t.value, SqDist(p2, p1))
  {
    if p1 == p2 then None
    else
      SqDistVanishes(p2, p1);
      Some(Quotient(Reach(p1, p2, p), SqDist(p2, p1)))
  }

  /**
   * `distance_square_point_to_segment`. A NaN parameter fails both
   * comparisons, so a zero-length segment falls through to the last branch,
   * the squared distance to `p2`.
   */
  function DistanceSquarePointToSegment(p1: Vec2, p2: Vec2, p: Vec2): (r: real)
    ensures p1 == p2 ==> r == SqDist(p, p2)
  {
    var t := Projection(p1, p2, p);
    if t.Some? && t.value < 0.0 then
      SqDist(p, p1)
    else if t.Some? && t.value <= 1.0 then
      SqDist(p1, p) - t.value * t.value * SqDist(p2, p1)
    else
      SqDist(p, p2)
  }

  lemma SqDistSymmetric(a: Vec2, b: Vec2)
    ensures SqDist(a, b) == SqDist(b, a)
  {
    assert (a.x - b.x) * (a.x - b.x) == (b.x - a.x) * (b.x - a.x);
    assert (a.y - b.y) * (a.y - b.y) == (b.y - a.y) * (b.y - a.y);
  }

  /** The square of `u - s v`, expanded. */
  lemma ExpandSquare(u: Vec2, v: Vec2, s: real, d: Vec2)
    requires d == Vec2(u.x - s * v.x, u.y - s * v.y)
    ensures Dot2(d, d) == Dot2(u, u) - 2.0 * s * Dot2(u, v) + s * s * Dot2(v, v)
  {
  }

  /** The squared distance to the point at `s` along the segment, as a quadratic in `s`. */
  lemma AlongSegment(p1: Vec2, p2: Vec2, p: Vec2, s: real)
    ensures SqDist(p, At(p1, p2, s)) == SqDist(p, p1) - 2.0 * s * Reach(p1, p2, p) + s * s * SqDist(p2, p1)
  {
    ExpandSquare(Sub(p, p1), Sub(p2, p1), s, Sub(p, At(p1, p2, s)));
  }

  /** The squared distance to `p2`, written with the same quantities. */
  lemma EndDistance(p1: Vec2, p2: Vec2, p: Vec2)
    ensures SqDist(p, p2) == SqDist(p, p1) - 2.0 * Reach(p1, p2, p) + SqDist(p2, p1)
  {
    AlongSegment(p1, p2, p, 1.0);
    assert At(p1, p2, 1.0) == p2;
  }

  /** A quadratic `ww - 2 s wd + s^2 dd` with its vertex `t` in [0, 1] is least at `t`, where it is `ww - t^2 dd`. */
  lemma QuadraticInner(ww: real, wd: real, dd: real, t: real, s: real)
    requires dd > 0.0 && wd == t * dd
    ensures ww - 2.0 * t * wd + t * t * dd == ww - t * t * dd
    ensures ww - t * t * dd <= ww - 2.0 * s * wd + s * s * dd
  {
    assert ww - 2.0 * s * wd + s * s * dd - (ww - t * t * dd) == dd * ((s - t) * (s - t));
    assert (s - t) * (s - t) >= 0.0;
  }

  /** A quadratic whose vertex lies left of 0 grows on [0, 1]. */
  lemma QuadraticLeft(ww: real, wd: real, dd: real, s: real)
    requires dd > 0.0 && wd < 0.0 && 0.0 <= s
    ensures ww <= ww - 2.0 * s * wd + s * s * dd
  {
    assert s * s * dd >= 0.0;
    assert s * wd <= 0.0;
  }

  /** A quadratic whose vertex lies right of 1 shrinks on [0, 1]. */
  lemma QuadraticRight(ww: real, wd: real, dd: real, s: real)
    requires dd > 0.0 && wd > dd && s <= 1.0
    ensures ww - 2.0 * wd + dd <= ww - 2.0 * s * wd + s * s * dd
  {
    var k := 2.0 * wd - (1.0 + s) * dd;
    assert k > 0.0 by {
      assert (1.0 + s) * dd <= 2.0 * dd;
    }
    assert (1.0 - s) * k >= 0.0;
    assert ww - 2.0 * s * wd + s * s * dd - (ww - 2.0 * wd + dd) == (1.0 - s) * k;
  }

  lemma DivideBySelf(u: real, v: real)
    requires u != v
    ensures (u - v) * (u - v) / (u - v) == u - v
  {
  }

  /** The dot product of a vector with itself is never negative. */
  lemma SelfDotNonNegative(u: Vec2)
    ensures Dot2(u, u) >= 0.0
  {
    assert u.x * u.x >= 0.0 && u.y * u.y >= 0.0;
  }

  /** A square vanishes only when its base does. */
  lemma SquareZero(u: real, v: real)
    requires (u - v) * (u - v) <= 0.0
    ensures u == v
  {
    if u != v {
      DivideBySelf(u, v);
      assert false;
    }
  }

  /** Two points at squared distance zero coincide. */
  lemma SqDistZero(a: Vec2, b: Vec2)
    requires SqDist(a, b) <= 0.0
    ensures a == b
  {
    var d := Sub(a, b);
    assert d.x * d.x >= 0.0 && d.y * d.y >= 0.0;
    SquareZero(a.x, b.x);
    SquareZero(a.y, b.y);
  }

  /** A point is at distance zero from itself. */
  lemma SqDistSelf(a: Vec2)
    ensures SqDist(a, a) == 0.0
  {
    assert Sub(a, a) == Vec2(0.0, 0.0);
  }

  /** A non-zero squared distance is positive. */
  lemma SqDistPositive(a: Vec2, b: Vec2)
    requires SqDist(a, b) != 0.0
    ensures SqDist(a, b) > 0.0
  {
    SelfDotNonNegative(Sub(a, b));
  }

  /** A squared length is never negative, and it is zero exactly when the two points coincide. */
  lemma SqDistVanishes(a: Vec2, b: Vec2)
    ensures SqDist(a, b) >= 0.0
    ensures SqDist(a, b) == 0.0 <==> a == b
  {
    SelfDotNonNegative(Sub(a, b));
    if SqDist(a, b) == 0.0 {
      SqDistZero(a, b);
    }
    if a == b {
      SqDistSelf(a);
    }
  }

  /** `n` is `q` times `d`. */
  predicate Scales(n: real, q: real, d: real) {
    n == q * d
  }

  /** `n / d` for a positive `d`: multiplying back by `d` gives `n` again. */
  function Quotient(n: real, d: real): (q: real)
    requires d > 0.0
    ensures Scales(n, q, d)
  {
    n / d
  }

  /** A parameter below 0 or above 1 means the dot product lies below 0 or above the squared length. */
  lemma ScaledSign(n: real, t: real, d: real)
    requires d > 0.0 && n == t * d
    ensures (t < 0.0 ==> n < 0.0) && (t > 1.0 ==> n > d)
  {
    if t > 1.0 {
      assert (t - 1.0) * d > 0.0;
    }
  }

  /** When the projection falls before `p1`, `p1` is the nearest point of the segment. */
  lemma NearestIsStart(p1: Vec2, p2: Vec2, p: Vec2, s: real)
    requires Projection(p1, p2, p).Some? && Projection(p1, p2, p).value < 0.0
    requires 0.0 <= s <= 1.0
    ensures SqDist(p, p1) <= SqDist(p, At(p1, p2, s))
  {
    ScaledSign(Reach(p1, p2, p), Projection(p1, p2, p).value, SqDist(p2, p1));
    AlongSegment(p1, p2, p, s);
    QuadraticLeft(SqDist(p, p1), Reach(p1, p2, p), SqDist(p2, p1), s);
  }

  /** When the projection falls past `p2`, `p2` is the nearest point of the segment. */
  lemma NearestIsEnd(p1: Vec2, p2: Vec2, p: Vec2, s: real)
    requires Projection(p1, p2, p).Some? && Projection(p1, p2, p).value > 1.0
    requires 0.0 <= s <= 1.0
    ensures SqDist(p, p2) <= SqDist(p, At(p1, p2, s))
  {
    ScaledSign(Reach(p1, p2, p), Projection(p1, p2, p).value, SqDist(p2, p1));
    EndDistance(p1, p2, p);
    AlongSegment(p1, p2, p, s);
    QuadraticRight(SqDist(p, p1), Reach(p1, p2, p), SqDist(p2, p1), s);
  }

  /** When the projection falls on the segment, the foot of the perpendicular is the nearest point. */
  lemma NearestIsFoot(p1: Vec2, p2: Vec2, p: Vec2, s: real)
    requires Projection(p1, p2, p).Some? && 0.0 <= Projection(p1, p2, p).value <= 1.0
    requires 0.0 <= s <= 1.0
    ensures var t := Projection(p1, p2, p).value;
      SqDist(p, At(p1, p2, t)) <= SqDist(p, At(p1, p2, s))
  {
    var t := Projection(p1, p2, p).value;
    AlongSegment(p1, p2, p, t);
    AlongSegment(p1, p2, p, s);
    QuadraticInner(SqDist(p, p1), Reach(p1, p2, p), SqDist(p2, p1), t, s);
  }

  /** The middle branch's value is the squared distance to the foot of the perpendicular. */
  lemma FootDistance(p1: Vec2, p2: Vec2, p: Vec2)
    requires Projection(p1, p2, p).Some?
    ensures var t := Projection(p1, p2, p).value;
      SqDist(p1, p) - t * t * SqDist(p2, p1) == SqDist(p, At(p1, p2, t))
  {
    var t := Projection(p1, p2, p).value;
    SqDistSymmetric(p1, p);
    AlongSegment(p1, p2, p, t);
    QuadraticInner(SqDist(p, p1), Reach(p1, p2, p), SqDist(p2, p1), t, t);
  }

  /**
   * `distance_square_point_to_segment` is the squared distance from `p` to
   * the nearest point of the closed segment `p1 p2`: some point of the
   * segment is at exactly that squared distance and none is nearer.
   */
  lemma SegmentDistanceIsMinimum(p1: Vec2, p2: Vec2, p: Vec2)
    ensures exists s :: 0.0 <= s <= 1.0 && DistanceSquarePointToSegment(p1, p2, p) == SqDist(p, At(p1, p2, s))
    ensures forall s :: 0.0 <= s <= 1.0 ==> DistanceSquarePointToSegment(p1, p2, p) <= SqDist(p, At(p1, p2, s))
  {
    var r := DistanceSquarePointToSegment(p1, p2, p);
    var t := Projection(p1, p2, p);
    if t.None? {
      assert At(p1, p2, 1.0) == p2;
      forall s | 0.0 <= s <= 1.0 ensures r <= SqDist(p, At(p1, p2, s)) {
        assert At(p1, p2, s) == p2;
      }
    } else if t.value < 0.0 {
      assert At(p1, p2, 0.0) == p1;
      forall s | 0.0 <= s <= 1.0 ensures r <= SqDist(p, At(p1, p2, s)) {
        NearestIsStart(p1, p2, p, s);
      }
    } else if t.value <= 1.0 {
      FootDistance(p1, p2, p);
      forall s | 0.0 <= s <= 1.0 ensures r <= SqDist(p, At(p1, p2, s)) {
        NearestIsFoot(p1, p2, p, s);
      }
    } else {
      assert At(p1, p2, 1.0) == p2;
      forall s | 0.0 <= s <= 1.0 ensures r <= SqDist(p, At(p1, p2, s)) {
        NearestIsEnd(p1, p2, p, s);
      }
    }
  }

  /** Being a squared distance, the result is never negative, in the middle branch too. */
  lemma DistanceNonNegative(p1: Vec2, p2: Vec2, p: Vec2)
    ensures DistanceSquarePointToSegment(p1, p2, p) >= 0.0
  {
    SegmentDistanceIsMinimum(p1, p2, p);
    var s :| 0.0 <= s <= 1.0 && DistanceSquarePointToSegment(p1, p2, p) == SqDist(p, At(p1, p2, s));
    SelfDotNonNegative(Sub(p, At(p1, p2, s)));
  }

  // ---------------------------------------------------------------------
  // The coverage predicate

  /**
   * `point_in_triangle`: reject pixels outside the widened box, accept those
   * the strict barycentric test accepts, then accept those within `EPSILON`
   * of one of the edges `v0 v1`, `v1 v2`, `v2 v0`.
   */
  function PointInTriangle(point: Pixel, tri: seq<Vertex>): bool
    requires |tri| >= 3
  {
    var v1, v2, v3, p := VertexVec(tri[0]), VertexVec(tri[1]), VertexVec(tri[2]), PixelVec(point);
    if !PointInTriangleBoundingBox(v1, v2, v3, p) then false
    else if NaivePointInTriangle(point, tri) then true
    else if DistanceSquarePointToSegment(v1, v2, p) <= EpsilonSquare then true
    else if DistanceSquarePointToSegment(v2, v3, p) <= EpsilonSquare then true
    else if DistanceSquarePointToSegment(v3, v1, p) <= EpsilonSquare then true
    else false
  }

  /** Some point of the closed segment `a b` lies within `EPSILON` of `p`. */
  ghost predicate NearSegment(p: Vec2, a: Vec2, b: Vec2) {
    exists s :: 0.0 <= s <= 1.0 && SqDist(p, At(a, b, s)) <= EpsilonSquare
  }

  /**
   * What coverage means: `p` lies strictly inside the non-degenerate
   * triangle `a b c`, or within `EPSILON` of one of its edges.
   */
  ghost predicate Covered(p: Vec2, a: Vec2, b: Vec2, c: Vec2) {
    StrictlyInside(p, a, b, c) || NearSegment(p, a, b) || NearSegment(p, b, c) || NearSegment(p, c, a)
  }

  lemma NearSegmentIsDistance(a: Vec2, b: Vec2, p: Vec2)
    ensures DistanceSquarePointToSegment(a, b, p) <= EpsilonSquare <==> NearSegment(p, a, b)
  {
    SegmentDistanceIsMinimum(a, b, p);
  }

  lemma MulLeft(w: real, x: real, y: real)
    requires w >= 0.0 && x <= y
    ensures w * x <= w * y
  {
  }

  /** With weights summing to one, the excess of a combination over `m` is the combination of the excesses. */
  lemma Excess(w: Vec3, x0: real, x1: real, x2: real, m: real)
    requires SumsToOne(w)
    ensures w.x * x0 + w.y * x1 + w.z * x2 - m == w.x * (x0 - m) + w.y * (x1 - m) + w.z * (x2 - m)
  {
  }

  /** Non-negative weights of non-negative values give a non-negative sum. */
  lemma NonNegativeSum(w: Vec3, d0: real, d1: real, d2: real)
    requires NonNegative(w) && d0 >= 0.0 && d1 >= 0.0 && d2 >= 0.0
    ensures w.x * d0 + w.y * d1 + w.z * d2 >= 0.0
  {
    MulLeft(w.x, 0.0, d0);
    MulLeft(w.y, 0.0, d1);
    MulLeft(w.z, 0.0, d2);
  }

  /** A combination with non-negative weights summing to one lies between any bounds of the three coordinates. */
  lemma ConvexBetween(w: Vec3, x0: real, x1: real, x2: real, lo: real, hi: real)
    requires NonNegative(w) && SumsToOne(w)
    requires lo <= x0 <= hi && lo <= x1 <= hi && lo <= x2 <= hi
    ensures lo <= w.x * x0 + w.y * x1 + w.z * x2 <= hi
  {
    Excess(w, x0, x1, x2, lo);
    NonNegativeSum(w, x0 - lo, x1 - lo, x2 - lo);
    Excess(w, x0, x1, x2, hi);
    NonNegativeSum(w, hi - x0, hi - x1, hi - x2);
  }

  /** Along one axis, such a combination lies between the least and the greatest of the three coordinates. */
  lemma ConvexWithinRange(w: Vec3, x0: real, x1: real, x2: real, c: real)
    requires NonNegative(w) && SumsToOne(w) && c == w.x * x0 + w.y * x1 + w.z * x2
    ensures RMin(x0, RMin(x1, x2)) <= c <= RMax(x0, RMax(x1, x2))
  {
    var lo, hi := RMin(x0, RMin(x1, x2)), RMax(x0, RMax(x1, x2));
    assert lo <= x0 <= hi && lo <= x1 <= hi && lo <= x2 <= hi;
    ConvexBetween(w, x0, x1, x2, lo, hi);
  }

  /** A point with non-negative weights summing to one passes the box pre-check. */
  lemma CombinationWithinBox(p: Vec2, a: Vec2, b: Vec2, c: Vec2, w: Vec3)
    requires NonNegative(w) && SumsToOne(w) && Combine(a, b, c, w) == p
    ensures PointInTriangleBoundingBox(a, b, c, p)
  {
    ConvexWithinRange(w, a.x, b.x, c.x, p.x);
    ConvexWithinRange(w, a.y, b.y, c.y, p.y);
  }

  /** A point strictly inside passes the box pre-check. */
  lemma InsideWithinBox(p: Vec2, a: Vec2, b: Vec2, c: Vec2)
    requires StrictlyInside(p, a, b, c)
    ensures PointInTriangleBoundingBox(a, b, c, p)
  {
    var w :| Positive(w) && SumsToOne(w) && Combine(a, b, c, w) == p;
    CombinationWithinBox(p, a, b, c, w);
  }

  /** The point at `s` in [0, 1] lies between the endpoints. */
  lemma BetweenEndpoints(s: real, x0: real, x1: real)
    requires 0.0 <= s <= 1.0
    ensures RMin(x0, x1) <= x0 + s * (x1 - x0) <= RMax(x0, x1)
  {
    if x0 <= x1 {
      OrderedBetween(s, x0, x1);
    } else {
      OrderedBetween(1.0 - s, x1, x0);
      assert x1 + (1.0 - s) * (x0 - x1) == x0 + s * (x1 - x0);
    }
  }

  /** The same along an increasing axis. */
  lemma OrderedBetween(s: real, lo: real, hi: real)
    requires 0.0 <= s <= 1.0 && lo <= hi
    ensures lo <= lo + s * (hi - lo) <= hi
  {
    MulLeft(hi - lo, 0.0, s);
    MulLeft(hi - lo, s, 1.0);
  }

  /** Coordinates whose difference squares to at most `EPSILON_SQUARE` are at most `EPSILON` apart. */
  lemma SmallOffset(u: real, v: real)
    requires (u - v) * (u - v) <= EpsilonSquare
    ensures -Epsilon <= u - v <= Epsilon
  {
  }

  /** Points within `EPSILON` of each other are within `EPSILON` on each axis. */
  lemma CloseCoordinates(p: Vec2, q: Vec2)
    requires SqDist(p, q) <= EpsilonSquare
    ensures -Epsilon <= p.x - q.x <= Epsilon && -Epsilon <= p.y - q.y <= Epsilon
  {
    assert (p.x - q.x) * (p.x - q.x) >= 0.0;
    assert (p.y - q.y) * (p.y - q.y) >= 0.0;
    SmallOffset(p.x, q.x);
    SmallOffset(p.y, q.y);
  }

  /** A coordinate within `EPSILON` of one between `lo` and `hi` passes the widened bounds. */
  lemma NearWithinWidened(lo: real, hi: real, q: real, x: real)
    requires lo <= q <= hi && -Epsilon <= x - q <= Epsilon
    ensures lo - Epsilon <= x <= hi + Epsilon
  {
  }

  /** A point within `EPSILON` of the point at `s` in [0, 1] lies in the box of `a` and `b` widened by `EPSILON`. */
  lemma NearPointBounds(p: Vec2, a: Vec2, b: Vec2, s: real)
    requires 0.0 <= s <= 1.0 && SqDist(p, At(a, b, s)) <= EpsilonSquare
    ensures RMin(a.x, b.x) - Epsilon <= p.x <= RMax(a.x, b.x) + Epsilon
    ensures RMin(a.y, b.y) - Epsilon <= p.y <= RMax(a.y, b.y) + Epsilon
  {
    var q := At(a, b, s);
    CloseCoordinates(p, q);
    BetweenEndpoints(s, a.x, b.x);
    BetweenEndpoints(s, a.y, b.y);
    NearWithinWidened(RMin(a.x, b.x), RMax(a.x, b.x), q.x, p.x);
    NearWithinWidened(RMin(a.y, b.y), RMax(a.y, b.y), q.y, p.y);
  }

  /** A point near the segment `a b` lies in the box of `a` and `b` widened by `EPSILON`. */
  lemma NearSegmentBounds(p: Vec2, a: Vec2, b: Vec2)
    requires NearSegment(p, a, b)
    ensures RMin(a.x, b.x) - Epsilon <= p.x <= RMax(a.x, b.x) + Epsilon
    ensures RMin(a.y, b.y) - Epsilon <= p.y <= RMax(a.y, b.y) + Epsilon
  {
    var s :| 0.0 <= s <= 1.0 && SqDist(p, At(a, b, s)) <= EpsilonSquare;
    NearPointBounds(p, a, b, s);
  }

  /**
   * `point_in_triangle` accepts a pixel exactly when it is strictly inside
   * the non-degenerate triangle or within `EPSILON` of one of its edges:
   * the box pre-check only rejects pixels that neither test would accept.
   */
  lemma PointInTriangleIsCovered(point: Pixel, tri: seq<Vertex>)
    requires |tri| >= 3
    ensures PointInTriangle(point, tri) <==>
      Covered(PixelVec(point), VertexVec(tri[0]), VertexVec(tri[1]), VertexVec(tri[2]))
  {
    var v1, v2, v3, p := VertexVec(tri[0]), VertexVec(tri[1]), VertexVec(tri[2]), PixelVec(point);
    NaiveIsStrictlyInside(point, tri);
    NearSegmentIsDistance(v1, v2, p);
    NearSegmentIsDistance(v2, v3, p);
    NearSegmentIsDistance(v3, v1, p);
    if StrictlyInside(p, v1, v2, v3) {
      InsideWithinBox(p, v1, v2, v3);
    }
    if NearSegment(p, v1, v2) {
      NearSegmentBounds(p, v1, v2);
    }
    if NearSegment(p, v2, v3) {
      NearSegmentBounds(p, v2, v3);
    }
    if NearSegment(p, v3, v1) {
      NearSegmentBounds(p, v3, v1);
    }
  }

  /** Every pixel `point_in_triangle` accepts lies in the integer bounding box of the three vertices. */
  lemma CoveredWithinBoundingBox(point: Pixel, tri: seq<Vertex>)
    requires |tri| == 3 && PointInTriangle(point, tri)
    ensures InBox(BoundingBox(tri), point)
  {
    EpsilonBoxIsBoundingBox(point, tri);
  }

  /** Every pixel the strict barycentric test accepts is covered. */
  lemma CoversStrictInterior(point: Pixel, tri: seq<Vertex>)
    requires |tri| >= 3 && NaivePointInTriangle(point, tri)
    ensures PointInTriangle(point, tri)
  {
    var v1, v2, v3, p := VertexVec(tri[0]), VertexVec(tri[1]), VertexVec(tri[2]), PixelVec(point);
    NaiveIsStrictlyInside(point, tri);
    InsideWithinBox(p, v1, v2, v3);
  }

  /**
   * Each of the three vertices is covered, also when the triangle is
   * degenerate, although the strict barycentric test rejects all of them.
   */
  lemma CoversVertices(tri: seq<Vertex>, i: nat)
    requires |tri| >= 3 && i < 3
    ensures PointInTriangle(Pixel(tri[i].x as nat, tri[i].y as nat), tri)
  {
    var point := Pixel(tri[i].x as nat, tri[i].y as nat);
    var v1, v2, v3 := VertexVec(tri[0]), VertexVec(tri[1]), VertexVec(tri[2]);
    assert PixelVec(point) == VertexVec(tri[i]);
    if i == 0 {
      StartIsNear(v1, v2);
    } else if i == 1 {
      StartIsNear(v2, v3);
    } else {
      StartIsNear(v3, v1);
    }
    PointInTriangleIsCovered(point, tri);
  }

  /** The start of a segment is near it. */
  lemma StartIsNear(a: Vec2, b: Vec2)
    ensures NearSegment(a, a, b)
  {
    assert At(a, b, 0.0) == a;
    assert Sub(a, a) == Vec2(0.0, 0.0);
    assert EpsilonSquare > 0.0;
    assert SqDist(a, At(a, b, 0.0)) <= EpsilonSquare;
  }

  /** The first triangle of the source's unit test. */
  function TestTriangleA(): seq<Vertex> {
    [Vertex(245, 391), Vertex(115, 200), Vertex(306, 438)]
  }

  /** The second triangle of the source's unit test. */
  function TestTriangleB(): seq<Vertex> {
    [Vertex(375, 186), Vertex(2, 257), Vertex(483, 5)]
  }

  /** The first pixel of the source's unit test lies strictly inside the first triangle. */
  lemma SourceTestInsideA()
    ensures PointInTriangle(Pixel(234, 357), TestTriangleA())
  {
    assert NaivePointInTriangle(Pixel(234, 357), TestTriangleA());
  }

  lemma SourceTestOutsideA()
    ensures !PointInTriangle(Pixel(236, 277), TestTriangleA())
  {
  }

  lemma SourceTestInsideB()
    ensures PointInTriangle(Pixel(340, 110), TestTriangleB())
  {
  }

  lemma SourceTestOutsideB()
    ensures !PointInTriangle(Pixel(288, 82), TestTriangleB())
  {
  }

  lemma SourceTestVertexB()
    ensures PointInTriangle(Pixel(375, 186), TestTriangleB())
  {
    CoversVertices(TestTriangleB(), 0);
  }
}
