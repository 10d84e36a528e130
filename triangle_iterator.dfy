/**
 * `TriangleIterator`: a lazy form of `draw` that hands out the covered
 * pixels one row at a time, and how its rows compare with the rows `draw`
 * writes.
 */
module TriangleIter {
  import opened Wrappers
  import opened Triangle
  import opened TriangleDraw

  /**
   * The pixels of row `y` from column `x` through column `hi` that
   * `point_in_triangle` accepts, in increasing x: a `LineIterator` over the
   * row, filtered and collected.
   */
  function RowFrom(tri: seq<Vertex>, x: nat, hi: nat, y: nat): seq<Pixel>
    requires |tri| >= 3
    decreases hi + 1 - x
  {
    if x > hi then []
    else
      var rest := RowFrom(tri, x + 1, hi, y);
      if PointInTriangle(Pixel(x, y), tri) then [Pixel(x, y)] + rest else rest
  }

  /** A row holds exactly the covered pixels of row `y` in the columns scanned, each once, in increasing x. */
  lemma {:induction false} RowContents(tri: seq<Vertex>, x: nat, hi: nat, y: nat)
    requires |tri| >= 3
    ensures forall p :: p in RowFrom(tri, x, hi, y) <==> p.y == y && x <= p.x <= hi && PointInTriangle(p, tri)
    ensures forall j, k :: 0 <= j < k < |RowFrom(tri, x, hi, y)| ==> RowFrom(tri, x, hi, y)[j].x < RowFrom(tri, x, hi, y)[k].x
    decreases hi + 1 - x
  {
    if x <= hi {
      RowContents(tri, x + 1, hi, y);
    }
  }

  class TriangleIterator {
    const bbMinX: u32
    const bbMaxX: u32
    const bbMaxY: u32
    const triangle: seq<Vertex>
    /** The least y of the bounding box; the source does not keep it. */
    ghost const bbMinY: u32
    var y: u32

    ghost predicate Valid()
      reads this
    {
      |triangle| >= 3 &&
      var b := BoundingBox(triangle);
      bbMinX == b.minX && bbMaxX == b.maxX && bbMinY == b.minY && bbMaxY == b.maxY &&
      bbMinY <= y && y as int <= bbMaxY as int + 1
    }

    /** `TriangleIterator::new`: the bounding box of the triangle, with the row counter at its least y. */
    constructor (tri: seq<Vertex>)
      requires |tri| >= 3
      ensures Valid()
      ensures triangle == tri && y == BoundingBox(tri).minY
    {
      var b := BoundingBox(tri);
      bbMinX, bbMaxX, bbMaxY, bbMinY := b.minX, b.maxX, b.maxY, b.minY;
      triangle := tri;
      y := b.minY;
    }

    /**
     * `Iterator::next`: once the counter has passed `max_y` there is no
     * further row and nothing changes; otherwise the counter moves on by one
     * first, and the covered pixels of the row it now names come back. The
     * source panics when that increment overflows a `u32`, which the
     * precondition rules out.
     */
    method Next() returns (row: Option<seq<Pixel>>)
      requires Valid()
      requires y <= bbMaxY ==> y as int < U32Max
      modifies this
      ensures Valid()
      ensures old(y) > bbMaxY ==> row == None && y == old(y)
      ensures old(y) <= bbMaxY ==>
        y as int == old(y) as int + 1 && row == Some(RowFrom(triangle, bbMinX as nat, bbMaxX as nat, y as nat))
    {
      if y > bbMaxY {
        return None;
      }
      y := y + 1;
      row := Some(RowFrom(triangle, bbMinX as nat, bbMaxX as nat, y as nat));
    }
  }

  /** The pixels of row `y` the iterator collects: the whole width of the bounding box, filtered. */
  function IteratorRow(tri: seq<Vertex>, y: nat): seq<Pixel>
    requires |tri| >= 3
  {
    RowFrom(tri, BoundingBox(tri).minX as nat, BoundingBox(tri).maxX as nat, y)
  }

  /** A row of the iterator holds exactly the covered pixels of row `y` within the columns of the bounding box. */
  lemma IteratorRowContents(tri: seq<Vertex>, y: nat)
    requires |tri| >= 3
    ensures forall p :: p in IteratorRow(tri, y) <==>
      p.y == y && BoundingBox(tri).minX as nat <= p.x <= BoundingBox(tri).maxX as nat && PointInTriangle(p, tri)
  {
    RowContents(tri, BoundingBox(tri).minX as nat, BoundingBox(tri).maxX as nat, y);
  }

  /** `min_y + 1`: the counter starts at `min_y` and `next` moves it on before reading a row. */
  function FirstRow(tri: seq<Vertex>): nat
    requires |tri| >= 3
  {
    BoundingBox(tri).minY as nat + 1
  }

  /** `rows` are the iterator's rows `FirstRow(tri)`, `FirstRow(tri) + 1`, ... in order. */
  ghost predicate RowsInOrder(rows: seq<seq<Pixel>>, tri: seq<Vertex>)
    requires |tri| >= 3
  {
    forall k :: 0 <= k < |rows| ==> rows[k] == IteratorRow(tri, FirstRow(tri) + k)
  }

  /** Appending the row that comes next keeps the rows in order. */
  lemma RowsInOrderAppend(rows: seq<seq<Pixel>>, tri: seq<Vertex>, y: nat, row: seq<Pixel>)
    requires |tri| >= 3 && RowsInOrder(rows, tri)
    requires y == FirstRow(tri) + |rows| && row == IteratorRow(tri, y)
    ensures RowsInOrder(rows + [row], tri)
  {
  }

  /**
   * Drains a fresh iterator, as a `for` loop over it does. It yields one
   * row per y from `min_y + 1` through `max_y + 1`, each holding the
   * covered pixels of that row across the bounding box, and then stops.
   */
  method AllRows(tri: seq<Vertex>) returns (rows: seq<seq<Pixel>>)
    requires |tri| >= 3 && BoundingBox(tri).maxY as int < U32Max
    ensures |rows| == BoundingBox(tri).maxY as int - BoundingBox(tri).minY as int + 1
    ensures forall k :: 0 <= k < |rows| ==> rows[k] == IteratorRow(tri, FirstRow(tri) + k)
  {
    var it := new TriangleIterator(tri);
    ghost var maxY := BoundingBox(tri).maxY as nat;
    rows := [];
    var next := it.Next();
    while next.Some?
      invariant it.Valid() && it.triangle == tri
      invariant next.Some? ==> FirstRow(tri) <= it.y as nat <= maxY + 1 && |rows| == it.y as nat - FirstRow(tri)
      invariant next.Some? ==> next.value == IteratorRow(tri, it.y as nat)
      invariant next.None? ==> it.y as nat == maxY + 1 && |rows| == it.y as nat + 1 - FirstRow(tri)
      invariant RowsInOrder(rows, tri)
      decreases maxY + 2 - it.y as int, if next.Some? then 1 else 0
    {
      RowsInOrderAppend(rows, tri, it.y as nat, next.value);
      rows := rows + [next.value];
      next := it.Next();
    }
  }

  /** Between the top and the bottom of the bounding box, the iterator's rows hold exactly the pixels `draw` writes. */
  lemma InnerRowsAgree(tri: seq<Vertex>, p: Pixel)
    requires |tri| >= 3
    requires BoundingBox(tri).minY as nat < p.y < BoundingBox(tri).maxY as nat
    ensures p in IteratorRow(tri, p.y) <==> Drawn(tri, p.x, p.y)
  {
    IteratorRowContents(tri, p.y);
  }

  /** A pixel never appears in the iterator's row for another scanline. */
  lemma OtherRowMisses(tri: seq<Vertex>, p: Pixel, y: nat)
    requires |tri| >= 3 && p.y != y
    ensures p !in IteratorRow(tri, y)
  {
    IteratorRowContents(tri, y);
  }

  /** A covered pixel within the columns of the bounding box appears in the iterator's row for its own scanline. */
  lemma OwnRowHolds(tri: seq<Vertex>, p: Pixel)
    requires |tri| >= 3 && PointInTriangle(p, tri)
    requires BoundingBox(tri).minX as nat <= p.x <= BoundingBox(tri).maxX as nat
    ensures p in IteratorRow(tri, p.y)
  {
    IteratorRowContents(tri, p.y);
  }

  /** A pixel above the first row the iterator reads appears in none of its rows. */
  lemma AboveFirstRowMisses(tri: seq<Vertex>, p: Pixel)
    requires |tri| >= 3 && p.y < FirstRow(tri)
    ensures forall y: nat :: FirstRow(tri) <= y ==> p !in IteratorRow(tri, y)
  {
    forall y: nat | FirstRow(tri) <= y
      ensures p !in IteratorRow(tri, y)
    {
      OtherRowMisses(tri, p, y);
    }
  }

  /** A covered pixel within the columns of the bounding box appears in the row for its own scanline and in no other. */
  lemma OnlyOwnRowHolds(tri: seq<Vertex>, p: Pixel)
    requires |tri| >= 3 && PointInTriangle(p, tri)
    requires BoundingBox(tri).minX as nat <= p.x <= BoundingBox(tri).maxX as nat
    ensures forall y: nat :: p in IteratorRow(tri, y) <==> y == p.y
  {
    forall y: nat
      ensures p in IteratorRow(tri, y) <==> y == p.y
    {
      if y == p.y {
        OwnRowHolds(tri, p);
      } else {
        OtherRowMisses(tri, p, y);
      }
    }
  }

  /**
   * A vertex on the top row `min_y` is covered, and `draw` writes it unless
   * the triangle is flat (`min_y == max_y`); the rows of the iterator start
   * at `min_y + 1`, so none of them holds that vertex.
   */
  lemma TopVertexOnlyDrawn(tri: seq<Vertex>, i: nat)
    requires |tri| == 3 && i < 3 && tri[i].y == BoundingBox(tri).minY
    ensures PointInTriangle(Pixel(tri[i].x as nat, tri[i].y as nat), tri)
    ensures BoundingBox(tri).minY < BoundingBox(tri).maxY ==> Drawn(tri, tri[i].x as nat, tri[i].y as nat)
    ensures forall y: nat :: FirstRow(tri) <= y ==> Pixel(tri[i].x as nat, tri[i].y as nat) !in IteratorRow(tri, y)
  {
    CoversVertices(tri, i);
    AboveFirstRowMisses(tri, Pixel(tri[i].x as nat, tri[i].y as nat));
  }

  /**
   * A vertex on the bottom row `max_y` is covered, but `draw` stops one row
   * short and never writes it. Of all rows only the row `max_y` holds it;
   * the iterator yields the rows `min_y + 1` through `max_y + 1`, so it
   * yields that vertex exactly when the triangle is not flat.
   */
  lemma BottomVertexOnlyIterated(tri: seq<Vertex>, i: nat)
    requires |tri| == 3 && i < 3 && tri[i].y == BoundingBox(tri).maxY
    ensures PointInTriangle(Pixel(tri[i].x as nat, tri[i].y as nat), tri)
    ensures !Drawn(tri, tri[i].x as nat, tri[i].y as nat)
    ensures forall y: nat :: Pixel(tri[i].x as nat, tri[i].y as nat) in IteratorRow(tri, y) <==> y == BoundingBox(tri).maxY as nat
    ensures BoundingBox(tri).minY < BoundingBox(tri).maxY <==>
      exists y: nat :: FirstRow(tri) <= y <= BoundingBox(tri).maxY as nat + 1 &&
        Pixel(tri[i].x as nat, tri[i].y as nat) in IteratorRow(tri, y)
  {
    CoversVertices(tri, i);
    OnlyOwnRowHolds(tri, Pixel(tri[i].x as nat, tri[i].y as nat));
    if BoundingBox(tri).minY < BoundingBox(tri).maxY {
      assert Pixel(tri[i].x as nat, tri[i].y as nat) in IteratorRow(tri, BoundingBox(tri).maxY as nat);
    }
  }

  /** The last row the iterator yields, `max_y + 1`, lies below the triangle and is always empty. */
  lemma LastRowEmpty(tri: seq<Vertex>)
    requires |tri| == 3
    ensures IteratorRow(tri, BoundingBox(tri).maxY as nat + 1) == []
  {
    var row := IteratorRow(tri, BoundingBox(tri).maxY as nat + 1);
    if row != [] {
      IteratorRowContents(tri, BoundingBox(tri).maxY as nat + 1);
      CoveredWithinBoundingBox(row[0], tri);
      assert false;
    }
  }
}
