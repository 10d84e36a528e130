/**
 * `draw`: scan the rows of the bounding box, walk each row from the least
 * to the greatest x, and write the colour into the frame buffer at every
 * pixel `point_in_triangle` accepts.
 */
module TriangleDraw {
  import opened Triangle

  /** `utils::xy`: the row-major index of pixel (x, y) in a buffer `width` pixels wide. */
  function Xy(x: nat, y: nat, width: nat): (i: nat)
    ensures i >= y * width && (x < width ==> i < (y + 1) * width)
  {
    y * width + x
  }

  /**
   * The pixels `draw` writes: rows `min_y` up to but not including `max_y`,
   * columns `min_x` through `max_x`, accepted by `point_in_triangle`.
   */
  predicate Drawn(tri: seq<Vertex>, x: nat, y: nat)
    requires |tri| >= 3
  {
    var b := BoundingBox(tri);
    b.minY as nat <= y < b.maxY as nat && b.minX as nat <= x <= b.maxX as nat && PointInTriangle(Pixel(x, y), tri)
  }

  /** Buffer cell `i` is the index of some drawn pixel. */
  ghost predicate Painted(tri: seq<Vertex>, width: nat, i: nat)
    requires |tri| >= 3
  {
    exists x: nat, y: nat :: Drawn(tri, x, y) && Xy(x, y, width) == i
  }

  /** Pixel (x, y) comes before pixel (col, row) in the scan order of `draw`. */
  predicate ScannedBefore(x: nat, y: nat, col: nat, row: nat) {
    y < row || (y == row && x < col)
  }

  /** Buffer cell `i` is the index of a drawn pixel that the scan reaches before (col, row). */
  ghost predicate PaintedBefore(tri: seq<Vertex>, width: nat, i: nat, col: nat, row: nat)
    requires |tri| >= 3
  {
    exists x: nat, y: nat :: Drawn(tri, x, y) && ScannedBefore(x, y, col, row) && Xy(x, y, width) == i
  }

  /** Nothing is painted before the scan starts. */
  lemma NothingBeforeStart(tri: seq<Vertex>, width: nat, i: nat, minX: nat, minY: nat)
    requires |tri| >= 3 && minX == BoundingBox(tri).minX as nat && minY == BoundingBox(tri).minY as nat
    ensures !PaintedBefore(tri, width, i, minX, minY)
  {
  }

  /** Moving the scan one pixel on within a row adds exactly the pixel passed over. */
  lemma {:induction false} PaintedStep(tri: seq<Vertex>, width: nat, i: nat, col: nat, row: nat)
    requires |tri| >= 3
    ensures PaintedBefore(tri, width, i, col + 1, row) <==>
      PaintedBefore(tri, width, i, col, row) || (Drawn(tri, col, row) && Xy(col, row, width) == i)
  {
    if PaintedBefore(tri, width, i, col + 1, row) {
      var x: nat, y: nat :| Drawn(tri, x, y) && ScannedBefore(x, y, col + 1, row) && Xy(x, y, width) == i;
      if x != col || y != row {
        assert ScannedBefore(x, y, col, row);
      }
    }
    if PaintedBefore(tri, width, i, col, row) {
      var x: nat, y: nat :| Drawn(tri, x, y) && ScannedBefore(x, y, col, row) && Xy(x, y, width) == i;
      assert ScannedBefore(x, y, col + 1, row);
    }
    if Drawn(tri, col, row) && Xy(col, row, width) == i {
      assert ScannedBefore(col, row, col + 1, row);
    }
  }

  /** Past the last column of a row, the scan has painted what it paints before the next row starts. */
  lemma {:induction false} PaintedNextRow(tri: seq<Vertex>, width: nat, i: nat, minX: nat, pastEnd: nat, row: nat, nextRow: nat)
    requires |tri| >= 3 && minX == BoundingBox(tri).minX as nat && pastEnd == BoundingBox(tri).maxX as nat + 1
    requires nextRow == row + 1
    ensures PaintedBefore(tri, width, i, pastEnd, row) <==> PaintedBefore(tri, width, i, minX, nextRow)
  {
    if PaintedBefore(tri, width, i, pastEnd, row) {
      var x: nat, y: nat :| Drawn(tri, x, y) && ScannedBefore(x, y, pastEnd, row) && Xy(x, y, width) == i;
      assert ScannedBefore(x, y, minX, nextRow);
    }
    if PaintedBefore(tri, width, i, minX, nextRow) {
      var x: nat, y: nat :| Drawn(tri, x, y) && ScannedBefore(x, y, minX, nextRow) && Xy(x, y, width) == i;
      assert ScannedBefore(x, y, pastEnd, row);
    }
  }

  /** When the scan reaches row `max_y`, everything `draw` paints has been painted. */
  lemma {:induction false} PaintedAtEnd(tri: seq<Vertex>, width: nat, i: nat, minX: nat, maxY: nat)
    requires |tri| >= 3 && minX == BoundingBox(tri).minX as nat && maxY == BoundingBox(tri).maxY as nat
    ensures PaintedBefore(tri, width, i, minX, maxY) <==> Painted(tri, width, i)
  {
    if Painted(tri, width, i) {
      var x: nat, y: nat :| Drawn(tri, x, y) && Xy(x, y, width) == i;
      assert ScannedBefore(x, y, minX, maxY);
    }
  }

  /**
   * `draw`. The source indexes the buffer without a check and panics when
   * a drawn pixel falls outside it; the precondition rules that out. Every
   * buffer cell ends up holding the colour when some drawn pixel maps to it
   * and keeps its old value otherwise.
   */
  method Draw(tri: seq<Vertex>, bgra: u32, buffer: array<u32>, width: nat)
    requires |tri| >= 3
    requires forall x: nat, y: nat :: Drawn(tri, x, y) ==> Xy(x, y, width) < buffer.Length
    modifies buffer
    ensures forall i :: 0 <= i < buffer.Length ==>
      buffer[i] == if Painted(tri, width, i) then bgra else old(buffer[i])
  {
    var b := BoundingBox(tri);
    var minX, maxX, minY, maxY := b.minX as nat, b.maxX as nat, b.minY as nat, b.maxY as nat;
    forall i | 0 <= i < buffer.Length {
      NothingBeforeStart(tri, width, i, minX, minY);
    }
    var y := minY;
    while y < maxY
      invariant minY <= y <= maxY
      invariant forall i :: 0 <= i < buffer.Length ==>
        buffer[i] == if PaintedBefore(tri, width, i, minX, y) then bgra else old(buffer[i])
    {
      var x := minX;
      while x <= maxX
        invariant minX <= x <= maxX + 1
        invariant forall i :: 0 <= i < buffer.Length ==>
          buffer[i] == if PaintedBefore(tri, width, i, x, y) then bgra else old(buffer[i])
      {
        if PointInTriangle(Pixel(x, y), tri) {
          assert Drawn(tri, x, y);
          buffer[Xy(x, y, width)] := bgra;
        }
        forall i | 0 <= i < buffer.Length {
          PaintedStep(tri, width, i, x, y);
        }
        x := x + 1;
      }
      forall i | 0 <= i < buffer.Length {
        PaintedNextRow(tri, width, i, minX, x, y, y + 1);
      }
      y := y + 1;
    }
    forall i | 0 <= i < buffer.Length {
      PaintedAtEnd(tri, width, i, minX, maxY);
    }
  }
}
