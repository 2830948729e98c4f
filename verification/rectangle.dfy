/** `SwarmSquareMaskFromPercent`: a fixed 256x256 canvas that is zero except
    for one rectangle, given in fractions of the canvas, painted with
    `strength`. The node allocates a zero mask and assigns the rectangle
    through a 2-D slice, so the model does the same: `SliceAssign` is the
    slice assignment, `MaskFromPercent` the node. */
module Rectangle {
  import opened Grid

  /** Side of the square canvas, in cells. */
  const CanvasSize: nat := 256

  function CanvasShape(): Shape {
    Shape(CanvasSize, CanvasSize)
  }

  /** Fractions and strength inside the [0, 1] range the node declares for
      each of its five inputs. */
  predicate InUnit(v: real) {
    0.0 <= v <= 1.0
  }

  /** `m[rowStart:rowStop, colStart:colStop] = v`: the cells the two slices
      select take `v`, every other cell keeps its value. */
  function SliceAssign(m: Mask, rowStart: int, rowStop: int, colStart: int, colStop: int, v: real): (r: Mask)
    requires Rectangular(m)
    ensures HasShape(r, ShapeOf(m))
    ensures forall i, j :: 0 <= i < |m| && 0 <= j < Width(m) ==>
      r[i][j] == (if InSlice(i, rowStart, rowStop, |m|) && InSlice(j, colStart, colStop, Width(m)) then v else m[i][j])
  {
    seq(|m|, i requires 0 <= i < |m| =>
      seq(Width(m), j requires 0 <= j < Width(m) =>
        if InSlice(i, rowStart, rowStop, |m|) && InSlice(j, colStart, colStop, Width(m)) then v else m[i][j]))
  }

  /** First row/column painted for a fraction `f`: `int(f*256)`. */
  function FirstCell(f: real): int {
    Trunc(f * CanvasSize as real)
  }

  /** Exclusive end of the painted rows/columns for the fraction `f + extent`. */
  function StopCell(f: real, extent: real): int {
    Trunc((f + extent) * CanvasSize as real)
  }

  /** The slice `[int(f*256):int((f+extent)*256)]` of a canvas axis selects
      exactly the cells from floor(f*256) up to, excluding, the smaller of
      256 and floor((f+extent)*256). */
  lemma FractionSlice(f: real, extent: real)
    requires InUnit(f) && InUnit(extent)
    ensures forall i :: 0 <= i < CanvasSize ==>
      (InSlice(i, FirstCell(f), StopCell(f, extent), CanvasSize) <==>
       (f * CanvasSize as real).Floor <= i < Min(CanvasSize, ((f + extent) * CanvasSize as real).Floor))
  {
    TruncOfNonNegative(f * CanvasSize as real);
    TruncOfNonNegative((f + extent) * CanvasSize as real);
    assert (f * CanvasSize as real).Floor <= CanvasSize;
  }

  /** The node `mask_from_perc`. A cell holds `strength` exactly when its row
      lies in [floor(y*256), min(256, floor((y+height)*256))) and its column
      in [floor(x*256), min(256, floor((x+width)*256))); all other cells are 0.
      An end beyond the canvas is cut at its edge, and a start at or past the
      end paints nothing. */
  function MaskFromPercent(x: real, y: real, width: real, height: real, strength: real): (r: Mask)
    requires InUnit(x) && InUnit(y) && InUnit(width) && InUnit(height) && InUnit(strength)
    ensures HasShape(r, CanvasShape())
    ensures forall i, j :: 0 <= i < CanvasSize && 0 <= j < CanvasSize ==>
      r[i][j] == (if (y * CanvasSize as real).Floor <= i < Min(CanvasSize, ((y + height) * CanvasSize as real).Floor)
                     && (x * CanvasSize as real).Floor <= j < Min(CanvasSize, ((x + width) * CanvasSize as real).Floor)
                  then strength else 0.0)
  {
    var zeros := Filled(CanvasShape(), 0.0);
    HasShapeIsRectangular(zeros, CanvasShape());
    FractionSlice(y, height);
    FractionSlice(x, width);
    SliceAssign(zeros, FirstCell(y), StopCell(y, height), FirstCell(x), StopCell(x, width), strength)
  }

  /** With a positive strength, a cell is painted exactly when it is inside
      the truncated and clipped rectangle. */
  lemma PaintedIffInside(x: real, y: real, width: real, height: real, strength: real, i: nat, j: nat)
    requires InUnit(x) && InUnit(y) && InUnit(width) && InUnit(height) && InUnit(strength)
    requires 0.0 < strength && i < CanvasSize && j < CanvasSize
    ensures MaskFromPercent(x, y, width, height, strength)[i][j] == strength <==>
      ((y * CanvasSize as real).Floor <= i < ((y + height) * CanvasSize as real).Floor && (x * CanvasSize as real).Floor <= j < ((x + width) * CanvasSize as real).Floor)
  {
  }

  /** Zero width or zero height (the declared defaults) gives an empty slice,
      hence the all-zero mask. */
  lemma ZeroExtentIsBlank(x: real, y: real, width: real, height: real, strength: real)
    requires InUnit(x) && InUnit(y) && InUnit(width) && InUnit(height) && InUnit(strength)
    requires width == 0.0 || height == 0.0
    ensures MaskFromPercent(x, y, width, height, strength) == Filled(CanvasShape(), 0.0)
  {
    var r := MaskFromPercent(x, y, width, height, strength);
    var z := Filled(CanvasShape(), 0.0);
    forall i | 0 <= i < CanvasSize
      ensures r[i] == z[i]
    {
      assert forall j :: 0 <= j < CanvasSize ==> r[i][j] == 0.0;
    }
  }

  /** The centred half-size square: rows and columns 64..191 hold 1.0. */
  lemma CentredSquare(i: nat, j: nat)
    requires i < CanvasSize && j < CanvasSize
    ensures MaskFromPercent(0.25, 0.25, 0.5, 0.5, 1.0)[i][j] == (if 64 <= i < 192 && 64 <= j < 192 then 1.0 else 0.0)
  {
  }

  /** A rectangle that runs past the right or bottom edge is clipped there:
      the last row and column are painted whenever the rectangle starts
      inside the canvas and reaches its edge. */
  lemma OverhangReachesEdge(x: real, y: real, width: real, height: real, strength: real)
    requires InUnit(x) && InUnit(y) && InUnit(width) && InUnit(height) && InUnit(strength)
    requires x < 1.0 && y < 1.0 && 1.0 <= x + width && 1.0 <= y + height
    ensures MaskFromPercent(x, y, width, height, strength)[CanvasSize - 1][CanvasSize - 1] == strength
  {
  }
}
