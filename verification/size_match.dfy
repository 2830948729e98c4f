/** `mask_size_match`: before two masks are combined, each is brought to the
    per-dimension maximum of the two shapes. The resampling itself is a call
    into the tensor library (linear interpolation) and is not modelled; it is
    the parameter `resize`, asked for a mask and a target shape. Only a mask
    whose shape differs from the target is handed to it. */
module SizeMatch {
  import opened Grid

  /** The shape both masks are brought to: the larger height and the larger
      width. */
  function TargetShape(a: Shape, b: Shape): (t: Shape)
    ensures a.rows <= t.rows && b.rows <= t.rows && (t.rows == a.rows || t.rows == b.rows)
    ensures a.cols <= t.cols && b.cols <= t.cols && (t.cols == a.cols || t.cols == b.cols)
  {
    Shape(if a.rows < b.rows then b.rows else a.rows, if a.cols < b.cols then b.cols else a.cols)
  }

  /** One side of the reconciliation: kept as is when it already has the
      target shape, resampled otherwise. */
  function FitTo(m: Mask, t: Shape, resize: (Mask, Shape) -> Mask): Mask {
    if ShapeOf(m) == t then m else resize(m, t)
  }

  /** The foreign resampler delivers the target shape for each input it is
      actually given. This is the only thing the model assumes about it. */
  predicate ResizeFits(a: Mask, b: Mask, resize: (Mask, Shape) -> Mask) {
    var t := TargetShape(ShapeOf(a), ShapeOf(b));
    (ShapeOf(a) != t ==> HasShape(resize(a, t), t)) &&
    (ShapeOf(b) != t ==> HasShape(resize(b, t), t))
  }

  /** `mask_size_match(mask_a, mask_b)`. A mask already of the target shape is
      returned unchanged and, given a resampler that fits, both results have
      the target shape, so they can be combined cell by cell. */
  function MatchSizes(a: Mask, b: Mask, resize: (Mask, Shape) -> Mask): (r: (Mask, Mask))
    requires Rectangular(a) && Rectangular(b)
    ensures ShapeOf(a) == TargetShape(ShapeOf(a), ShapeOf(b)) ==> r.0 == a
    ensures ShapeOf(b) == TargetShape(ShapeOf(a), ShapeOf(b)) ==> r.1 == b
    ensures ResizeFits(a, b, resize) ==>
      HasShape(r.0, TargetShape(ShapeOf(a), ShapeOf(b))) && HasShape(r.1, TargetShape(ShapeOf(a), ShapeOf(b)))
  {
    var t := TargetShape(ShapeOf(a), ShapeOf(b));
    (FitTo(a, t, resize), FitTo(b, t, resize))
  }

  /** Equal shapes: both masks come back unchanged, whatever the resampler. */
  lemma EqualShapesUnchanged(a: Mask, b: Mask, resize: (Mask, Shape) -> Mask)
    requires Aligned(a, b)
    ensures MatchSizes(a, b, resize) == (a, b)
  {
  }

  /** Given a resampler that fits, the reconciled pair is aligned and has the
      target shape. */
  lemma MatchedAreAligned(a: Mask, b: Mask, resize: (Mask, Shape) -> Mask)
    requires Rectangular(a) && Rectangular(b) && ResizeFits(a, b, resize)
    ensures Aligned(MatchSizes(a, b, resize).0, MatchSizes(a, b, resize).1)
    ensures ShapeOf(MatchSizes(a, b, resize).0) == TargetShape(ShapeOf(a), ShapeOf(b))
  {
    var t := TargetShape(ShapeOf(a), ShapeOf(b));
    var r := MatchSizes(a, b, resize);
    if t.rows == 0 {
      assert t.cols == 0;
    } else {
      HasShapeIsRectangular(r.0, t);
      HasShapeIsRectangular(r.1, t);
    }
  }

  /** Swapping the two masks swaps the reconciled pair: the target shape does
      not depend on the order of the arguments. */
  lemma MatchSizesSwaps(a: Mask, b: Mask, resize: (Mask, Shape) -> Mask)
    requires Rectangular(a) && Rectangular(b)
    ensures MatchSizes(b, a, resize) == (MatchSizes(a, b, resize).1, MatchSizes(a, b, resize).0)
  {
  }
}
