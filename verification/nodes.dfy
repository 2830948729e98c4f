/** The four mask-combining nodes as the host calls them: both inputs first
    go through `mask_size_match`, then the cell-by-cell kernel is applied.
    The resampler is the parameter `resize`; each node needs of it only that
    it delivers the target shape for the inputs it is given. */
module Nodes {
  import opened Grid
  import opened SizeMatch
  import opened Kernels

  /** The shape every combining node returns. */
  function Target(a: Mask, b: Mask): Shape {
    TargetShape(ShapeOf(a), ShapeOf(b))
  }

  /** `SwarmOverMergeMasksForOverlapFix.mask_overmerge`. */
  function OverMergeNode(a: Mask, b: Mask, resize: (Mask, Shape) -> Mask): (r: Mask)
    requires Rectangular(a) && Rectangular(b) && ResizeFits(a, b, resize)
    ensures HasShape(r, Target(a, b))
    ensures Aligned(a, b) ==> r == OverMerge(a, b)
  {
    MatchedAreAligned(a, b, resize);
    var p := MatchSizes(a, b, resize);
    OverMerge(p.0, p.1)
  }

  /** `SwarmCleanOverlapMasks.mask_overlap`. */
  function CleanOverlapNode(a: Mask, b: Mask, resize: (Mask, Shape) -> Mask): (r: (Mask, Mask))
    requires Rectangular(a) && Rectangular(b) && ResizeFits(a, b, resize)
    ensures HasShape(r.0, Target(a, b)) && HasShape(r.1, Target(a, b))
    ensures Aligned(a, b) ==> r == CleanOverlap(a, b)
  {
    MatchedAreAligned(a, b, resize);
    var p := MatchSizes(a, b, resize);
    CleanOverlap(p.0, p.1)
  }

  /** `SwarmCleanOverlapMasksExceptSelf.mask_clean`. */
  function CleanExceptSelfNode(self: Mask, merged: Mask, resize: (Mask, Shape) -> Mask): (r: Mask)
    requires Rectangular(self) && Rectangular(merged) && ResizeFits(self, merged, resize)
    ensures HasShape(r, Target(self, merged))
    ensures Aligned(self, merged) ==> r == CleanExceptSelf(self, merged)
  {
    MatchedAreAligned(self, merged, resize);
    var p := MatchSizes(self, merged, resize);
    CleanExceptSelf(p.0, p.1)
  }

  /** `SwarmExcludeFromMask.mask_exclude`: whatever the inputs and however
      they are resampled, every weight of the result is in [0, 1]. */
  function ExcludeNode(main: Mask, exclude: Mask, resize: (Mask, Shape) -> Mask): (r: Mask)
    requires Rectangular(main) && Rectangular(exclude) && ResizeFits(main, exclude, resize)
    ensures HasShape(r, Target(main, exclude))
    ensures WithinUnit(r)
    ensures Aligned(main, exclude) ==> r == Exclude(main, exclude)
  {
    MatchedAreAligned(main, exclude, resize);
    var p := MatchSizes(main, exclude, resize);
    Exclude(p.0, p.1)
  }

  /** The resampler fits a pair in either order. */
  lemma ResizeFitsSwapped(a: Mask, b: Mask, resize: (Mask, Shape) -> Mask)
    requires ResizeFits(a, b, resize)
    ensures ResizeFits(b, a, resize)
  {
    assert TargetShape(ShapeOf(a), ShapeOf(b)) == TargetShape(ShapeOf(b), ShapeOf(a));
  }

  /** Over-merging is commutative also when the masks have to be resampled
      first. */
  lemma OverMergeNodeCommutes(a: Mask, b: Mask, resize: (Mask, Shape) -> Mask)
    requires Rectangular(a) && Rectangular(b) && ResizeFits(a, b, resize)
    ensures ResizeFits(b, a, resize)
    ensures OverMergeNode(a, b, resize) == OverMergeNode(b, a, resize)
  {
    ResizeFitsSwapped(a, b, resize);
    MatchSizesSwaps(a, b, resize);
    MatchedAreAligned(a, b, resize);
    var p := MatchSizes(a, b, resize);
    OverMergeCommutes(p.0, p.1);
  }

  /** Swapping the inputs of the symmetric clean swaps its outputs, also when
      the masks have to be resampled first. */
  lemma CleanOverlapNodeSwaps(a: Mask, b: Mask, resize: (Mask, Shape) -> Mask)
    requires Rectangular(a) && Rectangular(b) && ResizeFits(a, b, resize)
    ensures ResizeFits(b, a, resize)
    ensures CleanOverlapNode(b, a, resize) == (CleanOverlapNode(a, b, resize).1, CleanOverlapNode(a, b, resize).0)
  {
    ResizeFitsSwapped(a, b, resize);
    MatchSizesSwaps(a, b, resize);
    MatchedAreAligned(a, b, resize);
    var p := MatchSizes(a, b, resize);
    CleanOverlapSwaps(p.0, p.1);
  }

  /** Where the resampled pair overlaps with a total weight in (1, 9999],
      the two outputs of the symmetric clean add up to 1. */
  lemma CleanOverlapNodePartition(a: Mask, b: Mask, resize: (Mask, Shape) -> Mask)
    requires Rectangular(a) && Rectangular(b) && ResizeFits(a, b, resize)
    ensures var p := MatchSizes(a, b, resize);
      var r := CleanOverlapNode(a, b, resize);
      forall i, j ::
        (0 <= i < Target(a, b).rows && 0 <= j < Target(a, b).cols && DivisorFloor < p.0[i][j] + p.1[i][j] <= DivisorCeiling)
        ==> r.0[i][j] + r.1[i][j] == 1.0
  {
    MatchedAreAligned(a, b, resize);
    var p := MatchSizes(a, b, resize);
    CleanOverlapPartition(p.0, p.1);
  }

  /** Two all-ones 4x4 masks over-merge to an all-twos 4x4 mask. */
  lemma OverMergeOfOnes(resize: (Mask, Shape) -> Mask)
    ensures OverMergeNode(Filled(Shape(4, 4), 1.0), Filled(Shape(4, 4), 1.0), resize) == Filled(Shape(4, 4), 2.0)
  {
    var ones := Filled(Shape(4, 4), 1.0);
    SameShapeAligned(ones, ones, Shape(4, 4));
    var r := OverMergeNode(ones, ones, resize);
    var twos := Filled(Shape(4, 4), 2.0);
    forall i | 0 <= i < 4
      ensures r[i] == twos[i]
    {
      assert forall j :: 0 <= j < 4 ==> r[i][j] == twos[i][j];
    }
  }
}
