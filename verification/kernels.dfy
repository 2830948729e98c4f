/** The cell-by-cell arithmetic of the four combining nodes, applied to two
    masks that already have the same shape (what `mask_size_match` hands
    them). The nodes themselves, with the size matching in front, are in
    module `Nodes`. */
module Kernels {
  import opened Grid

  /** Lowest and highest value the overlap divisor is clamped to. */
  const DivisorFloor: real := 1.0
  const DivisorCeiling: real := 9999.0

  /** `clamp(s, 1.0, 9999.0)`: the per-cell divisor of both cleaning nodes.
      It is never below 1, so every division by it is defined; it is the
      total weight itself whenever that lies in [1, 9999], and 9999 above. */
  function Divisor(s: real): (d: real)
    ensures DivisorFloor <= d <= DivisorCeiling
    ensures DivisorFloor <= s <= DivisorCeiling ==> d == s
    ensures s <= DivisorFloor ==> d == DivisorFloor
    ensures DivisorCeiling <= s ==> d == DivisorCeiling
  {
    Clamp(s, DivisorFloor, DivisorCeiling)
  }

  /** Every cell lies in [0, 1]. */
  predicate WithinUnit(m: Mask) {
    forall i, j :: 0 <= i < |m| && 0 <= j < |m[i]| ==> 0.0 <= m[i][j] <= 1.0
  }

  /** Every cell is 0. */
  predicate Blank(m: Mask) {
    forall i, j :: 0 <= i < |m| && 0 <= j < |m[i]| ==> m[i][j] == 0.0
  }

  /** `mask_a + mask_b`: the over-merged weight of two regions. */
  function OverMerge(a: Mask, b: Mask): (r: Mask)
    requires Aligned(a, b)
    ensures HasShape(r, ShapeOf(a))
    ensures forall i, j :: 0 <= i < |a| && 0 <= j < Width(a) ==> r[i][j] == a[i][j] + b[i][j]
  {
    seq(|a|, i requires 0 <= i < |a| =>
      seq(Width(a), j requires 0 <= j < Width(a) => a[i][j] + b[i][j]))
  }

  /** `mask_overlap`: each mask divided by the clamped sum of the two. */
  function CleanOverlap(a: Mask, b: Mask): (r: (Mask, Mask))
    requires Aligned(a, b)
    ensures HasShape(r.0, ShapeOf(a)) && HasShape(r.1, ShapeOf(a))
    ensures forall i, j :: 0 <= i < |a| && 0 <= j < Width(a) ==>
      r.0[i][j] == a[i][j] / Divisor(a[i][j] + b[i][j]) &&
      r.1[i][j] == b[i][j] / Divisor(a[i][j] + b[i][j])
  {
    (seq(|a|, i requires 0 <= i < |a| =>
       seq(Width(a), j requires 0 <= j < Width(a) => a[i][j] / Divisor(a[i][j] + b[i][j]))),
     seq(|a|, i requires 0 <= i < |a| =>
       seq(Width(a), j requires 0 <= j < Width(a) => b[i][j] / Divisor(a[i][j] + b[i][j]))))
  }

  /** `mask_clean`: one mask divided by the clamped weight of an already
      merged mask. */
  function CleanExceptSelf(self: Mask, merged: Mask): (r: Mask)
    requires Aligned(self, merged)
    ensures HasShape(r, ShapeOf(self))
    ensures forall i, j :: 0 <= i < |self| && 0 <= j < Width(self) ==>
      r[i][j] == self[i][j] / Divisor(merged[i][j])
  {
    seq(|self|, i requires 0 <= i < |self| =>
      seq(Width(self), j requires 0 <= j < Width(self) => self[i][j] / Divisor(merged[i][j])))
  }

  /** `mask_exclude`: the main mask minus the excluded one, clamped to [0, 1].
      Whatever the inputs, the result is a mask of weights in [0, 1]. */
  function Exclude(main: Mask, exclude: Mask): (r: Mask)
    requires Aligned(main, exclude)
    ensures HasShape(r, ShapeOf(main))
    ensures WithinUnit(r)
    ensures forall i, j :: 0 <= i < |main| && 0 <= j < Width(main) ==>
      r[i][j] == Clamp(main[i][j] - exclude[i][j], 0.0, 1.0)
  {
    seq(|main|, i requires 0 <= i < |main| =>
      seq(Width(main), j requires 0 <= j < Width(main) => Clamp(main[i][j] - exclude[i][j], 0.0, 1.0)))
  }

  // ---------------------------------------------------------------------
  // One cell

  /** Dividing two weights by the same divisor divides their sum. */
  lemma {:induction false} SplitQuotient(p: real, q: real, d: real)
    requires d != 0.0
    ensures p / d + q / d == (p + q) / d
  {
  }

  /** Two weights divided by their clamped sum add up to 1 once that sum is
      in (1, 9999]. */
  lemma {:induction false} SharesOfTotal(p: real, q: real)
    requires DivisorFloor < p + q <= DivisorCeiling
    ensures p / Divisor(p + q) + q / Divisor(p + q) == 1.0
  {
    var d := Divisor(p + q);
    assert d == p + q;
    SplitQuotient(p, q, d);
  }

  /** A weight in [0, s] divided by the clamped s, for s at most 9999, lies
      in [0, 1]. */
  lemma {:induction false} ShareWithinUnit(p: real, s: real)
    requires 0.0 <= p <= s <= DivisorCeiling
    ensures 0.0 <= p / Divisor(s) <= 1.0
  {
    var d := Divisor(s);
    assert p <= d;
    assert p / d <= d / d;
  }

  /** A total divided by its clamped value: itself up to 1, then exactly 1 up
      to 9999, above 1 beyond that, and never more than itself. */
  lemma {:induction false} DividedTotal(s: real)
    ensures s <= DivisorFloor ==> s / Divisor(s) == s
    ensures DivisorFloor < s <= DivisorCeiling ==> s / Divisor(s) == 1.0
    ensures DivisorCeiling < s ==> s / Divisor(s) == s / DivisorCeiling && 1.0 < s / Divisor(s)
    ensures s / Divisor(s) <= s
  {
    var d := Divisor(s);
    if s <= DivisorFloor {
      assert d == 1.0;
    } else {
      var q := s / d;
      assert q * d == s && 0.0 < q;
      assert s - q == q * (d - 1.0);
    }
  }

  // ---------------------------------------------------------------------
  // Whole masks

  /** Over-merging is commutative. */
  lemma OverMergeCommutes(a: Mask, b: Mask)
    requires Aligned(a, b)
    ensures OverMerge(a, b) == OverMerge(b, a)
  {
    var ab, ba := OverMerge(a, b), OverMerge(b, a);
    forall i | 0 <= i < |a|
      ensures ab[i] == ba[i]
    {
      assert forall j :: 0 <= j < Width(a) ==> ab[i][j] == ba[i][j];
    }
  }

  /** Wherever the two masks together weigh at most 1, cleaning leaves both
      cells as they were. */
  lemma CleanOverlapKeepsLightCells(a: Mask, b: Mask)
    requires Aligned(a, b)
    ensures forall i, j :: 0 <= i < |a| && 0 <= j < Width(a) && a[i][j] + b[i][j] <= 1.0 ==>
      CleanOverlap(a, b).0[i][j] == a[i][j] && CleanOverlap(a, b).1[i][j] == b[i][j]
  {
  }

  /** So two masks that nowhere weigh more than 1 together come back
      unchanged. */
  lemma CleanOverlapOfLightMasks(a: Mask, b: Mask)
    requires Aligned(a, b)
    requires forall i, j :: 0 <= i < |a| && 0 <= j < Width(a) ==> a[i][j] + b[i][j] <= 1.0
    ensures CleanOverlap(a, b) == (a, b)
  {
    CleanOverlapKeepsLightCells(a, b);
    var r := CleanOverlap(a, b);
    forall i | 0 <= i < |a|
      ensures r.0[i] == a[i] && r.1[i] == b[i]
    {
      assert |r.0[i]| == |a[i]| && |r.1[i]| == |b[i]|;
      assert forall j :: 0 <= j < Width(a) ==> r.0[i][j] == a[i][j] && r.1[i][j] == b[i][j];
    }
    assert r.0 == a && r.1 == b;
  }

  /** Partition of unity: where the two masks overlap with a total weight in
      (1, 9999], the cleaned weights add up to exactly 1. */
  lemma CleanOverlapPartition(a: Mask, b: Mask)
    requires Aligned(a, b)
    ensures forall i, j :: 0 <= i < |a| && 0 <= j < Width(a) && DivisorFloor < a[i][j] + b[i][j] <= DivisorCeiling ==>
      CleanOverlap(a, b).0[i][j] + CleanOverlap(a, b).1[i][j] == 1.0
  {
    var r := CleanOverlap(a, b);
    forall i, j | 0 <= i < |a| && 0 <= j < Width(a) && DivisorFloor < a[i][j] + b[i][j] <= DivisorCeiling
      ensures r.0[i][j] + r.1[i][j] == 1.0
    {
      SharesOfTotal(a[i][j], b[i][j]);
    }
  }

  /** Cleaning two masks of weights in [0, 1] gives two masks of weights in
      [0, 1]. */
  lemma CleanOverlapWithinUnit(a: Mask, b: Mask)
    requires Aligned(a, b) && WithinUnit(a) && WithinUnit(b)
    ensures WithinUnit(CleanOverlap(a, b).0) && WithinUnit(CleanOverlap(a, b).1)
  {
    var r := CleanOverlap(a, b);
    forall i, j | 0 <= i < |a| && 0 <= j < Width(a)
      ensures 0.0 <= r.0[i][j] <= 1.0 && 0.0 <= r.1[i][j] <= 1.0
    {
      ShareWithinUnit(a[i][j], a[i][j] + b[i][j]);
      ShareWithinUnit(b[i][j], a[i][j] + b[i][j]);
    }
  }

  /** Re-merging the cleaned masks never weighs more than merging the
      originals. */
  lemma CleanOverlapNotHeavier(a: Mask, b: Mask)
    requires Aligned(a, b)
    ensures forall i, j :: 0 <= i < |a| && 0 <= j < Width(a) ==>
      CleanOverlap(a, b).0[i][j] + CleanOverlap(a, b).1[i][j] <= a[i][j] + b[i][j]
  {
    var r := CleanOverlap(a, b);
    forall i, j | 0 <= i < |a| && 0 <= j < Width(a)
      ensures r.0[i][j] + r.1[i][j] <= a[i][j] + b[i][j]
    {
      var p, q := a[i][j], b[i][j];
      var d := Divisor(p + q);
      assert r.0[i][j] == p / d && r.1[i][j] == q / d;
      SplitQuotient(p, q, d);
      DividedTotal(p + q);
    }
  }

  /** Swapping the arguments swaps the two cleaned masks. */
  lemma CleanOverlapSwaps(a: Mask, b: Mask)
    requires Aligned(a, b)
    ensures CleanOverlap(b, a) == (CleanOverlap(a, b).1, CleanOverlap(a, b).0)
  {
    var ab, ba := CleanOverlap(a, b), CleanOverlap(b, a);
    forall i | 0 <= i < |a|
      ensures ba.0[i] == ab.1[i] && ba.1[i] == ab.0[i]
    {
      assert forall j :: 0 <= j < Width(a) ==> ba.0[i][j] == ab.1[i][j] && ba.1[i][j] == ab.0[i][j];
    }
    assert ba.0 == ab.1 && ba.1 == ab.0;
  }

  /** Where the merged weight is at most 1, a mask is left as it was. */
  lemma CleanExceptSelfKeepsLightCells(self: Mask, merged: Mask)
    requires Aligned(self, merged)
    ensures forall i, j :: 0 <= i < |self| && 0 <= j < Width(self) && merged[i][j] <= 1.0 ==>
      CleanExceptSelf(self, merged)[i][j] == self[i][j]
  {
  }

  /** A non-negative mask that is part of a merged weight of at most 9999
      cleans to weights in [0, 1]. */
  lemma CleanExceptSelfWithinUnit(self: Mask, merged: Mask)
    requires Aligned(self, merged)
    requires forall i, j :: 0 <= i < |self| && 0 <= j < Width(self) ==>
      0.0 <= self[i][j] <= merged[i][j] <= DivisorCeiling
    ensures WithinUnit(CleanExceptSelf(self, merged))
  {
    var r := CleanExceptSelf(self, merged);
    forall i, j | 0 <= i < |self| && 0 <= j < Width(self)
      ensures 0.0 <= r[i][j] <= 1.0
    {
      ShareWithinUnit(self[i][j], merged[i][j]);
    }
  }

  /** Cleaning each of two masks against their over-merge is the symmetric
      clean: the two-node route and the one-node route agree. */
  lemma CleanExceptSelfOfOverMerge(a: Mask, b: Mask)
    requires Aligned(a, b)
    ensures Aligned(a, OverMerge(a, b)) && Aligned(b, OverMerge(a, b))
    ensures CleanExceptSelf(a, OverMerge(a, b)) == CleanOverlap(a, b).0
    ensures CleanExceptSelf(b, OverMerge(a, b)) == CleanOverlap(a, b).1
  {
    var m := OverMerge(a, b);
    if 0 < |a| {
      HasShapeIsRectangular(m, ShapeOf(a));
    }
    var ra, rb, r := CleanExceptSelf(a, m), CleanExceptSelf(b, m), CleanOverlap(a, b);
    forall i | 0 <= i < |a|
      ensures ra[i] == r.0[i] && rb[i] == r.1[i]
    {
      assert forall j :: 0 <= j < Width(a) ==> ra[i][j] == r.0[i][j] && rb[i][j] == r.1[i][j];
    }
  }

  /** Excluding a blank mask from a mask of weights in [0, 1] changes
      nothing. */
  lemma ExcludeBlank(main: Mask, exclude: Mask)
    requires Aligned(main, exclude) && WithinUnit(main) && Blank(exclude)
    ensures Exclude(main, exclude) == main
  {
    var r := Exclude(main, exclude);
    forall i | 0 <= i < |main|
      ensures r[i] == main[i]
    {
      assert forall j :: 0 <= j < Width(main) ==> r[i][j] == main[i][j];
    }
  }

  /** For a main mask of weights at most 1 and a non-negative exclusion, each
      cell is what is left of the main weight, cut at 0. */
  lemma ExcludeIsCutDifference(main: Mask, exclude: Mask)
    requires Aligned(main, exclude)
    requires forall i, j :: 0 <= i < |main| && 0 <= j < Width(main) ==> main[i][j] <= 1.0 && 0.0 <= exclude[i][j]
    ensures forall i, j :: 0 <= i < |main| && 0 <= j < Width(main) ==>
      Exclude(main, exclude)[i][j] == (if main[i][j] <= exclude[i][j] then 0.0 else main[i][j] - exclude[i][j])
  {
  }
}
