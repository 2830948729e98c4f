/** The data model shared by every mask node: a mask is a 2-D grid of weights,
    stored row-major as a sequence of equally long rows. The source keeps
    32-bit floats; here every weight is an exact `real`.

    Besides the grid itself this module holds the three scalar conventions the
    nodes borrow from their host language and tensor library: `Trunc`
    (Python's `int()` applied to a float), `SliceIndex` (how a Python/torch
    slice bound is normalised against the length of the axis it slices) and
    `Clamp` (torch's `clamp`). */
module Grid {

  type Mask = seq<seq<real>>

  /** The two dimensions of a mask: `shape[0]` and `shape[1]` in the source. */
  datatype Shape = Shape(rows: nat, cols: nat)

  /** Width of a mask, read off its first row (an empty mask has width 0). */
  function Width(m: Mask): nat {
    if |m| == 0 then 0 else |m[0]|
  }

  /** Every row is as long as the first: the mask is a proper 2-D array. */
  predicate Rectangular(m: Mask) {
    forall i :: 0 <= i < |m| ==> |m[i]| == Width(m)
  }

  function ShapeOf(m: Mask): Shape {
    Shape(|m|, Width(m))
  }

  /** `m` is a proper grid of exactly shape `s`. */
  predicate HasShape(m: Mask, s: Shape) {
    |m| == s.rows && forall i :: 0 <= i < |m| ==> |m[i]| == s.cols
  }

  /** Two masks that can be combined cell by cell without any resizing. */
  predicate Aligned(a: Mask, b: Mask) {
    Rectangular(a) && Rectangular(b) && ShapeOf(a) == ShapeOf(b)
  }

  /** A shape with at least one row fixes the width of every grid that has it. */
  lemma HasShapeIsRectangular(m: Mask, s: Shape)
    requires HasShape(m, s) && s.rows > 0
    ensures Rectangular(m) && ShapeOf(m) == s
  {
    assert |m[0]| == s.cols;
  }

  /** Two grids of one and the same shape are aligned. */
  lemma SameShapeAligned(a: Mask, b: Mask, s: Shape)
    requires HasShape(a, s) && HasShape(b, s)
    ensures Aligned(a, b)
    ensures s.rows > 0 ==> ShapeOf(a) == s
  {
    if s.rows > 0 {
      HasShapeIsRectangular(a, s);
      HasShapeIsRectangular(b, s);
    }
  }

  /** A mask of the given shape filled with `v` (`torch.zeros` when `v` is 0). */
  function Filled(s: Shape, v: real): (m: Mask)
    ensures HasShape(m, s)
    ensures forall i, j :: 0 <= i < s.rows && 0 <= j < s.cols ==> m[i][j] == v
  {
    seq(s.rows, _ => seq(s.cols, _ => v))
  }

  /** `torch.clamp(v, lo, hi)` on one value. */
  function Clamp(v: real, lo: real, hi: real): (r: real)
    requires lo <= hi
    ensures lo <= r <= hi
    ensures lo <= v <= hi ==> r == v
    ensures v < lo ==> r == lo
    ensures hi < v ==> r == hi
  {
    if v < lo then lo else if hi < v then hi else v
  }

  function Min(a: int, b: int): int {
    if a <= b then a else b
  }

  /** Python's `int()` applied to a float: truncation toward zero. */
  function Trunc(v: real): (n: int)
    ensures 0.0 <= v ==> n as real <= v < n as real + 1.0
    ensures v < 0.0 ==> n as real - 1.0 < v <= n as real
  {
    if 0.0 <= v then v.Floor else -((-v).Floor)
  }

  /** For the non-negative values the nodes feed it, `Trunc` is the floor. */
  lemma TruncOfNonNegative(v: real)
    requires 0.0 <= v
    ensures Trunc(v) == v.Floor
  {
  }

  /** Where a slice bound `k` lands on an axis of length `len` (step 1):
      a negative bound counts from the end, and the result is clamped to
      [0, len]. */
  function SliceIndex(k: int, len: nat): (r: nat)
    ensures r <= len
    ensures 0 <= k ==> r == Min(k, len)
    ensures k < 0 && -k <= len ==> r == len + k
    ensures k < 0 && len < -k ==> r == 0
  {
    if k < 0 then (if len + k < 0 then 0 else len + k)
    else if len < k then len
    else k
  }

  /** Index `i` of an axis of length `len` is selected by the slice
      `[start:stop]`; the slice is empty when the normalised start is not
      below the normalised stop. */
  predicate InSlice(i: int, start: int, stop: int, len: nat) {
    SliceIndex(start, len) <= i < SliceIndex(stop, len)
  }
}
