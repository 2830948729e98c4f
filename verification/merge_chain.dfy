/** How the nodes are meant to be wired for several overlapping regions: the
    region masks are over-merged one after another into a total weight, and
    each region is then cleaned against that total with the "except self"
    node. Where the total lies in (1, 9999] the cleaned regions share the
    cell exactly: their weights add up to 1. */
module MergeChain {
  import opened Grid
  import opened Kernels

  /** All masks are grids of shape `s`. */
  predicate AllShaped(ms: seq<Mask>, s: Shape) {
    forall k :: 0 <= k < |ms| ==> HasShape(ms[k], s)
  }

  function Sum(xs: seq<real>): real {
    if |xs| == 0 then 0.0 else Sum(xs[..|xs| - 1]) + xs[|xs| - 1]
  }

  /** The weights the masks give to cell (i, j), in order. */
  function Column(ms: seq<Mask>, s: Shape, i: nat, j: nat): (c: seq<real>)
    requires AllShaped(ms, s) && i < s.rows && j < s.cols
    ensures |c| == |ms| && forall k :: 0 <= k < |ms| ==> c[k] == ms[k][i][j]
  {
    seq(|ms|, k requires 0 <= k < |ms| => ms[k][i][j])
  }

  /** A chain of over-merge nodes: the first mask, then each further mask
      added to the running total. Each cell of the total is the sum of that
      cell over all masks. */
  function MergeAll(ms: seq<Mask>, s: Shape): (r: Mask)
    requires |ms| > 0 && AllShaped(ms, s)
    ensures HasShape(r, s)
    ensures forall i, j :: 0 <= i < s.rows && 0 <= j < s.cols ==> r[i][j] == Sum(Column(ms, s, i, j))
    decreases |ms|
  {
    if |ms| == 1 then
      ms[0]
    else
      var rest := MergeAll(ms[..|ms| - 1], s);
      SameShapeAligned(rest, ms[|ms| - 1], s);
      assert forall i, j :: 0 <= i < s.rows && 0 <= j < s.cols ==>
        Column(ms[..|ms| - 1], s, i, j) == Column(ms, s, i, j)[..|ms| - 1];
      OverMerge(rest, ms[|ms| - 1])
  }

  /** Every mask cleaned against the merged total of all of them. */
  function CleanEach(ms: seq<Mask>, s: Shape): (cs: seq<Mask>)
    requires |ms| > 0 && AllShaped(ms, s)
    ensures |cs| == |ms| && AllShaped(cs, s)
    ensures forall k, i, j :: 0 <= k < |ms| && 0 <= i < s.rows && 0 <= j < s.cols ==>
      cs[k][i][j] == ms[k][i][j] / Divisor(MergeAll(ms, s)[i][j])
  {
    var total := MergeAll(ms, s);
    seq(|ms|, k requires 0 <= k < |ms| =>
      SameShapeAligned(ms[k], total, s);
      CleanExceptSelf(ms[k], total))
  }

  /** Dividing every term by the same non-zero number divides the sum. */
  lemma {:induction false} SumOfQuotients(xs: seq<real>, ys: seq<real>, d: real)
    requires d != 0.0 && |ys| == |xs|
    requires forall k :: 0 <= k < |xs| ==> ys[k] == xs[k] / d
    ensures Sum(ys) == Sum(xs) / d
    decreases |xs|
  {
    if |xs| > 0 {
      var n := |xs| - 1;
      SumOfQuotients(xs[..n], ys[..n], d);
      assert Sum(ys) == Sum(xs[..n]) / d + xs[n] / d;
    }
  }

  /** The cleaned weights of a cell add up to the total of that cell
      divided by its clamped value. */
  lemma CleanedSharesSum(ms: seq<Mask>, s: Shape, i: nat, j: nat)
    requires |ms| > 0 && AllShaped(ms, s) && i < s.rows && j < s.cols
    ensures Sum(Column(CleanEach(ms, s), s, i, j)) == MergeAll(ms, s)[i][j] / Divisor(MergeAll(ms, s)[i][j])
  {
    var t := MergeAll(ms, s)[i][j];
    var d := Divisor(t);
    var cells := Column(ms, s, i, j);
    var cleaned := CleanEach(ms, s);
    var shares := Column(cleaned, s, i, j);
    assert t == Sum(cells);
    forall k | 0 <= k < |cells|
      ensures shares[k] == cells[k] / d
    {
      assert shares[k] == cleaned[k][i][j];
    }
    SumOfQuotients(cells, shares, d);
  }

  /** So the regions cleaned against their merged total share every cell:
      unchanged where the total is at most 1, adding up to exactly 1 where it
      lies in (1, 9999], and never adding up to more than the total. */
  lemma CleanedShares(ms: seq<Mask>, s: Shape, i: nat, j: nat)
    requires |ms| > 0 && AllShaped(ms, s) && i < s.rows && j < s.cols
    ensures MergeAll(ms, s)[i][j] <= DivisorFloor ==>
      Sum(Column(CleanEach(ms, s), s, i, j)) == MergeAll(ms, s)[i][j]
    ensures DivisorFloor < MergeAll(ms, s)[i][j] <= DivisorCeiling ==>
      Sum(Column(CleanEach(ms, s), s, i, j)) == 1.0
    ensures Sum(Column(CleanEach(ms, s), s, i, j)) <= MergeAll(ms, s)[i][j]
  {
    CleanedSharesSum(ms, s, i, j);
    DividedTotal(MergeAll(ms, s)[i][j]);
  }
}
