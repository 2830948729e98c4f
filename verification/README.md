# SwarmMasks: mask nodes of the ComfyUI backend

This project models the mask-manipulation nodes of
`src/BuiltinExtensions/ComfyUIBackend/ExtraNodes/SwarmMasks.py`. The file is a
set of plugin nodes for the ComfyUI node graph, and each node does one small
piece of tensor arithmetic on 2-D masks:

- `SwarmSquareMaskFromPercent.mask_from_perc` paints a rectangle, given in
  fractions of the canvas, onto a zero 256x256 mask.
- `mask_size_match` brings two masks to the per-dimension maximum of their
  shapes before they are combined.
- `SwarmOverMergeMasksForOverlapFix.mask_overmerge` adds two masks.
- `SwarmCleanOverlapMasks.mask_overlap` divides each of two masks by their
  sum, with the sum clamped to [1, 9999].
- `SwarmCleanOverlapMasksExceptSelf.mask_clean` divides one mask by an
  already merged mask, clamped the same way.
- `SwarmExcludeFromMask.mask_exclude` subtracts one mask from another and
  clamps the result to [0, 1].

A mask is a `seq<seq<real>>` with rows of equal length (module `Grid`). The
modules follow the file:

- `Rectangle` holds the rectangle node and the slice assignment it uses.
- `SizeMatch` holds the shape reconciliation.
- `Kernels` holds the cell-by-cell arithmetic of the four combining nodes on
  masks that already have the same shape.
- `Nodes` holds the four nodes as the host calls them, with size matching in
  front.
- `MergeChain` covers a wiring of the nodes that their names suggest, though
  the file itself does not show it: several region masks are over-merged into
  a total, and each is then cleaned against that total with the "except self"
  node. Where the total lies in (1, 9999], the
  cleaned regions add up to exactly 1 in every cell.

The resampling in `mask_size_match` calls `torch.nn.functional.interpolate`.
That call is outside this model. It appears as the function parameter
`resize`, and the model assumes only one thing about it: for each input it is
handed, it returns a mask of the target shape (`SizeMatch.ResizeFits`). When
the two shapes are already equal, the result does not depend on `resize` at
all. As written, the call asks a "linear" interpolation for a two-element
output size. PyTorch's interpolation accepts that mode only for 3-D input with
a one-element size, so the resampling branch most likely raises rather than
returning a mask. The source text alone cannot settle this. Everything stated
about resampled inputs therefore describes a hypothetical resampler that
returns the target shape. That covers `SizeMatch.ResizeFits`,
`Nodes.OverMergeNodeCommutes`, `Nodes.CleanOverlapNodeSwaps` and
`Nodes.CleanOverlapNodePartition`.

Two behaviours of the cleaning and exclusion nodes are easy to overstate. The
model follows the code:

- Cleaning renormalises overlapping cells to a total of 1 only where the sum
  lies in (1, 9999]. Above 9999 the cleaned weights still add up to more than
  1 (`Kernels.DividedTotal`).
- Exclusion is `max(0, main - exclude)` only while `main - exclude` is at most
  1. The code clamps from above as well (`Kernels.ExcludeIsCutDifference`
  states the range where the two agree).

## Model

| member | source | states |
|---|---|---|
| Grid.Trunc | src/BuiltinExtensions/ComfyUIBackend/ExtraNodes/SwarmMasks.py:23 | `int()` of a float truncates toward zero: the result is within 1 of the value, on the same side of zero as the value |
| Grid.SliceIndex | src/BuiltinExtensions/ComfyUIBackend/ExtraNodes/SwarmMasks.py:23 | a slice bound is clamped to the axis length; a negative bound counts from the end and is clamped at 0 |
| Grid.Clamp | src/BuiltinExtensions/ComfyUIBackend/ExtraNodes/SwarmMasks.py:74 | `torch.clamp(v, lo, hi)` with lo <= hi: the result lies in [lo, hi]; it is v inside that range, lo below it and hi above it |
| Grid.Filled | src/BuiltinExtensions/ComfyUIBackend/ExtraNodes/SwarmMasks.py:22 | `torch.zeros((256, 256))`: a grid of the requested shape with every cell equal to the fill value |
| Rectangle.SliceAssign | src/BuiltinExtensions/ComfyUIBackend/ExtraNodes/SwarmMasks.py:23 | a 2-D slice assignment keeps the shape, sets exactly the cells both slices select, and leaves every other cell as it was |
| Rectangle.FractionSlice | src/BuiltinExtensions/ComfyUIBackend/ExtraNodes/SwarmMasks.py:23 | for fractions in [0, 1], the slice `[int(f*256):int((f+e)*256)]` selects exactly the cells from floor(f*256) up to min(256, floor((f+e)*256)) |
| Rectangle.MaskFromPercent | src/BuiltinExtensions/ComfyUIBackend/ExtraNodes/SwarmMasks.py:20-24 | the result is 256x256; a cell holds `strength` when its row is in [floor(y*256), min(256, floor((y+h)*256))) and its column is in [floor(x*256), min(256, floor((x+w)*256))); every other cell is 0 |
| Rectangle.PaintedIffInside | src/BuiltinExtensions/ComfyUIBackend/ExtraNodes/SwarmMasks.py:21-23 | with a positive strength, a cell equals `strength` if and only if it lies inside the truncated rectangle |
| Rectangle.ZeroExtentIsBlank | src/BuiltinExtensions/ComfyUIBackend/ExtraNodes/SwarmMasks.py:10-23 | zero width or zero height (the declared defaults) gives the all-zero mask |
| Rectangle.CentredSquare | src/BuiltinExtensions/ComfyUIBackend/ExtraNodes/SwarmMasks.py:21-23 | (0.25, 0.25, 0.5, 0.5, 1.0) paints exactly rows and columns 64..191 with 1.0 |
| Rectangle.OverhangReachesEdge | src/BuiltinExtensions/ComfyUIBackend/ExtraNodes/SwarmMasks.py:23 | a rectangle that starts inside the canvas and runs past its edge is clipped at the edge, so the corner cell is painted |
| SizeMatch.TargetShape | src/BuiltinExtensions/ComfyUIBackend/ExtraNodes/SwarmMasks.py:28-29 | the target height and width are each the larger of the two: at least both, and equal to one of them |
| SizeMatch.MatchSizes | src/BuiltinExtensions/ComfyUIBackend/ExtraNodes/SwarmMasks.py:27-34 | a mask already of the target shape is returned unchanged; with a fitting resampler both results have the target shape |
| SizeMatch.EqualShapesUnchanged | src/BuiltinExtensions/ComfyUIBackend/ExtraNodes/SwarmMasks.py:30-34 | two masks of equal shape come back unchanged, whatever the resampler |
| SizeMatch.MatchedAreAligned | src/BuiltinExtensions/ComfyUIBackend/ExtraNodes/SwarmMasks.py:28-34 | with a fitting resampler, the reconciled pair is two proper grids of the target shape |
| SizeMatch.MatchSizesSwaps | src/BuiltinExtensions/ComfyUIBackend/ExtraNodes/SwarmMasks.py:27-34 | swapping the arguments swaps the reconciled pair |
| Kernels.Divisor | src/BuiltinExtensions/ComfyUIBackend/ExtraNodes/SwarmMasks.py:74 | the clamped divisor lies in [1, 9999], so division by it is always defined; it is 1 for sums up to 1, the sum itself in [1, 9999], and 9999 above |
| Kernels.OverMerge | src/BuiltinExtensions/ComfyUIBackend/ExtraNodes/SwarmMasks.py:53 | the over-merge keeps the input shape and each cell is the sum of the two input cells |
| Kernels.CleanOverlap | src/BuiltinExtensions/ComfyUIBackend/ExtraNodes/SwarmMasks.py:73-76 | both outputs keep the input shape; each cell is the input cell divided by the clamped sum of the two inputs |
| Kernels.CleanExceptSelf | src/BuiltinExtensions/ComfyUIBackend/ExtraNodes/SwarmMasks.py:96-97 | the output keeps the shape of `self`; each cell is `self` divided by the clamped merged weight |
| Kernels.Exclude | src/BuiltinExtensions/ComfyUIBackend/ExtraNodes/SwarmMasks.py:117-118 | for any inputs every cell of the result lies in [0, 1] and equals the difference clamped to [0, 1] |
| Kernels.SharesOfTotal | src/BuiltinExtensions/ComfyUIBackend/ExtraNodes/SwarmMasks.py:73-76 | two weights with a sum in (1, 9999], each divided by the clamped sum, add up to exactly 1 |
| Kernels.ShareWithinUnit | src/BuiltinExtensions/ComfyUIBackend/ExtraNodes/SwarmMasks.py:96-97 | a weight in [0, s] divided by the clamped s, for s at most 9999, lies in [0, 1] |
| Kernels.DividedTotal | src/BuiltinExtensions/ComfyUIBackend/ExtraNodes/SwarmMasks.py:74-76 | a total divided by its clamped value is the total itself up to 1, exactly 1 in (1, 9999], the total divided by 9999 (so above 1) beyond 9999, and never more than the total |
| Kernels.OverMergeCommutes | src/BuiltinExtensions/ComfyUIBackend/ExtraNodes/SwarmMasks.py:53 | over-merging is commutative |
| Kernels.CleanOverlapKeepsLightCells | src/BuiltinExtensions/ComfyUIBackend/ExtraNodes/SwarmMasks.py:73-76 | in every cell where the two inputs sum to at most 1, both outputs equal the inputs |
| Kernels.CleanOverlapOfLightMasks | src/BuiltinExtensions/ComfyUIBackend/ExtraNodes/SwarmMasks.py:73-77 | two masks whose sum is at most 1 everywhere come back unchanged |
| Kernels.CleanOverlapPartition | src/BuiltinExtensions/ComfyUIBackend/ExtraNodes/SwarmMasks.py:73-76 | partition of unity: in every cell where the sum is in (1, 9999], the two outputs add up to exactly 1 |
| Kernels.CleanOverlapWithinUnit | src/BuiltinExtensions/ComfyUIBackend/ExtraNodes/SwarmMasks.py:73-76 | inputs with weights in [0, 1] give outputs with weights in [0, 1] |
| Kernels.CleanOverlapNotHeavier | src/BuiltinExtensions/ComfyUIBackend/ExtraNodes/SwarmMasks.py:73-76 | re-merging the cleaned masks never gives more weight in any cell than merging the originals |
| Kernels.CleanOverlapSwaps | src/BuiltinExtensions/ComfyUIBackend/ExtraNodes/SwarmMasks.py:71-77 | swapping the two inputs swaps the two outputs |
| Kernels.CleanExceptSelfKeepsLightCells | src/BuiltinExtensions/ComfyUIBackend/ExtraNodes/SwarmMasks.py:96-97 | wherever the merged weight is at most 1, the mask is left unchanged |
| Kernels.CleanExceptSelfWithinUnit | src/BuiltinExtensions/ComfyUIBackend/ExtraNodes/SwarmMasks.py:96-97 | when 0 <= self <= merged <= 9999 in every cell, the result lies in [0, 1] |
| Kernels.CleanExceptSelfOfOverMerge | src/BuiltinExtensions/ComfyUIBackend/ExtraNodes/SwarmMasks.py:94-98 | cleaning each of two masks against their over-merge gives exactly the two outputs of the symmetric clean |
| Kernels.ExcludeBlank | src/BuiltinExtensions/ComfyUIBackend/ExtraNodes/SwarmMasks.py:116-119 | excluding an all-zero mask from a mask with weights in [0, 1] returns the main mask |
| Kernels.ExcludeIsCutDifference | src/BuiltinExtensions/ComfyUIBackend/ExtraNodes/SwarmMasks.py:117-118 | for main weights at most 1 and non-negative exclusion weights, each cell is max(0, main - exclude) |
| MergeChain.MergeAll | src/BuiltinExtensions/ComfyUIBackend/ExtraNodes/SwarmMasks.py:51-54 | a chain of over-merge nodes keeps the shape, and each cell of the total is the sum of that cell over all masks |
| MergeChain.CleanEach | src/BuiltinExtensions/ComfyUIBackend/ExtraNodes/SwarmMasks.py:94-98 | each region cleaned against the merged total keeps the shape, and each cell is divided by the clamped total of that cell |
| MergeChain.CleanedSharesSum | src/BuiltinExtensions/ComfyUIBackend/ExtraNodes/SwarmMasks.py:94-98 | the cleaned regions of a cell add up to the cell's total divided by its clamped value |
| MergeChain.CleanedShares | src/BuiltinExtensions/ComfyUIBackend/ExtraNodes/SwarmMasks.py:94-98 | the cleaned regions of a cell add up to the total where it is at most 1, to exactly 1 where it is in (1, 9999], and never to more than the total |
| Nodes.OverMergeNode | src/BuiltinExtensions/ComfyUIBackend/ExtraNodes/SwarmMasks.py:51-54 | the result has the target shape of the two inputs; for inputs of equal shape it is their cell-by-cell sum |
| Nodes.CleanOverlapNode | src/BuiltinExtensions/ComfyUIBackend/ExtraNodes/SwarmMasks.py:71-77 | both results have the target shape; for inputs of equal shape they are the symmetric clean of the inputs |
| Nodes.CleanExceptSelfNode | src/BuiltinExtensions/ComfyUIBackend/ExtraNodes/SwarmMasks.py:94-98 | the result has the target shape; for inputs of equal shape it is `self` cleaned against `merged` |
| Nodes.ExcludeNode | src/BuiltinExtensions/ComfyUIBackend/ExtraNodes/SwarmMasks.py:115-119 | the result has the target shape and every weight in [0, 1], whatever the inputs; for inputs of equal shape it is their clamped difference |
| Nodes.OverMergeNodeCommutes | src/BuiltinExtensions/ComfyUIBackend/ExtraNodes/SwarmMasks.py:51-54 | the over-merge node is commutative, also when the inputs have to be resampled |
| Nodes.CleanOverlapNodeSwaps | src/BuiltinExtensions/ComfyUIBackend/ExtraNodes/SwarmMasks.py:71-77 | swapping the inputs of the symmetric clean node swaps its outputs, also when the inputs have to be resampled |
| Nodes.CleanOverlapNodePartition | src/BuiltinExtensions/ComfyUIBackend/ExtraNodes/SwarmMasks.py:71-77 | after size matching, every cell whose sum is in (1, 9999] gets outputs that add up to 1 |
| Nodes.OverMergeOfOnes | src/BuiltinExtensions/ComfyUIBackend/ExtraNodes/SwarmMasks.py:51-54 | two all-ones 4x4 masks over-merge to an all-twos 4x4 mask |

## Left out

- The resampling branch of `mask_size_match` (lines 31 and 33): `torch.nn.functional.interpolate` with mode "linear" is foreign code. It is the parameter `resize`, and nothing is assumed about the values it produces. When a resampled mask does not have the target shape, torch would broadcast or raise; the nodes instead require that it has that shape (`SizeMatch.ResizeFits`).
- Float32 storage, float64 scalars and their rounding: every weight and fraction is a `real`. In particular `(y+height)*256` is computed exactly, so a float rounding that would move a rectangle edge by one cell is not modelled.
- `dtype` and `device` arguments of `torch.zeros`: they do not affect values.
- Batched masks: only 2-D masks are modelled. A mask with no rows has shape (0, 0) here, whatever its declared width.
- Rectangle.MaskFromPercent: the host checks the declared input ranges (lines 8-12), and that checking is not modelled. The function instead requires x, y, width, height and strength to lie in [0, 1].
- Nodes.OverMergeNode: requires `SizeMatch.ResizeFits`, because the resampler's output is not modelled.
- Nodes.CleanOverlapNode: requires `SizeMatch.ResizeFits`, for the same reason.
- Nodes.CleanExceptSelfNode: requires `SizeMatch.ResizeFits`, for the same reason.
- Nodes.ExcludeNode: requires `SizeMatch.ResizeFits`, for the same reason.
- Plugin registration metadata (`INPUT_TYPES`, `CATEGORY`, `RETURN_TYPES`, `FUNCTION`, `NODE_CLASS_MAPPINGS`): it has no behaviour to model.
- The tuple wrapping of node results (`return (mask,)`): a node returns its mask, or its pair of masks, directly.
