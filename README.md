# Feature descriptors and corner matching of an image stitcher

This project models the feature-descriptor stage of a panorama stitcher
written in Python with numpy, along with two list-shaping helpers of its
driver. It proves properties of that model.

**Extraction (`get_patches`).**
- The image is smoothed with a 7-wide Gaussian.
- A corner closer than `patch_size // 2` to an edge is skipped.
- Every other corner gets, as its descriptor, the window of the smoothed
  image around it, cut with Python's slice semantics and with the window's
  mean subtracted.
- The corners whose descriptor is exactly 15 by 15 are returned, in their
  input order.

**Matching (`compare`).**
- Every corner of the first image is scored against every corner of the
  second by normalised cross-correlation (`compute_NCC`).
- A running best and second-best are kept. Both start at the first target,
  and a replacement needs a strictly higher score.
- The triple (source, best target, best score) is emitted when the second
  score over the best is at most 0.9.

**The two helpers of `image_stitching.py`.**
- The first interleaves three colour planes into an image of `[r, g, b]`
  triples.
- The second flattens a 2-D pixel array row by row into one list.

The Dafny modules follow the program:
- `Matrices` holds the numpy arrays: shape, step-1 slicing, sum, mean,
  mean-centring and element-wise dot product, all over the reals.
- `Patches` holds the `Corner` class, with its mutable `featureDescriptor`
  field, and `get_patches`.
- `Correlation` holds `compute_NCC` and the best/second-best scan with its
  ratio test, as functions on a row of scores.
- `Matching` holds `compare`. Its nested loops are proved against a table of
  scores and the positional picks it yields.
- `ImageStitching` holds the two helpers.
- `Wrappers` holds `Option` and `Result`.

Loops are split into one method per loop body and one per loop, so that
each proof stays small:
- `get_patches`: `StorePatch`, `StoreNext` and `StoreLoop`.
- `compare`: `ScanTarget`, `ScanTargets`, `MatchSource` and `MatchSources`.

## Model

| member | source | states |
|---|---|---|
| Matrices.Slice | image_stiching/feature_descriptor/feature_descriptor.py:46-47 | Python's `s[start:stop]` has as many elements as the normalised, clamped bounds allow, and element k is the element at the normalised start plus k |
| Matrices.SliceWithinBounds | image_stiching/feature_descriptor/feature_descriptor.py:46-47 | with both bounds inside the sequence, a Python slice is the plain subsequence |
| Matrices.CentredSliceLength | image_stiching/feature_descriptor/feature_descriptor.py:40-47 | a window `[c-h, c+h+1)` whose left end is inside is whole (2h+1) when its right end fits, and only one short (2h) when it overhangs by one |
| Matrices.Window | image_stiching/feature_descriptor/feature_descriptor.py:46-47 | `m[y0:y1, x0:x1]` is a well-formed array whose shape is the two slice lengths |
| Matrices.ColumnSlicesAt | image_stiching/feature_descriptor/feature_descriptor.py:46-47 | row i of the column slicing is the column slice of row i |
| Matrices.WindowEntries | image_stiching/feature_descriptor/feature_descriptor.py:46-47 | element [i][j] of a window is the array element at the window's normalised top-left corner plus (i, j), and that element exists |
| Matrices.WindowEntriesFrom | image_stiching/feature_descriptor/feature_descriptor.py:46-47 | for a top-left corner inside the array, window element [i][j] is array element [y0+i][x0+j] |
| Matrices.CountOfValid | image_stiching/feature_descriptor/feature_descriptor.py:49 | the element count that `np.mean` divides by is rows times cols |
| Matrices.Centre | image_stiching/feature_descriptor/feature_descriptor.py:49 | `patch - np.mean(patch)` keeps the shape of the patch |
| Matrices.CentreEntries | image_stiching/feature_descriptor/feature_descriptor.py:49 | each centred element is the original element minus the mean |
| Matrices.ShiftedTotal | image_stiching/feature_descriptor/feature_descriptor.py:49 | subtracting mu from every element lowers the sum by the element count times mu |
| Matrices.CentredSumsToZero | image_stiching/feature_descriptor/feature_descriptor.py:49 | over the reals a mean-centred array sums to zero, the empty array included |
| Matrices.DotSymmetric | image_stiching/feature_descriptor/feature_descriptor.py:79 | `np.sum(p * q)` equals `np.sum(q * p)` |
| Correlation.NCCSymmetric | image_stiching/feature_descriptor/feature_descriptor.py:63-79 | compute_NCC is defined for (q, p) when it is for (p, q), and gives the same score |
| Correlation.NCCSelf | image_stiching/feature_descriptor/feature_descriptor.py:63-79 | a patch scores exactly 1 against itself when sqrt is a square root at its energy |
| Correlation.ScanPrefixFinds | image_stiching/feature_descriptor/feature_descriptor.py:101-114 | after any prefix of the inner loop, the best slot holds the first of the prefix's maximal scores, and the second slot holds the largest score among the first target and every other target, so it never exceeds the best |
| Correlation.ScanFinds | image_stiching/feature_descriptor/feature_descriptor.py:101-114 | at the end of the inner loop the best slot is the first maximum over all targets and the second slot its runner-up |
| Correlation.ScanOrdered | image_stiching/feature_descriptor/feature_descriptor.py:101-114 | the second-best score never exceeds the best score |
| Correlation.RatioAcceptsIsQuotientTest | image_stiching/feature_descriptor/feature_descriptor.py:117-118 | for a non-zero best score, the division-free test accepts exactly when `best2 / best <= 0.9` |
| Correlation.Pick | image_stiching/feature_descriptor/feature_descriptor.py:117-119 | the picked target, if any, is one of the scored targets |
| Correlation.PickExactly | image_stiching/feature_descriptor/feature_descriptor.py:101-119 | a source is matched to target b exactly when b is the first index of the maximum score, b is not the first target, and every other target scores at most 0.9 of a positive best (or below a zero best) |
| Correlation.FirstTargetBestNeverPicked | image_stiching/feature_descriptor/feature_descriptor.py:101-118 | when the first target attains the maximum score, the source corner is never matched |
| Correlation.SingleTargetNeverPicked | image_stiching/feature_descriptor/feature_descriptor.py:101-118 | with a single target no source corner is ever matched |
| Patches.RawWindow | image_stiching/feature_descriptor/feature_descriptor.py:46-47 | the window around a corner is a well-formed array |
| Patches.StorePatch | image_stiching/feature_descriptor/feature_descriptor.py:40-57 | one loop pass: a corner off the border gets its centred patch as its descriptor, even if it is then dropped; a corner on the border keeps its descriptor; the answer is whether the corner is kept |
| Patches.StoreNext | image_stiching/feature_descriptor/feature_descriptor.py:38-57 | one loop turn extends the kept list to the first i+1 corners, and leaves corner i with the descriptor it is due |
| Patches.StoreLoop | image_stiching/feature_descriptor/feature_descriptor.py:38-57 | the loop returns the kept corners and leaves every corner with the descriptor it is due, aliases included |
| Patches.StorePatches | image_stiching/feature_descriptor/feature_descriptor.py:38-60 | the kept corners are returned in input order; every corner off the border now carries its patch; every corner on the border is unchanged |
| Patches.GetPatches | image_stiching/feature_descriptor/feature_descriptor.py:11-60 | it fails with IndexError if and only if the smoothed image has no rows (the `img[0]` of the shape print before the loop), leaving every corner unchanged; otherwise, over the smoothed image, it returns the selected corners, sets the descriptors as above, and every returned corner carries a 15-by-15 descriptor whose elements sum to zero |
| Patches.SelectedDescriptors | image_stiching/feature_descriptor/feature_descriptor.py:46-57 | once corners off the border carry their patches, every returned corner carries a 15-by-15 descriptor with zero sum |
| Patches.SelectedIsSubsequence | image_stiching/feature_descriptor/feature_descriptor.py:34-60 | the returned corners are a subsequence of the input: nothing added, nothing reordered |
| Patches.SelectedShorter | image_stiching/feature_descriptor/feature_descriptor.py:34-60 | no more corners are returned than were given |
| Patches.SelectedMembers | image_stiching/feature_descriptor/feature_descriptor.py:38-57 | a corner is returned if and only if it was given and passes both the border test and the 15-by-15 shape test |
| Patches.BorderCornersDropped | image_stiching/feature_descriptor/feature_descriptor.py:29-42 | a corner with x or y below `patch_size // 2`, x above `width - patch_size // 2`, or y above `length - patch_size // 2` is never returned |
| Patches.KeepsExactly | image_stiching/feature_descriptor/feature_descriptor.py:29-57 | for a non-negative patch size, a corner is kept if and only if `patch_size // 2 == 7` and its whole 15-by-15 window lies in the image; the truncated window at `x == width - h` or `y == length - h` is rejected |
| Patches.PatchEntries | image_stiching/feature_descriptor/feature_descriptor.py:46-49 | for any patch size, each descriptor element is the smoothed pixel at the same offset from `(y - h, x - h)`, minus the window's mean |
| Patches.RawWindowEntries | image_stiching/feature_descriptor/feature_descriptor.py:46-47 | for any patch size and a corner off the border, window element [i][j] is image element [y-h+i][x-h+j] |
| Patches.PatchSumsToZero | image_stiching/feature_descriptor/feature_descriptor.py:49-52 | over the reals the elements of a stored descriptor sum to zero |
| Matching.ScoreTable | image_stiching/feature_descriptor/feature_descriptor.py:99-114 | the score table has one row per source corner, each with one score per target |
| Matching.PicksOfInRange | image_stiching/feature_descriptor/feature_descriptor.py:116-119 | a source corner emits at most one triple, carrying its own position and a target in range |
| Matching.InRangeAppend | image_stiching/feature_descriptor/feature_descriptor.py:119 | appending in-range pairs to in-range pairs stays in range |
| Matching.PicksUpToInRange | image_stiching/feature_descriptor/feature_descriptor.py:99-119 | the first n sources' triples have a source below n and a target in range |
| Matching.Picks | image_stiching/feature_descriptor/feature_descriptor.py:99-121 | every emitted triple names an existing source and an existing target |
| Matching.PicksOfExactly | image_stiching/feature_descriptor/feature_descriptor.py:116-119 | source i emits p if and only if the ratio test picks p's target from its scores and p carries that target's score |
| Matching.ToMatches | image_stiching/feature_descriptor/feature_descriptor.py:119 | there is one corner triple per positional pick |
| Matching.ToMatchesAppend | image_stiching/feature_descriptor/feature_descriptor.py:119 | the triples of joined picks are the joined triples |
| Matching.ToMatchesAt | image_stiching/feature_descriptor/feature_descriptor.py:119 | triple k is (source corner, target corner, score) of pick k, so every emitted target is an element of the second corner list and carries the score the pick names |
| Matching.MatchesOfPick | image_stiching/feature_descriptor/feature_descriptor.py:116-119 | a source's triple, if any, is (source corner, best target, best score) when the ratio test passes |
| Matching.RowOfTable | image_stiching/feature_descriptor/feature_descriptor.py:102-106 | row i of the table is source i's scores against every target in order |
| Matching.CompareStep | image_stiching/feature_descriptor/feature_descriptor.py:99-119 | one outer pass appends source i's triple, if the test passes, to those of the sources before it |
| Matching.ScanTarget | image_stiching/feature_descriptor/feature_descriptor.py:105-114 | one inner pass turns the slots for the first j scores into the slots for the first j+1 |
| Matching.ScanTargets | image_stiching/feature_descriptor/feature_descriptor.py:101-114 | the inner loop leaves in its slots the targets and scores of the scan's best and second-best indices |
| Matching.MatchSource | image_stiching/feature_descriptor/feature_descriptor.py:99-119 | one outer pass turns the triples of the first i table rows into those of the first i+1 |
| Matching.MatchSources | image_stiching/feature_descriptor/feature_descriptor.py:98-121 | the outer loop returns the triples of every row of the score table |
| Matching.Compare | image_stiching/feature_descriptor/feature_descriptor.py:82-121 | it fails with IndexError if and only if there is a source corner and no target; otherwise it returns the corner triples of the positional picks of the score table |
| Matching.IncreasingStep | image_stiching/feature_descriptor/feature_descriptor.py:99-119 | appending source i's output to triples from earlier sources keeps the sources strictly increasing |
| Matching.PicksUpToInSourceOrder | image_stiching/feature_descriptor/feature_descriptor.py:99-119 | over any prefix of sources, the emitted source positions strictly increase |
| Matching.IncreasingBounded | image_stiching/feature_descriptor/feature_descriptor.py:99-119 | pairs whose sources strictly increase and lie below n number at most n |
| Matching.SourceOrderStep | image_stiching/feature_descriptor/feature_descriptor.py:99-119 | row n-1 of the table keeps the sources of the first n-1 rows strictly increasing |
| Matching.PicksInSourceOrder | image_stiching/feature_descriptor/feature_descriptor.py:99-121 | compare emits at most one triple per source corner, in source order, and so never more triples than source corners |
| Matching.ExactlyStep | image_stiching/feature_descriptor/feature_descriptor.py:99-119 | row n-1 adds to the pairs of the first n-1 rows exactly the pairs it emits itself |
| Matching.PicksUpToExactly | image_stiching/feature_descriptor/feature_descriptor.py:99-119 | over the first n table rows, a triple is emitted if and only if its source is below n and that source emits it |
| Matching.PicksExactly | image_stiching/feature_descriptor/feature_descriptor.py:99-121 | compare emits (i, t, s) if and only if source i exists, the ratio test picks t from i's scores against every target, and s is t's score |
| ImageStitching.PrepareRGBImage | image_stitching.py:29-40 | the result has `image_height` rows of `image_width` entries, and entry [y][x] is `[r[y][x], g[y][x], b[y][x]]` |
| ImageStitching.ChannelsRecoverPlanes | image_stitching.py:29-40 | every entry is a triple, and reading channel 0, 1 or 2 back out gives the requested region of the red, green or blue plane unchanged |
| ImageStitching.PixelArrayToSingleList | image_stitching.py:43-48 | the result is the rows concatenated in order |
| ImageStitching.FlattenLength | image_stitching.py:43-48 | the list's length is the sum of the row lengths |
| ImageStitching.FlattenAt | image_stitching.py:45-47 | `pixelArray[y][x]` lands at index (sum of the lengths of rows before y) + x |
| ImageStitching.RowsOfFlatten | image_stitching.py:43-48 | for a rectangular array, cutting the list into rows of the width gives the array back |

## Left out

- Floating point: numpy's float64 arithmetic, its rounding and its NaN/inf
  are modelled with `real`.
  - `np.sqrt` is a function parameter `sqrt` of `Compare`.
  - Every score compare evaluates needs both descriptors present, of one
    shape, and a non-zero denominator. This is the `CrossCorrelatable`
    precondition. A `None` descriptor (a Python `TypeError`) and a
    zero-energy patch (a NaN score) are therefore not modelled.
  - The one division by zero that is modelled is a zero best score.
    `RatioAccepts` follows IEEE semantics: a negative second score gives
    -inf and is accepted; zero gives NaN and a positive score gives +inf,
    and both are rejected.
- `compute_gaussian_averaging` is not part of this model. It is the function
  parameter `smooth` of `GetPatches`, and a well-formed result is required.
- Matrices.Mean: numpy gives NaN for the mean of an empty window. The model
  gives 0, since no element is then left to subtract it from.
- The `print` calls in `get_patches` are left out as output. The one before
  the loop, which reads `img[0]`, is modelled as its error: GetPatches fails
  with `IndexError` on a smoothed image with no rows.
- `prepareRGBImageFromIndividualArrays` raises `IndexError` on a plane with
  too few rows or columns. ImageStitching.PrepareRGBImage requires the planes
  to cover the region instead (`Covers`).
- The planes and the pixel array are Dafny values, so "the inputs are only
  read" holds by construction and is not a separate lemma.
- The `Corner` class comes from a module that is not part of this model.
  `Patches.Corner` has only the position and the descriptor field that the
  core reads and writes.
- The list `compare` returns is a list of `Match` values that refer to the
  corner objects. Python tuples are not objects here.
- The rest of `image_stitching.py` (file and image I/O, the pickle cache,
  argument parsing, plotting, stitching and homographies), the timer
  decorator and the parameter-investigation scripts are outside the
  feature-descriptor core.
