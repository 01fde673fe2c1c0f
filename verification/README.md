# EZ Peeler surface detection — a Dafny model

EZ Peeler is a Fiji/Jython plugin that finds the outer epidermis in a
confocal stack and cuts a "peel" of fixed thickness below it. This project
models the integer core of two versions of the plugin, `EZ_Peeler_V0.16.py`
and `EZ_Peeler_v1.5.py`, and proves properties of it:

- the **column scanner** (`findEpidermis`): for each column of a resliced
  slice, the first depth whose intensity is above the threshold, or the
  sentinel `height + 1`; in v1.5 the intensity is first masked with `andOp`
  and the scan starts at `topSlice`;
- the **polyline compressor** that turns per-column heights into vertex lists
  `(Xs, Ys)` running from `x = 0` to `x = width`. In v1.5 it drops unresolved
  interior columns and repairs unresolved end points. V0.16 instead runs a
  left-to-right neighbour fill, then optional forward and backward hole
  removal, before it compresses;
- the v1.5 **list transforms**: densifying the sorted contained points of a
  polyline into one height per column, splitting the flat height list into
  per-slice rows, the divergence **exclusion map**, and the **polygon vertex
  lists** given to the rasterizing fill in polygon mode and in erode mode
  (V0.16 builds the same polygon-mode band);
- the v1.5 **stage controller**, the dialog-driven loop over stages 1–5, and
  the way the scanner's threshold is chosen.

Modules: `ColumnScan` (scanner shared by both versions), `Polyline` (shared
vocabulary), `PeelerV15`, `PeelerV016`, `SurfaceLists`, `Stages`. The
fill/hole passes and the compression loops are methods over `seq<int>` with
loop invariants, and so is the densify step (`SurfaceLists.Densify`, two
loops). `PeelerV016.RemoveHoles` and the two `FindEpidermis` routines are
methods that chain those steps. The remaining members are pure functions
and lemmas.

Modelling choices:

- `pixels[i] & andOp` is modelled as `pixels[i] % (andOp + 1)`. The masks are
  `0xFF` or `0xFFFF`, and Dafny's `%` is Euclidean, so this equals
  two's-complement AND, negative (signed Java) pixel values included.
- Thresholds, `heightDiffMax` and divergence values are `real`, because the
  dialogs return doubles. Pixel values and heights are `int`.
- `topSlice` is read with `getNextNumber`, so it is a double in the code. It
  comes from the "Slices to ignore" slider (v1.5:363). The slider's top is
  the `height` argument of `getOptions2`, and the main script passes the
  image height minus one there (v1.5:1057). So the slider only gives whole
  numbers from 0 to `height - 1` of the scanned image, and `topSlice` is
  modelled as a `nat`.
- V0.16 converts the stack to 16 bits and compares the pixel values
  without a mask. Jython reads them as signed shorts, so a voxel of 32768
  or more reads negative. `PeelerV016.Scan`'s `pixels` are those signed
  values. The `andOp` mask of v1.5 exists to undo exactly this sign.
- A Python list index out of range would raise. So `findEpidermis` requires
  `width >= 1`, and the densify step requires at least one point.

How the code treats unresolved columns and vertices:

- v1.5 never writes a neighbour's height into an unresolved column. It
  leaves unresolved interior columns out of the vertex list and repairs
  only the two end points.
- The V0.16 neighbour fill covers only columns `2 .. width-2`. After the
  fill, or when hole removal is switched off, columns 0, 1 and `width-1`
  keep `height + 1` when they are unresolved. For example, take an 8-column
  slice whose only crossing is at column 3: after the fill, columns 0–2 and
  7 are still `height + 1`.
- Hole removal is on by default, with a limit of 4. Its forward sweep can
  copy column `width-2` into an unresolved column `width-1`. Its backward
  sweep can copy column 2 into an unresolved column 1. Either copy happens
  when the neighbour is resolved and `height + 1` lies more than
  `heightDiffMax` above it. Column 0 is never changed. In the example above,
  with height 20, every column except column 0 ends at depth 5.
- An interior column becomes a vertex unless its height equals that of BOTH
  neighbours. A column that equals just one neighbour is still a vertex.

## Model

| member | source | states |
|---|---|---|
| ColumnScan.FirstCrossing | EZ_Peeler_v1.5.py:672-681 | the early-exit depth loop returns the least index at or after `from` whose value is above the threshold, or the sentinel `len + 1` when every value from `from` on is at or below it |
| ColumnScan.ScanHeights | EZ_Peeler_V0.16.py:216-233 | one entry per column. Each entry is a depth in `[from, height)` where that column's voxel `width*y+x` is above the threshold and none above it from `from` on is, or it is `height + 1` and no voxel of the column from `from` on crosses |
| ColumnScan.MaskPixel | EZ_Peeler_v1.5.py:677 | the masked intensity lies in `[0, andOp]` and differs from the raw value by a multiple of `andOp + 1`, i.e. it keeps the low 8 or 16 bits |
| PeelerV15.Scan | EZ_Peeler_v1.5.py:664-681 | `h[x]` is the least `y` in `[topSlice, height)` with `(pixel & andOp) > threshold`, and otherwise exactly `height + 1` |
| PeelerV15.Vertices | EZ_Peeler_v1.5.py:688-700 | Xs and Ys have equal length ≥ 2, Xs starts at 0, ends at `width` (not `width-1`) and is strictly increasing. An interior column appears iff it is resolved and not equal to both neighbours, with its own height. The first and last Ys are columns 0 and `width-1` |
| PeelerV15.RepairEndpoints | EZ_Peeler_v1.5.py:702-705 | the first value is repaired first. If it is above `height` it becomes the original second value; otherwise it stays. Then, if the last value is above `height`, it becomes the (possibly repaired) value before it. Interior values never change. If the interior is resolved and any value is resolved, every value ends up resolved |
| PeelerV15.ResolvedColumnYieldsVertex | EZ_Peeler_v1.5.py:692-696 | if both end columns are unresolved but some column is resolved, some interior column passes the vertex rule |
| PeelerV15.RepairedResolvedIff | EZ_Peeler_v1.5.py:688-705 | after compression and repair, every Y lies in `[topSlice, height)` iff some column crossed the threshold. When none did, the result is the two-point line `[0, width]` / `[height+1, height+1]` |
| PeelerV15.RepairedVertices | EZ_Peeler_v1.5.py:688-705 | compression followed by repair gives the surface line of the heights (`IsSurfaceLine`): the interior vertex rule, each end either the column's own resolved height or a copy of its list neighbour, and the resolved-iff and all-sentinel facts above |
| PeelerV15.FindEpidermis | EZ_Peeler_v1.5.py:659-708 | the whole v1.5 routine. `(Xs, Ys)` is the surface line (`IsSurfaceLine`) of the masked scan from `topSlice`. So the interior vertices are the kept columns with their scanned heights, unresolved ends copy their neighbour, and all Ys are real depths iff some column crossed |
| PeelerV016.Scan | EZ_Peeler_V0.16.py:216-233 | `h[x]` is the least `y` in `[0, height)` whose raw (unmasked) voxel is above the threshold, and otherwise `height + 1` |
| PeelerV016.NeighbourFill | EZ_Peeler_V0.16.py:236-238 | the result satisfies the fill rule `Filled`: columns 0, 1 and `width-1` untouched, and each column in `[2, width-2]` keeps its height if resolved and otherwise takes the filled value to its left. In closed form, each such column holds the height of the nearest resolved column in `[1, x]`, or column 1's sentinel if none is resolved. When all inputs are ≤ `height + 1`, no height increases |
| PeelerV016.ForwardPass | EZ_Peeler_V0.16.py:241-244 | the result satisfies `ForwardDone`: columns 0 and 1 untouched. Each column `x ≥ 2` takes its already corrected left neighbour's value exactly when it rises above that neighbour by more than `heightDiffMax` and the neighbour is resolved; otherwise it keeps its own. For `heightDiffMax ≥ 0`, afterwards every `x` in `[2, width)` has `h[x]-h[x-1] ≤ heightDiffMax` or an unresolved `h[x-1]`, and no height increases |
| PeelerV016.BackwardPass | EZ_Peeler_V0.16.py:247-250 | the result satisfies `BackwardDone`: columns 0 and `width-1` untouched. Each column in `[1, width-2]` takes its already corrected right neighbour's value exactly when it exceeds that neighbour by more than `heightDiffMax` and the neighbour is resolved. For `heightDiffMax ≥ 0`, afterwards every `x` in `[1, width-2]` has `h[x]-h[x+1] ≤ heightDiffMax` or an unresolved `h[x+1]`, and no height increases |
| PeelerV016.RemoveHoles | EZ_Peeler_V0.16.py:240-250 | the result satisfies `HolesRemoved`. With `hdRemoval` false the heights are unchanged. With it true, the result is the backward pass applied to the forward pass of the input. Column 0 never changes. For `heightDiffMax ≥ 0`, the backward-pass property holds and no height increases |
| PeelerV016.FilledUnique | EZ_Peeler_V0.16.py:236-238 | the fill rule determines the result: two lists that both satisfy `Filled` for the same input are equal |
| PeelerV016.ForwardDoneUnique | EZ_Peeler_V0.16.py:241-244 | the forward-pass rule determines the result: two lists that both satisfy `ForwardDone` for the same input are equal |
| PeelerV016.BackwardDoneUnique | EZ_Peeler_V0.16.py:247-250 | the backward-pass rule determines the result: two lists that both satisfy `BackwardDone` for the same input are equal |
| PeelerV016.HolesRemovedUnique | EZ_Peeler_V0.16.py:240-250 | hole removal has exactly one outcome for each input and setting |
| PeelerV016.HoleRemovalEnds | EZ_Peeler_V0.16.py:240-250 | after the forward then backward sweep, column 0 keeps its height. An unresolved last column takes the forward-corrected height of column `width-2`, and an unresolved column 1 takes the final height of column 2, whenever that neighbour is resolved and the sentinel is more than `heightDiffMax` above it |
| PeelerV016.DefaultHoleRemovalExample | EZ_Peeler_V0.16.py:135-136 | with the dialog defaults (hole removal on, limit 4), the 8-column example whose only crossing is column 3 at depth 5 (height 20) is filled to `[21,21,21,5,5,5,5,21]`, and hole removal turns that into `[21,5,5,5,5,5,5,5]` |
| PeelerV016.Vertices | EZ_Peeler_V0.16.py:259-269 | Xs is 0, then every interior column not equal to both neighbours (unresolved ones included), then `width`. Ys holds the matching heights. Lengths are equal and Xs is strictly increasing |
| PeelerV016.FindEpidermis | EZ_Peeler_V0.16.py:211-272 | the whole V0.16 routine. The corrected heights are the fill of the scan followed by hole removal (`Filled`, then `HolesRemoved`). The vertices are those of the corrected heights, and the first Y is column 0's scanned height. For `heightDiffMax ≥ 0`, corrected heights never exceed the scanned ones. With hole removal off, every filled column holds its nearest resolved height |
| SurfaceLists.Starts | EZ_Peeler_v1.5.py:784-786 | the kept point indices are strictly increasing. Each one is point 0 or has an x different from its predecessor's, and every such index is kept |
| SurfaceLists.Densify | EZ_Peeler_v1.5.py:781-788 | the output holds the y of each point that opens a new x, in order, cut to its first `width` entries |
| SurfaceLists.FirstOfEachColumn | EZ_Peeler_v1.5.py:780-786 | for points sorted by x, the kept points have strictly increasing x. Each is the first point with its x, and every x present is represented |
| SurfaceLists.Rows | EZ_Peeler_v1.5.py:852-854 | `len // width` rows, each of length `width`. Row `y` is the slice `[y*width, (y+1)*width)` of the flat list |
| SurfaceLists.RowsRoundTrip | EZ_Peeler_v1.5.py:852-854 | joining the rows gives back a prefix of the flat list that is short by less than one row (only the partial last row is lost), and the whole list when its length is a multiple of `width` |
| SurfaceLists.Excluded | EZ_Peeler_v1.5.py:829 | the filtered index list holds exactly the indices whose divergence magnitude exceeds `heightDiffMax` |
| SurfaceLists.Mark | EZ_Peeler_v1.5.py:830-832 | a zero array of length `n` with 100 written at every listed index. An entry is 100 iff its index is listed, otherwise 0 |
| SurfaceLists.ExclusionMap | EZ_Peeler_v1.5.py:829-832 | same length as the divergence list. Entry `i` is 100 iff `abs(sub[i]) > heightDiffMax`, and 0 iff it is not |
| SurfaceLists.Band | EZ_Peeler_V0.16.py:389-399 | 2n vertices. The X at `i` equals the X at `2n-1-i`. The Y at `2n-1-i` minus the Y at `i` is exactly the thickness. The first half is the input Xs and the input Ys plus the depth offset |
| SurfaceLists.PolygonMode | EZ_Peeler_v1.5.py:902-903 | over a dense row: 2n vertices. Vertex `i < n` is `(i, h[i] + depthOffset)`, and vertex `i ≥ n` is column `2n-1-i` at `h + depthOffset + stackThickness` |
| SurfaceLists.ErodeOutline | EZ_Peeler_v1.5.py:868-869 | n+2 vertices. The surface part is `(x, h[x] + 1)` for x = 0..n-1. The outline closes along the bottom edge `y = height` through the corners `(n + 1, height)` and `(0, height)`; for a full row n is the image width |
| SurfaceLists.ErodeOutlineFollowsBand | EZ_Peeler_v1.5.py:868-869 | the erode-mode outline's surface vertices coincide with the lower boundary of a polygon-mode band at depth offset 1 |
| SurfaceLists.FlatSurfaceBand | EZ_Peeler_v1.5.py:902-903 | for a flat surface at height `c`, the band is a rectangle. Lower vertices are at `c + offset`, upper ones at `c + offset + thickness` |
| Stages.AndOpFor | EZ_Peeler_v1.5.py:319-323 | the mask is `0xFF` or `0xFFFF`, and it reads every signed value of its width, `[-(andOp+1)/2, (andOp+1)/2)`, as the unsigned value with the same bits: negative values gain `andOp + 1` and the others are unchanged. This is the "signed to unsigned" purpose of the source's comment |
| Stages.MaskReadsUnsigned | EZ_Peeler_v1.5.py:319-323 | the chosen mask converts signed to unsigned pixel values. With the 8-bit choice, a signed byte `p` in `[-128, 128)` reads as `p + 256` when negative and as `p` otherwise. With the 16-bit choice, a signed short in `[-32768, 32768)` reads as `p + 65536` when negative and as `p` otherwise |
| Stages.ScannerThreshold | EZ_Peeler_v1.5.py:746-747 | combined with the replacement in `getOptions2` (lines 429-430), the scanner always receives `defaultThreshold`, whatever the Otsu box and the slider say |
| Stages.Respond | EZ_Peeler_v1.5.py:1027-1136 | cancel at stage k (1..4) sets stage k-1 and computes nothing. OK sets k+1 and still runs stage k's computation once (none at stage 4). Any other close recomputes stage k. The outer guard fails iff the response was cancel at stage 1 or OK at stage 4 |
| Stages.RunningMeansActiveStage | EZ_Peeler_v1.5.py:1005 | while the flags agree with the stage, the outer loop's guard holds iff the stage is 1..4 |
| Stages.Run | EZ_Peeler_v1.5.py:1005-1136 | the states visited are consecutive responses of the controller. All stay consistent and all but the last are running. The run stops early only because the guard failed |
| Stages.StageIsNetAdvance | EZ_Peeler_v1.5.py:1005-1136 | after the responses a run consumed, the stage is the starting stage plus the number of OKs minus the number of cancels |
| Stages.ExitOnlyFromEnds | EZ_Peeler_v1.5.py:1005-1136 | the loop ends only after a cancel in stage 1 (reaching stage 0) or an OK in stage 4 (reaching stage 5) |
| Stages.RunFromStart | EZ_Peeler_v1.5.py:1005-1136 | the script starts at stage 1 inside the outer loop. A run from there stops only at stage 0 or 5, and its stage is always 1 plus the OKs minus the cancels consumed |

## Left out

- Dialogs, previews and the `Thread.sleep` polling loops are user interface.
  So are the live slider preview in `getOptions2`/`getOptions3` and its
  divide-by-10 of the divergence slider. They are not modelled.
- The host library calls are not modelled. These are Otsu thresholding,
  smoothing and edge filters, reslicing, polyline interpolation, the
  contained-points query and the rasterizing `fill`. Also out are the
  Gaussian blurs that build the divergence map and inpaint excluded heights,
  `ByteProcessor.erode`, `minimum3DSphere`, the image calculator and the
  Z projection. Their inputs and outputs are parameters of the model: the
  sorted points given to `Densify`, and the divergence list given to
  `ExclusionMap`.
- The area map and height calibration use floating-point `sqrt`/`power` and
  multiplications. They are not modelled.
- The mask fill value 10.0 and the later divide-by-10 are float image
  arithmetic, and are not modelled.
- Channel/frame extraction, GPU selection and the time-series batch loop are
  not modelled. The batch loop repeats the per-frame pipeline.
- The sequencing inside `secondStage` is not modelled: the per-slice loop
  that feeds each polyline through the host's interpolation and
  contained-points query and concatenates the densified rows. Only its
  integer steps are.
- V0.16's commented-out `offsetDiff` adjustment is dead code, so it is not
  modelled.
- After hole removal the dense heights are floats. `depthOffset` and
  `stackThickness` are doubles read with `getNextNumber`
  (EZ_Peeler_v1.5.py:602, 604; EZ_Peeler_V0.16.py:184, 186). `Band`,
  `PolygonMode`, `ErodeOutline` and `Rows` take all of these as integers.
  Their exact statements, such as upper minus lower vertex being exactly
  `stackThickness`, hold for integer-valued heights and offsets. With
  fractional doubles, each sum is rounded, so they can be off by a
  rounding step.
- PeelerV016.ForwardPass: the exact column rule (`ForwardDone`) holds for
  every `heightDiffMax`. The derived "settled" and "never increases"
  properties are stated only for `heightDiffMax ≥ 0`. With a negative value
  a copied neighbour leaves a jump of 0, which is above the limit, so those
  properties are false there.
- PeelerV016.BackwardPass: same as ForwardPass, with `BackwardDone`.
- PeelerV016.RemoveHoles: same as ForwardPass, with `HolesRemoved`.
- PeelerV016.FindEpidermis: the source keeps the corrected height list local.
  The model returns it as a third result so that the fill and hole-removal
  rules can be stated about it.
- Heights are `int`. Scanned heights are integer row indices in both
  versions, and V0.16 copies heights without arithmetic, so this is exact
  there.
