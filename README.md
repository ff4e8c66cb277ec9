# Depth-buffer core of ExampleOfiOSLiDAR, in Dafny

This project models the algorithmic core of an iOS LiDAR demo app and proves properties of that model. The core has four parts.

- **Pixel-buffer sampling and extraction** (`DepthBuffer`, the `CVPixelBuffer` extension of the depth-map screen):
  - `sample(location:)` scales a normalised location by the buffer size, truncates it and clamps it into the buffer. It then reads one value from the row-major, stride-padded memory. A depth buffer gives its stored `Float`; a BGRA buffer gives one byte divided by 255; any other format gives no value.
  - `toFlatArray`, `toFlatArray2` and `toArray` walk the buffer with the same decode rule, each over its own index range.
  - These are modelled as nested `while`/`for` loops. Each is proved equal to a recursive reference definition (`Line`, `Grid`, `Lines`). Lemmas then say which pixel each output slot holds.
- **Confidence remap** (`ConfidenceMap`, part of `ConfidenceMapTransformedImage`):
  - the byte map from confidence level to grey value, as a function;
  - the in-place rewrite of the locked confidence buffer, as a method on a class over an `array`.
- **Screen transform** (`ScreenTransform`): the chain normalise → portrait flip → display transform → scale to viewport, over exact affine maps.
- **Height detection** (`HeightScan`, `detectHeight()` of the export screen):
  - Phase 1 sweeps rays across the middle of the view and keeps the nearest hit.
  - Phase 2 walks a probe point in a serpentine around that hit. Its result is the spread of the heights of the hits that lie in the hit's depth band, plus 0.03.
  - Both phases are `while` loops. The phase-2 if-chain is the function `Advance`, on positions, exactly as the code writes it. `AdvanceOnGrid` shows that every probe sits at `cp + 0.03 * (i, j)` for whole numbers i and j. The walk is then unfolded on that grid (`Walk`), and this proves that it terminates on exact reals (in `Float` it need not; see "## Left out"). `WalkClosedForm` gives the walk in closed form: 4557 probes.

Inputs that come from the platform are parameters:

- **The pixel buffer** is a value: its dimensions, row stride, format and bytes.
- **Locking:** whether `CVPixelBufferLockBaseAddress` returned `noErr` is one `locked` flag, and a successful lock gives the buffer's bytes.
- **Float encoding:** the IEEE-754 encoding of a computed `Float` is the function `encode`.
- **Display transform:** ARKit's `displayTransform(for:viewportSize:)` is the function `display`.
- **Rays:** `arView.ray(through:)` is `rayThrough`, and `scene.raycast(...).first` is `cast`.

## Model

| member | source | states |
|---|---|---|
| `DepthBuffer.Offset` | ExampleOfiOSLiDAR/Samples/Depth/DepthMapViewController.swift:204-213 | The offset read for (column, row) is `row * bytesPerRow + 4 * column` for depth and `row * bytesPerRow + column` for BGRA, and the element read lies inside the buffer. |
| `DepthBuffer.Read` | ExampleOfiOSLiDAR/Samples/Depth/DepthMapViewController.swift:205-216 | There is a value exactly for the two supported formats. Depth gives the four stored bytes unchanged. BGRA gives a value in [0, 1] that is the byte at the offset divided by 255. |
| `DepthBuffer.DepthPixelsDisjoint` | ExampleOfiOSLiDAR/Samples/Depth/DepthMapViewController.swift:204-209 | Two distinct pixels of a depth buffer are read from disjoint four-byte ranges. |
| `DepthBuffer.Truncate` | ExampleOfiOSLiDAR/Samples/Depth/DepthMapViewController.swift:200 | `simd_int2(pix)` truncates toward zero: the result is within 1 of the value, on the side of zero. |
| `DepthBuffer.Clamp` | ExampleOfiOSLiDAR/Samples/Depth/DepthMapViewController.swift:200 | `clamp(v, 0, hi)` never exceeds `hi`, keeps values in range, and sends values below 0 to 0 and values above `hi` to `hi`. |
| `DepthBuffer.ClampToBuffer` | ExampleOfiOSLiDAR/Samples/Depth/DepthMapViewController.swift:200-203 | Any integer position gives a pixel inside the buffer: its own pixel inside, the nearest edge pixel outside, axis by axis. |
| `DepthBuffer.PixelAt` | ExampleOfiOSLiDAR/Samples/Depth/DepthMapViewController.swift:199-203 | For any real pixel position (negative, fractional or beyond the edge), the pixel read is the floor inside the buffer and the nearest edge pixel outside it. |
| `DepthBuffer.Sample` | ExampleOfiOSLiDAR/Samples/Depth/DepthMapViewController.swift:193-217 | No value exactly when the buffer is empty, the lock fails or the format is unsupported. Otherwise lane 0 holds the decoded pixel under `location * (width, height)`, and the other lanes are 0. |
| `DepthBuffer.SampleClampsExample` | ExampleOfiOSLiDAR/Samples/Depth/DepthMapViewController.swift:199-203 | On a 4x4 buffer the location (1.5, -0.2) samples pixel (3, 0). |
| `DepthBuffer.Decoded` | ExampleOfiOSLiDAR/Samples/Depth/DepthMapViewController.swift:234-245 | An extractor appends `sample`'s decoded value for a supported format and 0 for any other, so it never skips a pixel. |
| `DepthBuffer.Cell` | ExampleOfiOSLiDAR/Samples/Depth/DepthMapViewController.swift:228-245 | The value at loop position (x, y), counted from 1, is the decoded pixel (min(x, W-1), min(y, H-1)). |
| `DepthBuffer.Line` | ExampleOfiOSLiDAR/Samples/Depth/DepthMapViewController.swift:227-246 | An inner loop over positions 1 .. n appends exactly n values. |
| `DepthBuffer.Grid` | ExampleOfiOSLiDAR/Samples/Depth/DepthMapViewController.swift:226-247 | m rows of n positions, appended to one flat array, give exactly m * n values. |
| `DepthBuffer.Lines` | ExampleOfiOSLiDAR/Samples/Depth/DepthMapViewController.swift:299-322 | m rows collected one array per row give m rows of n values each. |
| `DepthBuffer.LineAt` | ExampleOfiOSLiDAR/Samples/Depth/DepthMapViewController.swift:227-246 | An inner loop over positions 1 .. n yields n values, value i being position i + 1. |
| `DepthBuffer.GridAt` | ExampleOfiOSLiDAR/Samples/Depth/DepthMapViewController.swift:226-247 | m rows of n positions give m * n values, and slot `r * n + c` holds position (c + 1, r + 1). |
| `DepthBuffer.LinesAt` | ExampleOfiOSLiDAR/Samples/Depth/DepthMapViewController.swift:299-322 | m rows collected one sequence per row give m rows, row r being the line of position r + 1. |
| `DepthBuffer.ToFlatArray` | ExampleOfiOSLiDAR/Samples/Depth/DepthMapViewController.swift:219-250 | Empty for an empty buffer or a failed lock; otherwise the row-major values of positions 1 .. W of rows 1 .. H. |
| `DepthBuffer.FlatArraySlots` | ExampleOfiOSLiDAR/Samples/Depth/DepthMapViewController.swift:226-233 | `toFlatArray` has exactly W * H values, and slot `r * W + c` is pixel (min(c+1, W-1), min(r+1, H-1)). With at least two columns, column 0 is never read; with at least two rows, row 0 is never read. |
| `DepthBuffer.FlatArrayRepeatsLastColumn` | ExampleOfiOSLiDAR/Samples/Depth/DepthMapViewController.swift:227-229 | With two or more columns, the last two slots of every row hold the same value: the last column is read twice. |
| `DepthBuffer.FlatArrayRepeatsLastRow` | ExampleOfiOSLiDAR/Samples/Depth/DepthMapViewController.swift:226-229 | With two or more rows, the last two rows hold the same values: the last row is read twice. |
| `DepthBuffer.PixelAtInteger` | ExampleOfiOSLiDAR/Samples/Depth/DepthMapViewController.swift:228-229 | Converting an integer position to `Float` and back yields that same position, then clamped. |
| `DepthBuffer.ExtractorsMatchSample` | ExampleOfiOSLiDAR/Samples/Depth/DepthMapViewController.swift:193-245 | The value an extractor appends at (x, y) is lane 0 of `sample` at every location that scales to (x, y), and so at (x / W, y / H). |
| `DepthBuffer.InteriorLine` | ExampleOfiOSLiDAR/Samples/Depth/DepthMapViewController.swift:261-267 | In the ranges of `toFlatArray2` and `toArray` no clamping happens: position i + 1 of row y reads pixel (i + 1, y). |
| `DepthBuffer.BytesOf` | ExampleOfiOSLiDAR/Samples/Depth/DepthMapViewController.swift:272-284 | `Data(bytes: &float, count: 4)` copies a stored depth `Float`'s own four bytes, and the filler 0 as four zero bytes. |
| `DepthBuffer.SerializeAppend` | ExampleOfiOSLiDAR/Samples/Depth/DepthMapViewController.swift:273-274 | Appending values appends their bytes. |
| `DepthBuffer.SerializeLength` | ExampleOfiOSLiDAR/Samples/Depth/DepthMapViewController.swift:273-284 | Every value contributes exactly four bytes. |
| `DepthBuffer.Serialize` | ExampleOfiOSLiDAR/Samples/Depth/DepthMapViewController.swift:273-284 | The `Data` that `toFlatArray2` builds: the four bytes of each value, appended in the order the values are produced. |
| `DepthBuffer.SerializeAt` | ExampleOfiOSLiDAR/Samples/Depth/DepthMapViewController.swift:254-287 | Byte k of the data is byte k % 4 of value k / 4. |
| `DepthBuffer.RowBytes` | ExampleOfiOSLiDAR/Samples/Depth/DepthMapViewController.swift:261-286 | The inner loop of `toFlatArray2` produces the bytes of positions 1 .. W-1 of its row. |
| `DepthBuffer.ToFlatArray2` | ExampleOfiOSLiDAR/Samples/Depth/DepthMapViewController.swift:252-290 | Empty for an empty buffer or a failed lock; otherwise the bytes of the interior values, row by row. |
| `DepthBuffer.GridFlattensLines` | ExampleOfiOSLiDAR/Samples/Depth/DepthMapViewController.swift:260-322 | The flat walk and the row-by-row walk visit the same values in the same order. |
| `DepthBuffer.InteriorSlots` | ExampleOfiOSLiDAR/Samples/Depth/DepthMapViewController.swift:252-325 | The values `toFlatArray2` exports are the rows of `toArray` concatenated. There are (H-1) * (W-1) of them, so the data is 4 * (H-1) * (W-1) bytes. |
| `DepthBuffer.GridOfUnsupported` | ExampleOfiOSLiDAR/Samples/Depth/DepthMapViewController.swift:243-244 | For an unsupported format every extracted value is 0. |
| `DepthBuffer.SerializeOfZeros` | ExampleOfiOSLiDAR/Samples/Depth/DepthMapViewController.swift:281-284 | Zero values serialize to zero bytes. |
| `DepthBuffer.ExportOfUnsupported` | ExampleOfiOSLiDAR/Samples/Depth/DepthMapViewController.swift:252-287 | `toFlatArray2` of an unsupported format is all zero bytes, 4 * (H-1) * (W-1) of them, the same length as for a supported format. |
| `DepthBuffer.ToArray` | ExampleOfiOSLiDAR/Samples/Depth/DepthMapViewController.swift:292-325 | Empty for an empty buffer or a failed lock; otherwise one row per y = 1 .. H-1 of the values at x = 1 .. W-1. |
| `DepthBuffer.ArrayRows` | ExampleOfiOSLiDAR/Samples/Depth/DepthMapViewController.swift:299-322 | `toArray` has H-1 rows of W-1 values, and entry [r][c] is pixel (c + 1, r + 1). |
| `ConfidenceMap.ConfidenceToPixel` | ExampleOfiOSLiDAR/Samples/Common/ARFrame+Ext.swift:27-30 | Above level 2 the result is 0. Otherwise it is `level * 255 / 2` rounded down, so always one of 0, 127 and 255. |
| `ConfidenceMap.ConfidenceGreyLevels` | ExampleOfiOSLiDAR/Samples/Common/ARFrame+Ext.swift:28-29 | 255 exactly for level 2, 127 exactly for level 1, and 0 exactly for level 0 and every value above 2. |
| `ConfidenceMap.ConfidenceMonotone` | ExampleOfiOSLiDAR/Samples/Common/ARFrame+Ext.swift:29 | Among the levels 0 .. 2, a higher level never gives a darker pixel. |
| `ConfidenceMap.RemapTwiceIsBlack` | ExampleOfiOSLiDAR/Samples/Common/ARFrame+Ext.swift:27-40 | The rewrite is not idempotent: remapping a remapped byte gives 0. |
| `ConfidenceMap.ConfidenceBuffer.constructor` | ExampleOfiOSLiDAR/Samples/Common/ARFrame+Ext.swift:33-35 | A buffer of `height` rows of `bytesPerRow` bytes over the given memory, starting unlocked. |
| `ConfidenceMap.ConfidenceBuffer.RemapToImage` | ExampleOfiOSLiDAR/Samples/Common/ARFrame+Ext.swift:31-41 | With no base address there is no image and the buffer stays locked. Otherwise every byte below `bytesPerRow * height`, padding included, becomes the remap of its old value; later bytes are untouched; the buffer is unlocked again. |
| `ScreenTransform.Apply` | ExampleOfiOSLiDAR/Samples/Common/ARFrame+Ext.swift:47-48 | How a `CGAffineTransform` moves a point when `transformed(by:)` applies it: the row vector (x, y, 1) times the matrix, so (x, y) goes to (a x + c y + tx, b x + d y + ty). |
| `ScreenTransform.Scale` | ExampleOfiOSLiDAR/Samples/Common/ARFrame+Ext.swift:52-55 | `CGAffineTransform(scaleX:y:)` as a matrix; `ScreenTransform.ScaleAt` states what it does to a point. |
| `ScreenTransform.ScaleAt` | ExampleOfiOSLiDAR/Samples/Common/ARFrame+Ext.swift:52 | `CGAffineTransform(scaleX:y:)` multiplies each coordinate of a point by its factor. |
| `ScreenTransform.Translate` | ExampleOfiOSLiDAR/Samples/Common/ARFrame+Ext.swift:53 | A translation adds its offsets. |
| `ScreenTransform.Concat` | ExampleOfiOSLiDAR/Samples/Common/ARFrame+Ext.swift:56 | `t1.concatenating(t2)` takes every point p to t2(t1(p)): it applies `t1` first and `t2` second. |
| `ScreenTransform.ProductApplies` | ExampleOfiOSLiDAR/Samples/Common/ARFrame+Ext.swift:56 | The matrix product of `t1` and `t2`, in that order, applies `t1` and then `t2` to any point. |
| `ScreenTransform.TranslatedBy` | ExampleOfiOSLiDAR/Samples/Common/ARFrame+Ext.swift:53 | `t.translatedBy(x:y:)` translates first and applies `t` after. |
| `ScreenTransform.Flip` | ExampleOfiOSLiDAR/Samples/Common/ARFrame+Ext.swift:53 | Outside portrait the flip is the identity. |
| `ScreenTransform.FlipConstruction` | ExampleOfiOSLiDAR/Samples/Common/ARFrame+Ext.swift:53 | In portrait, `scale(-1, -1).translatedBy(-1, -1)` is the flip. |
| `ScreenTransform.FlipReflects` | ExampleOfiOSLiDAR/Samples/Common/ARFrame+Ext.swift:53 | In portrait the flip takes (x, y) to (1 - x, 1 - y). |
| `ScreenTransform.FlipInvolution` | ExampleOfiOSLiDAR/Samples/Common/ARFrame+Ext.swift:53 | The flip is its own inverse. |
| `ScreenTransform.FlipKeepsUnitSquare` | ExampleOfiOSLiDAR/Samples/Common/ARFrame+Ext.swift:53 | The flip maps the unit square onto itself: every normalised position stays normalised and is the image of a normalised position. |
| `ScreenTransform.Normalize` | ExampleOfiOSLiDAR/Samples/Common/ARFrame+Ext.swift:52 | Normalising keeps the origin and takes the capture's far corner to (1, 1). |
| `ScreenTransform.ScreenTransform` | ExampleOfiOSLiDAR/Samples/Common/ARFrame+Ext.swift:51-57 | The concatenated transform takes each point p to V(D(F(N(p)))): normalise, flip, display transform, then scale to the viewport. |
| `ScreenTransform.ConcatAssociative` | ExampleOfiOSLiDAR/Samples/Common/ARFrame+Ext.swift:56 | Concatenation is associative, so the grouping of the chain does not matter. |
| `ScreenTransform.ConcatIdentity` | ExampleOfiOSLiDAR/Samples/Common/ARFrame+Ext.swift:53 | `.identity` is neutral on both sides of a concatenation. |
| `ScreenTransform.ThroughWithoutDisplay` | ExampleOfiOSLiDAR/Samples/Common/ARFrame+Ext.swift:52-56 | With the identity as display transform, the chain is normalise, flip, then scale to the viewport. |
| `ScreenTransform.NormalizeThenScale` | ExampleOfiOSLiDAR/Samples/Common/ARFrame+Ext.swift:52-55 | Normalising by the capture size and then scaling to the view port multiplies each coordinate by view port / capture size. |
| `ScreenTransform.LandscapeScalesEveryPoint` | ExampleOfiOSLiDAR/Samples/Common/ARFrame+Ext.swift:52-56 | Outside portrait, with the identity as display transform, every point (x, y) goes to ((vw / cw) x, (vh / ch) y). |
| `ScreenTransform.LandscapeIsScale` | ExampleOfiOSLiDAR/Samples/Common/ARFrame+Ext.swift:51-57 | Outside portrait, with the identity as display transform, `screenTransform` is exactly `CGAffineTransform(scaleX: vw / cw, y: vh / ch)`. |
| `ScreenTransform.ThroughLandscapeIsScale` | ExampleOfiOSLiDAR/Samples/Common/ARFrame+Ext.swift:51-57 | Any transform that takes every point through the four steps is that scaling, outside portrait and with the identity as display transform. |
| `ScreenTransform.LandscapeScalesOntoViewport` | ExampleOfiOSLiDAR/Samples/Common/ARFrame+Ext.swift:52-56 | Outside portrait, with the identity as display transform, the capture corner (cw, ch) lands on (vw, vh). |
| `ScreenTransform.LandscapeKeepsOrigin` | ExampleOfiOSLiDAR/Samples/Common/ARFrame+Ext.swift:52-56 | Outside portrait, with the identity as display transform, the origin stays put. |
| `ScreenTransform.PortraitTurnsHalfWay` | ExampleOfiOSLiDAR/Samples/Common/ARFrame+Ext.swift:52-56 | In portrait, with the identity as display transform, the origin lands on the viewport's far corner. |
| `ScreenTransform.FlippedCorner` | ExampleOfiOSLiDAR/Samples/Common/ARFrame+Ext.swift:52-53 | In portrait the normalised, flipped capture corner is the origin. |
| `ScreenTransform.PortraitCornerToOrigin` | ExampleOfiOSLiDAR/Samples/Common/ARFrame+Ext.swift:52-56 | In portrait, with the identity as display transform, the capture corner lands on the origin. |
| `HeightScan.ProbeLocation` | ExampleOfiOSLiDAR/Samples/Export/ExportViewController.swift:114-139 | Location k of phase 1 is at x = w / 3 + k, one point further right each time, at half the view height. |
| `HeightScan.ProbeHit` | ExampleOfiOSLiDAR/Samples/Export/ExportViewController.swift:124-131 | One phase-1 probe: the first hit of the ray through location k, cast along that ray's origin and direction. |
| `HeightScan.LastRay` | ExampleOfiOSLiDAR/Samples/Export/ExportViewController.swift:116-181 | The ray phase 2 casts from: the one made at line 124 for the last location phase 1 tried, or the one made at line 116 for the first location when the loop tries none. |
| `HeightScan.SweepCount` | ExampleOfiOSLiDAR/Samples/Export/ExportViewController.swift:114-123 | The number of phase-1 locations is the first k with `w/2 - w/6 + k >= w/2 + w/6`. |
| `HeightScan.BeforeSweepEnd` | ExampleOfiOSLiDAR/Samples/Export/ExportViewController.swift:120-123 | Location k is short of the end exactly when k is below that count. |
| `HeightScan.ClosestAmong` | ExampleOfiOSLiDAR/Samples/Export/ExportViewController.swift:118-140 | The running nearest hit has no point exactly when its distance is still 9999. It is never above 9999 and never above the distance of any hit seen. |
| `HeightScan.ClosestNoneIff` | ExampleOfiOSLiDAR/Samples/Export/ExportViewController.swift:118-143 | Phase 1 finds no point exactly when no location's hit is nearer than 9999. |
| `HeightScan.ClosestIsFirstNearest` | ExampleOfiOSLiDAR/Samples/Export/ExportViewController.swift:135-138 | A point found is the position of a hit at the minimum distance, and every earlier hit is strictly farther. |
| `HeightScan.FindClosest` | ExampleOfiOSLiDAR/Samples/Export/ExportViewController.swift:113-140 | The loop returns the nearest hit's point among all the locations, a missed ray included, and the ray through the last location. |
| `HeightScan.Advance` | ExampleOfiOSLiDAR/Samples/Export/ExportViewController.swift:155-179 | The if-chain stops exactly when sweeping left, going down and below `cp.y - 2`. Otherwise the depth is kept. Continuing a sweep moves the probe exactly one step in its direction and keeps its height. Every turn restarts at `cp.x`. The vertical direction only changes from up to down, and then the right sweep starts at `cp.y - 0.03`. |
| `HeightScan.GridAdvance` | ExampleOfiOSLiDAR/Samples/Export/ExportViewController.swift:155-179 | On the grid, every step of the if-chain stays among the walk's states and strictly lowers the rank: on exact reals the walk terminates. |
| `HeightScan.Threshold` | ExampleOfiOSLiDAR/Samples/Export/ExportViewController.swift:157-170 | Offset k steps of 0.03 passes 1/2 exactly when k >= 17 and passes 2 exactly when k >= 67, on either side. |
| `HeightScan.AdvanceOnGrid` | ExampleOfiOSLiDAR/Samples/Export/ExportViewController.swift:155-179 | The if-chain on real positions, applied to a probe at `cp + 0.03 * (i, j)`, is the grid step: it stops or moves to the lifted next grid state. |
| `HeightScan.RightSweepWalk` | ExampleOfiOSLiDAR/Samples/Export/ExportViewController.swift:155-160 | A right sweep probes offsets i + 1 .. 16, then the centre, then turns left. |
| `HeightScan.LeftSweepWalk` | ExampleOfiOSLiDAR/Samples/Export/ExportViewController.swift:161-178 | A left sweep in a row where the walk does not turn round probes offsets i - 1 .. -16, then the centre of the next row up or down. |
| `HeightScan.RowWalk` | ExampleOfiOSLiDAR/Samples/Export/ExportViewController.swift:155-178 | A full row is 34 probes, ending one row further on. |
| `HeightScan.UpRowsWalk` | ExampleOfiOSLiDAR/Samples/Export/ExportViewController.swift:161-177 | Going up, the walk passes rows j .. 66 in full before row 67. |
| `HeightScan.DownRowsWalk` | ExampleOfiOSLiDAR/Samples/Export/ExportViewController.swift:161-177 | Going down, the walk passes rows j .. -66 in full before row -67. |
| `HeightScan.TopRowWalk` | ExampleOfiOSLiDAR/Samples/Export/ExportViewController.swift:163-167 | In row 67 the walk sweeps right once, then its first left step turns it to row -1. |
| `HeightScan.BottomRowWalk` | ExampleOfiOSLiDAR/Samples/Export/ExportViewController.swift:168-169 | In row -67 the walk sweeps right once, and its first left step stops it. |
| `HeightScan.WalkClosedForm` | ExampleOfiOSLiDAR/Samples/Export/ExportViewController.swift:154-179 | The unfolded walk from the closest point is the closed form `WalkOffsets`. |
| `HeightScan.Walk` | ExampleOfiOSLiDAR/Samples/Export/ExportViewController.swift:154-179 | The offsets the phase-2 loop probes, in order, from the closest point until the stop test at line 168 breaks out at line 169. |
| `HeightScan.RightRunLength` | ExampleOfiOSLiDAR/Samples/Export/ExportViewController.swift:155-160 | A right sweep from offset i has 16 - i probes. |
| `HeightScan.LeftRunLength` | ExampleOfiOSLiDAR/Samples/Export/ExportViewController.swift:161-178 | A left sweep from offset i has i + 16 probes. |
| `HeightScan.WalkLength` | ExampleOfiOSLiDAR/Samples/Export/ExportViewController.swift:154-202 | Phase 2 casts exactly 4557 rays. |
| `HeightScan.WalkStaysInBox` | ExampleOfiOSLiDAR/Samples/Export/ExportViewController.swift:154-179 | Every probe offset is at most 16 steps across and 67 steps up or down. |
| `HeightScan.ProbesNearClosest` | ExampleOfiOSLiDAR/Samples/Export/ExportViewController.swift:148-182 | Every probe keeps the closest point's depth, lies within 0.48 of it across and within 2.01 of it vertically. |
| `HeightScan.InDepthBand` | ExampleOfiOSLiDAR/Samples/Export/ExportViewController.swift:189 | A hit is accepted exactly when its depth is strictly within 0.2 of the closest point's. |
| `HeightScan.Recorded` | ExampleOfiOSLiDAR/Samples/Export/ExportViewController.swift:180-201 | A probe records at most one height, one exactly when its ray hits inside the depth band, and that height is the hit's y. |
| `HeightScan.Accepted` | ExampleOfiOSLiDAR/Samples/Export/ExportViewController.swift:154-202 | The walk records at most one height per probe, and none when no single probe records one. |
| `HeightScan.Highest` | ExampleOfiOSLiDAR/Samples/Export/ExportViewController.swift:195-197 | `maxVerticalPosition` is at least -9999, at least every recorded height, and either -9999 or one of them. |
| `HeightScan.Lowest` | ExampleOfiOSLiDAR/Samples/Export/ExportViewController.swift:198-200 | `minVerticalPosition` is at most 9999, at most every recorded height, and either 9999 or one of them. |
| `HeightScan.Extent` | ExampleOfiOSLiDAR/Samples/Export/ExportViewController.swift:152-203 | With no recorded height the result is the sentinel spread -19997.97; otherwise it is at least the spread of any two recorded heights plus 0.03. |
| `HeightScan.ExtentSpansAccepted` | ExampleOfiOSLiDAR/Samples/Export/ExportViewController.swift:195-203 | When some heights are recorded, all strictly between -9999 and 9999, the result is the highest minus the lowest of them plus 0.03, so at least 0.03. |
| `HeightScan.AcceptedSnoc` | ExampleOfiOSLiDAR/Samples/Export/ExportViewController.swift:186-201 | A probe adds its hit's height exactly when the ray hits within the strict ±0.2 depth band; otherwise nothing changes. |
| `HeightScan.MeasureExtent` | ExampleOfiOSLiDAR/Samples/Export/ExportViewController.swift:145-203 | On exact reals the phase-2 loop terminates and returns the spread plus 0.03 of the heights recorded along the whole walk. Every ray is cast from the phase-1 ray's origin, with the probe point as direction. |
| `HeightScan.DetectHeight` | ExampleOfiOSLiDAR/Samples/Export/ExportViewController.swift:113-204 | No height exactly when phase 1 finds no point; otherwise the phase-2 extent around that point, cast from the last phase-1 ray's origin. |

## Left out

- IEEE-754 single precision. A stored depth `Float` is kept as its four bytes and never decoded. Computed values (a byte divided by 255, the filler 0) and all ray and transform arithmetic are exact reals. This includes the product `location * simd_float2(pixelSize)` in `sample` (DepthMapViewController.swift:199), which the source rounds to `Float` before truncating to a pixel: the single-precision 0.7 lies just below 0.7, so on a buffer 10 pixels wide its exact product with 10 truncates to column 6 in the model, while `Float` rounds that product to 7.0 and the source reads column 7.
- Float rounding of the phase-2 walk. The code adds 0.03 repeatedly in `Float` (ExportViewController.swift:156, 162, 174 and 176), so the step counts depend on the size of the closest point's coordinates. The counts of 17 steps per half sweep and 67 rows hold on exact reals. At a y of 4096 the climb takes 68 rows. At a y of 2^18 each step rounds to 0.03125 and the climb takes 65 rows. Once |cp.x| or |cp.y| reaches 2^19 = 524288, the `Float` spacing is 0.0625, so adding 0.03 leaves the coordinate unchanged: the test at line 157 (for x) or at line 163 (for y) never fires and the `while (true)` of line 154 never exits. The model's ray count of 4557 and its termination proof hold on exact reals only.
- `Int32` width. `simd_int2` truncation is modelled, but not overflow of positions beyond the 32-bit range.
- The `CVPixelBufferLockBaseAddress`/`Unlock` calls. In `DepthBuffer` the lock's outcome is one `locked` flag. In `ConfidenceMap` it is a lock count plus a possibly null `memory`, and the bracket is kept: the code returns without unlocking when there is no base address.
- IEEE encoding of the `Float`s `toFlatArray2` computes. For BGRA values this is the parameter `encode`; a stored depth value and the filler 0 need no encoding.
- ARKit's `displayTransform(for:viewportSize:)`. It is a parameter and nothing is assumed about it, except the identity where a lemma says so.
- ScreenTransform.ScreenTransform, ScreenTransform.Normalize and ScreenTransform.Through: require a nonzero capture size. The code would divide by zero into infinite `CGFloat` scales, which exact reals cannot express.
- A successful lock whose base address is nil. The `data` accessor (`DepthMapViewController.swift:187-189`) builds its buffer pointer with a non-failable initialiser, so `guard let data = data` never returns early, and a nil base address traps at `data.baseAddress!`. The model has no such state: a successful lock always gives the bytes, and only the lock's own failure gives `nil` or an empty array.
- `arView.ray(through:)` is a total function `rayThrough`. The code force-unwraps its optional result, which crashes when no camera is available.
- `scene.raycast`'s length (1000) and `.nearest` query are folded into the oracle `cast`.
- The red ball anchors phase 2 places at every accepted hit. They are scene output that does not affect the result.
- `CIImage` rendering: resampling the image under the transform (`ScreenTransform.Apply` only says where each point goes), `cropped(to:)` and the `UIImage` construction around the remapped buffer.
- UI, recording, mesh export and dispatch queues of the app.
- Structural splits. `DepthBuffer.RowBytes` is the inner loop of `toFlatArray2`. `HeightScan.FindClosest` and `HeightScan.MeasureExtent` are the two loops of `detectHeight`. Each is a method of its own in the model, but a loop in one function in the code.
- DepthBuffer.ExtractorsMatchSample: states the agreement with `sample` for any location that scales exactly to the integer position. It does not state it for `Float` division, which may round.
- The direction strings `"right"`/`"left"` and `"up"`/`"down"` are two two-valued datatypes, four states in all. The code's `else if (leftRightDirection == "left")` never sees another string.
- With no accepted phase-2 hit, `detectHeight` returns the sentinel spread -19997.97 (`HeightScan.Extent`), not `nil`: only a phase-1 miss gives `nil`. The model computes the same value.
