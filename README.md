# Number-similarity matrix viewer, modelled in Dafny

The viewer shows a symmetric (MAX+1) x (MAX+1) similarity matrix (MAX = 2100)
that is shipped as a flat file of bytes holding only the strictly-upper
triangle, row by row. This project models the integer core of `main.js`:

- **Codec** (`codec.dfy`): `rowOffset`, the offset of an upper cell, the
  quantisation of a byte to hundredths with `Math.round`, and `similarity`
  (1 on the diagonal, a packed read above it, the mirrored read below it).
  MAX is a parameter, so the four-item case (MAX = 3, six bytes) is covered
  by the same definitions as the full matrix. A similarity is an integer
  number of hundredths in 0..100; `Math.round(v*100/255)` is
  `(100v + 127) div 255`, because `100v/255` is never exactly halfway
  between two integers. A reference encoder (`Pack`) and decoder of offsets
  (`Unpack`) serve as independent partners of the addressing.
- **Palette** (`palette.dfy`): the 256 pixel words
  `(255<<24)|(b<<16)|(g<<8)|r`, as 32-bit patterns. The colour scale is a
  parameter of type `int -> Rgb`.
- **Decoder** (`decoder.dfy`): the nested row/column loop that fills the
  flat `Uint32Array` raster in place, with the running counter `rowElems`
  standing for `rowOffset(row)` and lower cells copying their mirror cell.
- **Marginal** (`marginal.dfy`): the profile of a selected column and the
  per-segment stagger delay of its transition.
- **Viewport** (`viewport.dfy`): the visible data-index window derived from
  a zoom transform, over exact reals.
- **Explorer** (`explorer.dfy`): a class holding the state that the click,
  zoom and hover handlers update in place: `marginValues`, `clickCol`,
  `zoomSlow`, the four edges, `hoverMarginal`, and the set of marginal
  segments whose class list holds `hover`.

Behaviour kept as the code has it:

- `similarity` and the handlers do no bounds check. The model requires
  `0 <= row, col <= MAX` of its callers.
- `if (clickCol)` treats column 0 as "no selection": a zoom does not move
  the click line when column 0 is selected (`ClickLineFollows`).
- `rightEdge` and `bottomEdge` start at MAX, while the identity zoom sets
  them to MAX+1 (`InitialWindowDiffers`). That starting window lasts only
  until the identity zoom at main.js:358, which runs `onZoom` in the same
  synchronous block that attaches the click, hover and zoom handlers
  (main.js:258, 305-306, 356). The `Viewer` class also admits a click
  before any zoom, a sequence the page cannot produce.
- Clicking the column that is already selected has no special case. The
  profile is recomputed, and the transition runs again with the 250 base
  delay.
- The code never clamps pointer-derived indices to [0, MAX]
  (main.js:260, 270-271), so callers must pass in-range indices.
- The code does not check that the packed file is long enough; the model
  requires exactly MAX(MAX+1)/2 bytes.

## Model

| member | source | states |
|---|---|---|
| Codec.RowOffset | main.js:38-40 | definition of `rowOffset`; properties in the `RowOffset…` rows below |
| Codec.RowOffsetMatchesSource | main.js:38-40 | the integer form `row*(2MAX-row+1)/2` equals the source's `row*(MAX-(row-1)/2)` exactly, over the reals |
| Codec.RowOffsetStep | main.js:38-40 | consecutive rows start `MAX - row` entries apart |
| Codec.RowOffsetZero | main.js:38-40 | row 0 starts at offset 0 |
| Codec.RowOffsetCountsEarlierRows | main.js:36-40 | `rowOffset(row)` is the number of entries stored by rows 0..row-1 |
| Codec.RowOffsetIncreasing | main.js:38-40 | `rowOffset` is strictly increasing over rows 0..MAX |
| Codec.RowOffsetBounds | main.js:38-40 | every row start lies in `[0, MAX(MAX+1)/2]` |
| Codec.RowOffsetEnd | main.js:38-40 | the offset past the last row is the packed file size |
| Codec.PackedIndex | main.js:48 | definition of the offset of upper cell (row, col); properties in `PackedIndexInRow`, `PackedIndexInjective`, `Unpack` |
| Codec.PackedIndexInRow | main.js:47-48 | the offset of upper cell (row, col) lies in `[rowOffset(row), rowOffset(row+1))`, hence inside the packed file |
| Codec.PackedIndexInjective | main.js:47-48 | distinct upper cells have distinct offsets |
| Codec.Unpack | main.js:36-48 | every offset of the packed file is the offset of some upper cell (the addressing is onto) |
| Codec.UnpackFrom | main.js:36-48 | searching from row `row`, the recovered cell is an upper cell at or below that row whose offset is the given one |
| Codec.Quantize | main.js:49 | the result is `floor(100v/255 + 1/2)`, Math.round's rounding, and lies in 0..100 |
| Codec.QuantizeRounds | main.js:49 | the same rounding statement over the reals |
| Codec.QuantizeNeverTies | main.js:49 | `100v/255` is never halfway between integers, so the direction of ties does not matter |
| Codec.QuantizeEndpoints | main.js:49 | byte 0 reads as 0 and byte 255 as 1.00 |
| Codec.QuantizeMonotone | main.js:49 | quantisation is monotone in the byte |
| Codec.Similarity | main.js:43-52 | the similarity is in 0..100 hundredths and is exactly 100 on the diagonal; the symmetric case recurses once |
| Codec.SimilaritySymmetric | main.js:43-52 | `similarity(d, r, c) == similarity(d, c, r)` for all valid r, c |
| Codec.SimilarityDiagonal | main.js:44-46 | the diagonal is 1.00 whatever the packed data holds |
| Codec.PackRows | main.js:36-40 | the reference encoding of rows 0..k-1 is `rowOffset(k)` bytes long |
| Codec.Pack | main.js:36-40 | the reference encoding of a whole matrix has the packed file's size |
| Codec.PackRowsAt | main.js:47-48 | in the reference encoding, the offset of upper cell (row, col) holds that cell's byte |
| Codec.SimilarityOfPacked | main.js:43-52 | round trip: reading a packed symmetric matrix gives each cell's quantised byte, and 100 on the diagonal |
| Palette.PackColor | main.js:74-77 | definition of a palette word; properties in `PackColorChannels`, `PackColorHighBit` |
| Palette.PackColorChannels | main.js:72-78 | every palette word has alpha byte 255, and r, g, b come back from bits 0-7, 8-15 and 16-23 |
| Palette.PackColorHighBit | main.js:74-77 | bit 31 of every palette word is set (the JavaScript value is the negative int32 reading of the word) |
| Palette.BuildPalette | main.js:70-78 | entry i of the new 256-entry palette is the packed colour of the scale at i |
| Decoder.DisplayByte | main.js:95-103 | definition of the byte a raster cell shows; properties in `DisplayByteMatchesSimilarity`, `DisplayByteOfPacked` |
| Decoder.Pixel | main.js:94-103 | definition of flat pixel i's colour; properties in `PixelOfCell`, `Decode` |
| Decoder.DisplayByteMatchesSimilarity | main.js:95-103 | each raster cell shows a byte whose quantisation is the codec's similarity for the same cell, and the raster is symmetric |
| Decoder.DisplayByteOfPacked | main.js:91-104 | the raster of a packed symmetric matrix shows each off-diagonal cell's own byte and byte 255 on the diagonal |
| Decoder.PixelOfCell | main.js:94 | flat pixel `r*N + c` is cell (r, c), and equals its mirror pixel `c*N + r` |
| Decoder.Decode | main.js:88-106 | after the loop every pixel holds its cell's palette colour: `colors[255]` on the diagonal, `colors[encoded[rowOffset(r)+c-r-1]]` above it, the mirror cell below it (the loop invariants show `rowElems` equals `rowOffset(row)` at each row and every mirror read hits an already-written pixel) |
| Marginal.Profile | main.js:242-243 | the profile has one entry per item, each in 0..100, and the selected column's own entry is 100, the peak of the profile |
| Marginal.ProfileTranspose | main.js:242-243 | entry b of column a's profile equals entry a of column b's profile |
| Marginal.FourItemCells | main.js:43-52 | with MAX = 3 and bytes 10..60, cell (0, 1) reads 0.04 from either side and the diagonal reads 1.00 |
| Marginal.FourItemProfile | main.js:242-243 | with MAX = 3 and bytes 10..60, the profile of column 2 is 0.08, 0.16, 1.00, 0.24 |
| Marginal.StaggerDelay | main.js:248-254 | definition of the delay closure; properties in the `StaggerDelay…` rows below |
| Marginal.StaggerDelayBounds | main.js:248-254 | segments outside `[leftEdge-1, rightEdge+1]` get delay 0; on-screen ones wait at least the base delay (0 on the first click, else 250) |
| Marginal.StaggerDelaySweeps | main.js:253 | on screen, the delay grows with the distance from the selected column, so it is smallest at the column itself |
| Marginal.StaggerDelaySymmetric | main.js:253 | on screen, segments equally far on either side of the selected column get equal delays |
| Viewport.Edges | main.js:331-334 | definition of the four edges; properties in `EdgesWidth`, `EdgesInRange`, `IdentityWindow` |
| Viewport.InExtent | main.js:353-355 | definition of d3.zoom's scale extent and translate extent for a square canvas; used as `OnZoom`'s precondition |
| Viewport.EdgesWidth | main.js:331-334 | the window is `N/k` items wide on each axis |
| Viewport.EdgesInRange | main.js:331-334 | within the zoom limits (scale 1..300, translate extent the canvas) the window stays inside `[0, N]` |
| Viewport.IdentityWindow | main.js:331-334 | the identity transform shows `[0, N]` on both axes |
| Viewport.InitialWindowDiffers | main.js:196-199 | before the first zoom the right edge is MAX, one less than the identity transform gives |
| Explorer.ClickLineFollows | main.js:347 | definition of the truthiness test on `clickCol`; properties in `ColumnZeroIsNotFollowed` |
| Explorer.ColumnZeroIsNotFollowed | main.js:347-351 | a zoom moves the click line exactly when a column other than 0 is selected |
| Explorer.Viewer.constructor | main.js:173-199 | initially nothing is selected, the zoom factor is 1, the window is `[0, MAX]` and nothing is highlighted |
| Explorer.Viewer.FillMarginal | main.js:242 | afterwards `marginValues[k] == similarity(encodedData, k, dataCol)` for every k; since this does not depend on the old contents, the repeated fill on line 243 changes nothing |
| Explorer.Viewer.UpdateMarginal | main.js:224-256 | records the column, reports whether it is the first selection, leaves the whole profile in `marginValues`, and returns each segment's target height and stagger delay; zoom and hover state are unchanged |
| Explorer.Viewer.OnZoom | main.js:309-352 | sets `zoomSlow` to the scale and the four edges to the window of the transform, keeps the window inside `[0, N]`, and reports whether the click line moves |
| Explorer.Viewer.OnCanvasHover | main.js:268-290 | returns the cell's similarity for the tooltip, and afterwards exactly segment `dataCol` carries the hover highlight |
| Explorer.Viewer.ResetCanvasHover | main.js:291-304 | afterwards no segment carries the hover highlight |

## Left out

- number_vectors.py: it computes the similarities with spaCy word vectors and numpy floating point, and plots with matplotlib and bokeh; it does not write the packed file.
- The debounce helper (main.js:10-34): animation-frame scheduling and cancellation.
- Fetching the file and the promise plumbing (main.js:57, 88-89, 107-110, 221, 362-363): asynchronous I/O. The decoder takes the fetched bytes as a parameter.
- DOM and SVG scaffolding, label and tooltip placement, `innerHTML` and `toFixed` text (main.js:113-170, 182-189, 274-283): user interface.
- Canvas blitting and axis redraw in `onZoom` (main.js:314-328), and the margin-line x positions (main.js:342-345): canvas and d3 axis calls.
- The d3 transitions, durations and the click line's fade-in and movement (main.js:228-240, 244-256): animation. `UpdateMarginal` returns the first-click flag and each segment's target and delay instead.
- `d3.interpolatePlasma` and `d3.color` (main.js:70, 73): a foreign colour scale, taken as a parameter returning three bytes.
- The `dataAccessX`/`dataAccessY` `rangeRound` scales (main.js:194-195, 217-218, 338-339): floating-point d3 scales. The handlers take data indices directly.
- d3.zoom's own clamping of scale and translation (main.js:353-358): the library enforces it. `OnZoom` requires it (`InExtent`).
- Re-running `draw` on resize, which recreates the hover variables: layout.
- `hoverRow` and `hoverCol` (main.js:265-266, 293-294): they are only ever set to `undefined`.
- Edges and delays are computed over exact reals: the double rounding of the edges (main.js:331-334), of the on-screen test (main.js:250) and of the delay (main.js:253) is not modelled.
- Codec.Similarity: requires the packed file to hold exactly MAX(MAX+1)/2 bytes and the indices to lie in 0..MAX; out of range the source reads `undefined` and yields NaN, which is not modelled.
- Codec.Similarity: returns integer hundredths; the source returns the float `k/100`.
- Explorer.Viewer.constructor: does not state the contents of `marginValues` before the first click; the source leaves them `undefined`.
- Decoder.Decode: takes the palette as an immutable sequence rather than the JavaScript array built by `BuildPalette`.
- Palette.BuildPalette: models the palette words as 32-bit patterns; the JavaScript array holds their signed int32 readings (see `PackColorHighBit`), which the `Uint32Array` store turns back into the same bits.
