# Offset and VR180 stereo nodes, modelled in Dafny

This project models two image nodes of a ComfyUI plugin. Both nodes take a
batch of images laid out as a `[B, H, W, C]` tensor.

- **Offset node** (`MuffinsOffsetNode.offset`). It works like an image
  editor's Offset filter. It resolves a whole-pixel shift per axis, with an
  optional "half the dimension" shortcut, and reduces that shift to a
  symmetric representative modulo the dimension.
  - If both shifts are zero, it returns the input itself.
  - In `wrap` mode it rolls every image cyclically along the height and the
    width.
  - In any other mode it builds a canvas filled with a colour (`fill_color`)
    or with black. It then pastes the part of the image that stays visible
    at its shifted position.
- **VR180 stereo tools node** (`VR180StereoTools.apply`). It can crop an odd
  width to an even one. It then runs one of four modes:
  - `even_crop_only` returns the batch;
  - `sbs_extract_half` returns one half of a side-by-side (SBS) frame;
  - `sbs_copy_half_to_stereo` returns one half next to a copy of itself;
  - `mono_to_stereo_copy` returns a mono frame next to a copy of itself.

  SBS outputs may have their centre seam feathered in place: the band of
  `f` columns on each side of the seam is overwritten by the same linear
  blend. Every output is clamped to `[0, 1]`.

The files:

- `tensors.dfy` (module `Tensors`) holds the shared data model:
  - a batch is a `Shape(b, h, w, c)` plus a sequence of images;
  - an image is a sequence of rows of pixels;
  - a pixel is a sequence of channel samples, as reals;
  - an input is a non-tensor, a tensor of another rank, or a rank-4 tensor;
  - `Result`/`Error` hold the failures the nodes raise.
- `offset.dfy` (module `Offset`) models the offset node:
  - shift normalisation, rolls and fill canvases are pure functions;
  - the fill canvas is also built imperatively in a two-dimensional array
    (`ShiftFill`) and proved equal to its function;
  - `Offset` is the whole node as a method, proved against `OffsetSpec`.
- `stereo.dfy` (module `Stereo`) models the stereo node:
  - slicing, concatenation and clamping are pure functions;
  - the seam feather is an in-place method over a two-dimensional array
    (`SeamFeather`). It computes the blended band first and then writes it
    over both sides of the seam, and it is proved equal to the function
    `Feathered`;
  - `Apply` is the whole node as a method, proved against `ApplySpec`.
- `blend.dfy` (module `Blend`) bounds the seam's linear blend: each blended
  channel lies between the two channels it mixes.

The batch dimension is handled by lifting the per-image operations over the
sequence of images (`FillBatch`, `FeatherBatch`). Channels travel inside a
pixel. The fill colour is the only per-channel value.

## Model

| member | source | states |
|---|---|---|
| Offset.ResolveShift | muffins_offset_node.py:57-71 | With auto-half set, the shift is `dim / 2` and the requested amount is ignored. Otherwise the shift is the requested whole-pixel amount. |
| Offset.Normalize | muffins_offset_node.py:73-82 | For a dimension > 0, the result is congruent to the raw shift modulo the dimension and lies in `(-(dim - dim/2), dim/2]`. A zero dimension leaves the shift unchanged. |
| Offset.NormalizeUnique | muffins_offset_node.py:73-82 | A value has the raw shift's residue and lies in the symmetric range if and only if it is the normalised shift. |
| Offset.NormalizeIdempotent | muffins_offset_node.py:73-82 | Normalising an already normalised shift changes nothing. |
| Offset.AutoHalfShift | muffins_offset_node.py:57-82 | With auto-half, the normalised shift is `dim / 2` for every dimension. A shift of exactly half stays positive because the comparison is strict. |
| Offset.OffsetWholePeriods | muffins_offset_node.py:57-85 | For either auto-half setting, when the resolved shift on each axis (`dim / 2` under auto-half, the request otherwise) is a whole number of periods, the node returns the input itself, in every edge mode. |
| Offset.Rotate | muffins_offset_node.py:87-90 | The cyclic rotation of one axis that `torch.roll` performs keeps the length of the sequence. Its contents are stated by `RotateKeepsElements` and, for the image, by `RollAt`. |
| Offset.Roll | muffins_offset_node.py:87-90 | The roll of an image, rows rotated by `dy` and each row by `dx`, keeps the number of rows. `RollAt`, `RollShape` and `RollPermutes` state the cells. |
| Offset.RotateKeepsElements | muffins_offset_node.py:87-90 | A cyclic rotation of a sequence keeps its multiset of elements. |
| Offset.RollKeepsCells | muffins_offset_node.py:87-90 | A roll keeps the multiset of an image's cells. |
| Offset.RollAt | muffins_offset_node.py:87-90 | The rolled image at `(i, j)` is the input at `((i - dy) mod h, (j - dx) mod w)`. |
| Offset.RollShape | muffins_offset_node.py:87-90 | A roll keeps the `h x w` dimensions of the image. |
| Offset.RollPermutes | muffins_offset_node.py:87-90 | A roll is a bijection on cells: every output cell holds a distinct input cell, and every input cell appears at the position given by `To`. |
| Offset.RollCompose | muffins_offset_node.py:87-90 | Rolling by `(a, b)` and then by `(c, d)` is rolling by `(a + c, b + d)`. |
| Offset.RollResidue | muffins_offset_node.py:87-90 | Rolls by shifts with the same residues give the same image, so normalising before a roll changes nothing. |
| Offset.RollZero | muffins_offset_node.py:84-90 | A roll by `(0, 0)` is the identity. |
| Offset.RollRoundTrip | muffins_offset_node.py:87-90 | Rolling by `(dy, dx)` and then by `(-dy, -dx)` restores the image. |
| Offset.RollAll | muffins_offset_node.py:87-90 | The roll applied to every image of the batch gives a valid batch of the same shape. `OffsetWrapAt` states its cells at node level. |
| Offset.OffsetWrapIsRoll | muffins_offset_node.py:57-90 | In wrap mode, for either auto-half setting on each axis, the node's result is the roll of every image by the resolved shifts (`dim / 2` under auto-half, the request otherwise), before normalisation. |
| Offset.OffsetWrapAt | muffins_offset_node.py:57-90 | In wrap mode, for either auto-half setting, output pixel `(k, i, j)` is input pixel `(k, (i - y) mod h, (j - x) mod w)`, where `y` and `x` are the resolved shifts: `h / 2` and `w / 2` under auto-half. |
| Offset.OffsetWrapRoundTrip | muffins_offset_node.py:57-90 | Offsetting in wrap mode, with either auto-half setting, and then offsetting by the negated resolved shifts returns the original batch. |
| Offset.OffsetWrapKeepsCells | muffins_offset_node.py:57-90 | In wrap mode every output image holds the same multiset of pixels as its input image. |
| Offset.CopySpan | muffins_offset_node.py:106-118 | Per axis, source start = destination start - shift. A destination index lies in the copied range exactly when it and the source index it reads both lie in the image. |
| Offset.NormalizedSpanInBounds | muffins_offset_node.py:106-121 | After normalisation on a non-empty axis the copied length is at least 1, so the early return is never taken. The source and destination ranges both lie in `[0, dim)`. |
| Offset.FillShifted | muffins_offset_node.py:96-124 | The fill canvas with the shifted image pasted in keeps the `h x w` grid. `FillShiftedRectangle` states its cells. |
| Offset.FillShiftedRectangle | muffins_offset_node.py:96-124 | Inside the destination rectangle the canvas holds the source rectangle cell for cell. Everywhere else it holds the fill. |
| Offset.FillShiftedRight | muffins_offset_node.py:106-124 | For `dy = 0` and `0 < dx < w`, columns `[0, dx)` are fill and column `j >= dx` is input column `j - dx`. |
| Offset.ShiftFill | muffins_offset_node.py:96-124 | The array is newly allocated, so it aliases nothing. Built in place, it holds the input cell `(i - dy, j - dx)` where that cell is inside the image, and the fill everywhere else. |
| Offset.FillPixel | muffins_offset_node.py:96-101 | The fill is `[r, g, b]` in `fill_color` mode and black (all zero) in every other non-wrap mode. |
| Offset.Shifts | muffins_offset_node.py:57-82 | Both normalised shifts lie in their axis's symmetric range. |
| Offset.FillBatch | muffins_offset_node.py:92-126 | The batch built canvas by canvas equals `FillAll`, every image's fill canvas. |
| Offset.FillAll | muffins_offset_node.py:92-126 | Every image's fill canvas, as a batch, is valid and keeps the input's shape. |
| Offset.OffsetFillAt | muffins_offset_node.py:84-126 | In the fill modes, each output pixel is the source pixel when that pixel lies inside the image, and the fill colour otherwise. This includes the zero-shift shortcut. |
| Offset.OffsetSpec | muffins_offset_node.py:35-126 | The node as a function succeeds if and only if the input is a rank-4 tensor with three channels, and then returns a valid batch of the input's shape. The lemmas above state its contents mode by mode. |
| Offset.OffsetShape | muffins_offset_node.py:48-54 | The node fails on a non-tensor, a rank other than 4, or `C != 3`. On success it returns a valid batch of the input's shape. |
| Offset.Offset | muffins_offset_node.py:35-126 | The node as a method returns exactly `OffsetSpec`. |
| Stereo.EnsureEvenWidth | vr180_stereo_tools.py:48-56 | `skip` returns the input. Any other setting gives width `W - W % 2`, which is even, and keeps every remaining column unchanged. In both cases the width is `EvenWidth`. |
| Stereo.EnsureEvenWidthIdempotent | vr180_stereo_tools.py:48-56 | Width normalisation applied twice is the same as applied once. |
| Stereo.Clamp | vr180_stereo_tools.py:89-90 | The clamped sample lies in `[0, 1]`, and a sample already inside is kept. |
| Stereo.ClampNearest | vr180_stereo_tools.py:89-90 | The clamped sample is the point of `[0, 1]` nearest to the input. |
| Stereo.ClampAll | vr180_stereo_tools.py:89-90 | The clamped batch has the same shape, lies in `[0, 1]`, and each pixel is the input pixel clamped channel by channel. |
| Stereo.ClampPixel | vr180_stereo_tools.py:89-90 | The clamped pixel has the same channels, each the input channel clamped to `[0, 1]`. |
| Stereo.Columns | vr180_stereo_tools.py:96-98 | The column slice `[lo, hi)` has width `hi - lo`, and its column `j` is input column `lo + j`. |
| Stereo.SideBySide | vr180_stereo_tools.py:114-123 | Concatenation along the width gives width `2w`: columns `[0, w)` come from the first batch and `[w, 2w)` from the second. |
| Stereo.Ramp | vr180_stereo_tools.py:68 | The ramp has `f` weights, all in `[0, 1]`. |
| Stereo.Mix | vr180_stereo_tools.py:72 | The blend `l * (1 - t) + r * t` of two pixels has as many channels as they do. `Blend.MixBetween` bounds its channels. |
| Blend.BlendBetween | vr180_stereo_tools.py:72 | With a weight in `[0, 1]`, the blend of two samples lies between them. |
| Blend.MixBetween | vr180_stereo_tools.py:72 | With a weight in `[0, 1]`, every channel of a blended pixel lies between the two pixels' channels. |
| Stereo.BlendedBand | vr180_stereo_tools.py:68-72 | The blended band of a row has `f` pixels of `c` channels. `BlendBand` and `FeatherRowAt` state its contents. |
| Stereo.FeatherRow | vr180_stereo_tools.py:62-74 | The feathered row keeps the row's length. `FeatherRowAt` states its columns. |
| Stereo.FeatherImage | vr180_stereo_tools.py:62-74 | Feathering every row of an image with band width `f` keeps the `h x 2half x c` image shape. `FeatherImageColumns` states its columns. |
| Stereo.Feathered | vr180_stereo_tools.py:58-75 | The feather for a `seam_feather` setting keeps the image shape. `FeatheredColumns` states its columns. |
| Stereo.FeatherRowAt | vr180_stereo_tools.py:62-74 | In a feathered row, columns outside the bands are kept. Left-band column `half-f+k` and right-band column `half+k` both equal the mix of the pre-write columns `half-f+k` and `half+k` with weight `ramp[k]`. |
| Stereo.FeatherImageColumns | vr180_stereo_tools.py:62-74 | The same statement as `FeatherRowAt`, for every row of an image. |
| Stereo.FeatheredColumns | vr180_stereo_tools.py:58-75 | With `seam_feather <= 0` the image is unchanged. Otherwise, with `f = min(seam_feather, half)`, only columns `[half-f, half+f)` change, and both bands hold the blend computed from the values before the writes. |
| Stereo.FeatheredOutside | vr180_stereo_tools.py:62-74 | With feathering on, every column outside `[half-f, half+f)` keeps its value. |
| Stereo.FeatheredLeftBand | vr180_stereo_tools.py:62-73 | With feathering on, left-band column `j` holds the mix of columns `j` and `j + f` before the writes, by weight `ramp[j - (half - f)]`. |
| Stereo.FeatheredRightBand | vr180_stereo_tools.py:62-74 | With feathering on, right-band column `j` holds the mix of columns `j - f` and `j` before the writes, by weight `ramp[j - half]`. |
| Stereo.BothBands | vr180_stereo_tools.py:72-74 | Writing the blended band over the left band and then over the right band gives the feathered image. |
| Stereo.BlendBand | vr180_stereo_tools.py:68-72 | The band array is newly allocated, so it aliases nothing. Computed from the image array, it is the blended band of every row, and the image is left alone. |
| Stereo.WriteBand | vr180_stereo_tools.py:73-74 | The in-place write is the slice assignment of the band at the given start column. Nothing else in the array changes. |
| Stereo.SeamFeather | vr180_stereo_tools.py:58-75 | The in-place feather leaves the array holding `Feathered` of its old contents. |
| Stereo.FeatherBatch | vr180_stereo_tools.py:58-75 | The batch feathered image by image through arrays equals `FeatherAll`. |
| Stereo.FeatherAll | vr180_stereo_tools.py:58-75 | Feathering every image of a batch gives a valid batch of the same shape. |
| Stereo.FeatherAllOff | vr180_stereo_tools.py:59-60 | With `seam_feather <= 0` the batch is returned unchanged. |
| Stereo.FeatherAllOutside | vr180_stereo_tools.py:62-74 | With feathering on, every column outside `[half-f, half+f)` of every image keeps its value. |
| Stereo.FeatherAllBands | vr180_stereo_tools.py:62-74 | With feathering on, column `j` of the left band and column `j + f` of the right band hold the same pixel. |
| Stereo.ChosenHalf | vr180_stereo_tools.py:96-99 | The chosen half has width `W/2`. Its column `j` is input column `j` for `left` and input column `W/2 + j` for any other value. |
| Stereo.ExtractHalf | vr180_stereo_tools.py:93-100 | For a batch of even width `W` (in the node, the width-normalised batch), the extracted half has width `W/2`, the batch's other dimensions, and lies in `[0, 1]`. |
| Stereo.CopyHalfToStereo | vr180_stereo_tools.py:103-126 | For a batch of even width (in the node, the width-normalised batch), the copy-mode result has that batch's shape and lies in `[0, 1]`. |
| Stereo.MonoToStereo | vr180_stereo_tools.py:129-143 | For a batch of width `m` (in the node, the width-normalised batch), the mono-mode result has width `2m` and lies in `[0, 1]`. |
| Stereo.ApplySpec | vr180_stereo_tools.py:77-145 | The node as a function fails on every input that is not a rank-4 tensor, with `NotATensor` exactly when the input is not a tensor. On a rank-4 input its only failures are `OddWidth` and `UnknownMode` of the given mode. `ApplyFailures` states when each occurs. |
| Stereo.Apply | vr180_stereo_tools.py:77-145 | The node as a method returns exactly `ApplySpec`. |
| Stereo.ApplyFailures | vr180_stereo_tools.py:77-145 | The node fails with `NotATensor` or `BadRank` on bad input. It fails with `UnknownMode` if and only if the mode is not one of the four. It fails with `OddWidth` if and only if a splitting mode meets an odd width under `skip`. It succeeds in every other case. |
| Stereo.ApplyInUnitRange | vr180_stereo_tools.py:89-143 | Every batch the node returns is valid and has all samples in `[0, 1]`. |
| Stereo.ApplyLayoutIrrelevant | vr180_stereo_tools.py:110-140 | The result is the same for any two `output_layout` values. |
| Stereo.EvenWidth | vr180_stereo_tools.py:48-56 | The normalised width is at most the input width, and even unless the setting is `skip`. |
| Stereo.ApplyEvenCropOnly | vr180_stereo_tools.py:85-90 | `even_crop_only` succeeds with the width-normalised shape, and each pixel is the input pixel clamped. |
| Stereo.ApplyExtractHalf | vr180_stereo_tools.py:93-100 | Let `W` be the width after even-width normalisation (`EvenWidth`). When `W` is even, `sbs_extract_half` returns width `W/2` holding the clamped input columns `[0, W/2)` for `left` and `[W/2, W)` for any other value. |
| Stereo.ApplyCopyMode | vr180_stereo_tools.py:103-126 | On an even normalised width, copy mode returns `CopyHalfToStereo` of the width-normalised batch. |
| Stereo.ApplyCopyIsPair | vr180_stereo_tools.py:103-126 | Copy mode returns the clamped, feathered pair of copies of the chosen half. |
| Stereo.ChosenHalfOfInput | vr180_stereo_tools.py:85-110 | The chosen half of the width-normalised batch, read in the input's own columns. |
| Stereo.ApplyCopyHalf | vr180_stereo_tools.py:103-126 | Let `W` be the width after even-width normalisation (`EvenWidth`). When `W` is even and feathering is off, copy mode returns width `W`, and columns `j` and `j + W/2` both hold the clamped column `j` of the chosen half, read from the input. |
| Stereo.ApplyCopySeamBands | vr180_stereo_tools.py:103-126 | With feathering, copy mode gives the same pixel in left-band column `j` and right-band column `j + f`. |
| Stereo.CopySeamOutsideAt | vr180_stereo_tools.py:103-126 | With feathering, every column outside the bands holds the clamped source column it was copied from. |
| Stereo.PairUnfeathered | vr180_stereo_tools.py:111-126 | The unfeathered pair of copies of a width-`m` batch has width `2m`, and columns `j` and `j + m` both hold the clamped column `j`. |
| Stereo.PairSeamBands | vr180_stereo_tools.py:111-126 | In the feathered pair, left-band column `j` and right-band column `j + f` hold the same pixel. |
| Stereo.PairSeamOutsideAt | vr180_stereo_tools.py:111-126 | In the feathered pair, every column outside the bands holds the clamped copied column. |
| Stereo.ApplyMonoIsPair | vr180_stereo_tools.py:129-143 | Mono mode returns the clamped, feathered pair of copies of the width-normalised frame. |
| Stereo.ApplyMono | vr180_stereo_tools.py:129-143 | Let `m` be the width after even-width normalisation (`EvenWidth`), which drops the last column of an odd input unless the setting is `skip`. Without feathering, mono mode returns width `2m`, and both halves hold the clamped input columns `[0, m)`. |
| Stereo.ApplyMonoSeamBands | vr180_stereo_tools.py:129-143 | With feathering, mono mode gives the same pixel in left-band column `j` and right-band column `j + f`. |
| Stereo.ApplyMonoSeamOutside | vr180_stereo_tools.py:129-143 | With feathering, every column outside the bands holds the clamped input column it was copied from. |

## Left out

- The conversion of the offsets to pixels is left out (muffins_offset_node.py:60-63, 68-71). It is Python's round-half-to-even on binary floats, and in percent units it includes the scaling by the dimension. The model takes the already-rounded whole-pixel shift per axis as its input, so the `units` setting does not appear.
- Ramp: `torch.linspace` is modelled as exact reals `k / (f - 1)`, or a single `0` when `f` is 1. Only the bound `[0, 1]` is claimed, not float rounding or the exact endpoints.
- Sample values are exact reals. There is no NaN, no infinity and no float rounding in clamping or blending.
- Device and dtype handling is not part of this model. The `isinstance` check on the input becomes the `NotTensor` variant of the input type, and the raised exceptions become `Err` values.
- Plugin glue is not part of this model: the `INPUT_TYPES` schemas, the return-type attributes and the node registration tables.
- Aliasing is not modelled. `clone` in the stereo node only prevents aliasing under the in-place feather. The model's copies are values, and the feather works on a fresh array per image.
- Batch and channel loops: torch applies each operation to the whole tensor at once. The model applies it image by image, looping over the batch, with the channels carried inside each pixel.
- Offset.Offset: the zero-shift shortcut returns the input batch as a value. Object identity of the returned tensor is not modelled.
- Stereo.ApplySpec and Stereo.Apply take every argument explicitly. The Python defaults of `apply` (vr180_stereo_tools.py:77-78: `sbs_copy_half_to_stereo`, `left`, `cross_eyed`, `auto_crop_if_odd`, `0`) are not modelled, because the host always passes every argument: the node declares each input as required (vr180_stereo_tools.py:14-40).
- Stereo.CopySeamOutsideAt: the copy mode's outside-the-band property is stated on `CopyHalfToStereo` of the width-normalised batch. `ApplyCopyMode` links that to the node's result; no single lemma states it on the node's raw input.
