# indi-allsky image analysis: a Dafny model

This project models the two image-analysis components of indi-allsky and proves properties about them.

- **The star-trail generator** (`StarTrailGenerator`). It folds a night's frames into one composite by elementwise maximum. Frames that are too bright on average are excluded, and so are frames with too many bright pixels. The composite is written only when at least twenty frames were kept.
- **The SQM analyzer** (`IndiAllskySqm`). It computes a sky-brightness index. The index is the mean gray level inside a region mask, offset for exposure time and gain. The mask is built from the first frame and cached from then on.

Pixel grids are sequences of unbounded integers. Means, cutoffs and weights are exact `real` numbers.

Each state record is advanced by a pure function:

- The generator state is `StarTrails.Generator`: thresholds, an optional buffer with its pixel cutoff, and two counters.
- The analyzer state is `Sqm.Analyzer`: configuration, binning, an optional external mask and an optional cached mask.

Some Python calls raise after they have already changed the object. `processImage` increments `trail_count` before `cv2.max` can raise. `calculate` caches the mask before `cv2.mean` or a configuration lookup can raise. For such calls the model returns the state left behind together with the exception (`Step`, `Reading`). This keeps the state after an exception visible.

Modules:

| file | module | contents |
|---|---|---|
| basics.dfy | Basics | `Option`, `Result` |
| grids.dfy | Grids | rows, grids and cubes; zero buffers; elementwise max; sums and threshold counts |
| frames.dfy | Frames | mono and colour frames, gray view, mean, `cv2.max`; the max-fold is independent of order |
| seqs.dfy | Seqs | order-preserving filter and its effect on multisets |
| file_order.dfy | FileOrder | candidate files; stable sort by mtime; which files are read |
| star_trails.dfy | StarTrails | `processImage`, the frame loop, `finalize`, `generate` |
| trail_theorems.dfy | TrailTheorems | whole-run results: fold of kept frames, dominance, order independence |
| sqm_mask.dfy | SqmMask | ROI truncation, central fallback, filled rectangle, external-mask AND |
| sqm.dfy | Sqm | masked mean, exposure/gain weighting, `calculate` with the cached mask |

One point where the code differs from its own wording:

- The fallback region is `W/2 ± W/5` and `H/2 ± H/5`, which runs from 3/10 to 7/10 of each axis (`SqmMask.CentralRectTenths`). The log line calls this "the central 20%".

A behaviour worth knowing:

- The first frame's buffer is black: H×W for a 2-D frame and H×W×3 for any other frame, always 8-bit. A 4-channel BGRA frame therefore never has the buffer's shape (`Frames.Blank`), and every such frame that passes both tests makes `cv2.max` raise.

## Model

| member | source | states |
|---|---|---|
| StarTrails.FirstTrail | indi_allsky/starTrails.py:88-97 | The first frame's buffer is all zero. It is H×W for a 2-D frame and H×W×3 otherwise. The cutoff is H·W·(pixel_cutoff_threshold/100). |
| StarTrails.NewGenerator | indi_allsky/starTrails.py:17-24 | A new generator has `max_brightness` 50, `mask_threshold` 190 and `pixel_cutoff_threshold` 1.0, no buffer and both counters at 0. |
| StarTrails.Establish | indi_allsky/starTrails.py:88-97 | Without a buffer, the first frame's black buffer and cutoff are installed. An existing buffer is kept as it is. Counters and thresholds are unchanged. |
| StarTrails.AcceptsMonotone | indi_allsky/starTrails.py:106-118 | Both tests exclude only on a strict excess. So a larger brightness limit, mask threshold or cutoff keeps every frame a smaller one kept. |
| StarTrails.ProcessImage | indi_allsky/starTrails.py:85-123 | The first call sets the cutoff from the first frame, whether that frame is kept or not. Later calls keep the cutoff. Exactly one counter moves per call. `trail_count` moves exactly when the frame passes both tests. The only exception is a shape mismatch. |
| StarTrails.ExcludedFrameKeepsBuffer | indi_allsky/starTrails.py:106-118 | A frame failing either test adds one to `excluded_images`. `trail_count` and the buffer are unchanged, and nothing is raised. |
| StarTrails.KeptFrameFolds | indi_allsky/starTrails.py:120-123 | A frame passing both tests adds one to `trail_count`. The buffer becomes the elementwise max of the old buffer and the original frame. It raises exactly when their shapes differ, and then leaves the buffer alone. |
| StarTrails.BufferNeverDecreases | indi_allsky/starTrails.py:120-123 | After any call, the buffer has the same shape and every sample is at least its previous value. |
| StarTrails.ProcessAll | indi_allsky/starTrails.py:64-72 | After feeding a list of frames, the two counters have grown by the number of frames, unless a shape error stopped the run. Thresholds and cutoff never change. |
| StarTrails.Finalize | indi_allsky/starTrails.py:128-145 | It raises InsufficientData exactly when `trail_count` < 20, whatever the exclusions. It writes exactly when there are at least 20 frames and the type is 'tif'/'tiff', or 'jpg'/'jpeg'/'png' with a compression entry. The buffer is written to `outfile`. The recorded encoding is the parameter list passed to `imwrite`: the JPEG quality for 'jpg'/'jpeg', the PNG compression for 'png', and none for 'tif'/'tiff'. Any other type raises, and a missing compression entry raises. |
| StarTrails.JobFrames | indi_allsky/starTrails.py:56-72 | The job feeds one valid frame per non-empty, decodable file. The k-th frame is the decoded content of the k-th file in read order, which is ascending by mtime. |
| StarTrails.Generate | indi_allsky/starTrails.py:54-79 | InsufficientData never escapes. The only exceptions that escape are a shape error from the frame loop, which escapes exactly when the loop raised, and the unknown-type and missing-compression errors of finalize. A file is written exactly when the loop finishes with at least 20 kept frames and the type can be written. The file goes to `outfile` and holds the final buffer. What is written, and every error other than the shape error, is exactly what finalize gives on the final state. A run without an exception ends with kept + excluded = previous counts + number of usable files. |
| FileOrder.SortByMtime | indi_allsky/starTrails.py:59 | The result is ascending by mtime and is a rearrangement of its input. |
| FileOrder.SortStable | indi_allsky/starTrails.py:59 | Files with equal mtime keep their input order, as Python's `sorted` does. |
| FileOrder.ReadOrder | indi_allsky/starTrails.py:56-70 | The files read are exactly the non-zero-size files that decode, with multiplicity, in ascending mtime order. |
| FileOrder.ReadOrderStable | indi_allsky/starTrails.py:56-70 | Files with equal mtime are read in the order they were listed, as the stable `sorted` leaves them. |
| Frames.Blank | indi_allsky/starTrails.py:94-97 | The zero buffer has the frame's height and width. It is compatible with the frame exactly when the frame is 2-D or has 3 channels. |
| Frames.GrayView | indi_allsky/starTrails.py:101-104 | A 2-D frame is its own gray view. A 3- or 4-channel frame, the kinds `cvtColor` accepts, maps each pixel through the gray function, keeping height and width. |
| Frames.Mean | indi_allsky/starTrails.py:106 | The mean times the number of samples is their sum. It lies between any lower and upper bound of the samples. |
| Frames.MaxFrame | indi_allsky/starTrails.py:123 | The elementwise max has the operands' shape and dominates both. It is the least such frame: every frame dominating both operands dominates it. |
| Frames.FoldMaxDominates | indi_allsky/starTrails.py:120-123 | Folding frames by max gives a buffer at least the start buffer and every folded frame. |
| Frames.FoldMaxPermutation | indi_allsky/starTrails.py:120-123 | Any rearrangement of the folded frames gives the same buffer. |
| Grids.CountAboveSpec | indi_allsky/starTrails.py:114 | The count of samples above the threshold is at most H·W. It is zero exactly when no sample exceeds the threshold. |
| TrailTheorems.ProcessAllFolds | indi_allsky/starTrails.py:106-123 | Once the buffer exists, a run fails exactly when a kept frame has another shape. Otherwise the buffer is the max-fold of exactly the kept frames, and the counters split the list into kept and excluded. |
| TrailTheorems.TrailIsFoldOfKept | indi_allsky/starTrails.py:88-123 | From any state, after a run without a shape error, the final buffer is the max-fold of the frames that pass the tests against the first frame's cutoff. The fold starts from the buffer the first frame set up. |
| TrailTheorems.TrailDominatesKept | indi_allsky/starTrails.py:120-123 | The final buffer is at least the starting buffer and every kept frame, sample by sample. |
| TrailTheorems.TrailOrderIndependent | indi_allsky/starTrails.py:120-123 | Once the buffer exists, rearranged frames fail in the same cases. Before that, order matters, because the first frame fixes the buffer's shape and the cutoff. Otherwise they end in the same buffer and the same counts. |
| TrailTheorems.FreshOrderMatters | indi_allsky/starTrails.py:88-123 | Before the buffer exists, order matters. With limits 200/190/50%, a 2×2 frame [[255, 255], [0, 0]] followed by a 2×1 frame [[0], [0]] fails on shape: the first frame's cutoff of 2 pixels keeps both. The reverse order succeeds: the 2×1 frame sets a cutoff of 1 pixel, which excludes the wider frame's 2 bright pixels. |
| TrailTheorems.MeanAtLimitKept | indi_allsky/starTrails.py:106-118 | A frame whose mean equals `max_brightness` is not excluded for brightness. It is kept exactly when its count of bright pixels is within the cutoff. |
| TrailTheorems.UniformFrameAtLimitKept | indi_allsky/starTrails.py:106-118 | A uniform frame at the brightness limit, no brighter than `mask_threshold`, is kept under any non-negative cutoff. |
| TrailTheorems.BrightFrameExcluded | indi_allsky/starTrails.py:106-110 | A frame whose gray samples all exceed `max_brightness` is excluded. |
| TrailTheorems.FewFramesInsufficient | indi_allsky/starTrails.py:128-134 | A freshly constructed generator, whose counters start at 0 (starTrails.py:17-24), fed fewer than 20 frames cannot finalize: `trail_count` stays below 20, so finalize raises InsufficientData. |
| SqmMask.Trunc | indi_allsky/sqm.py:58-61 | `int()` truncates toward zero. The result is within 1 of its argument, on the same side of zero. |
| SqmMask.ScaleIsQuotient | indi_allsky/sqm.py:58-61 | For a positive binning, a scaled corner is the integer quotient rounded toward zero. |
| SqmMask.RoiRect | indi_allsky/sqm.py:55-67 | With 4 or more ROI entries, the first four are scaled. With fewer, the central fallback is used. A zero binning raises exactly when the ROI is non-empty. |
| SqmMask.CentralRectTenths | indi_allsky/sqm.py:64-67 | The fallback corners are ⌊3W/10⌋, ⌊3H/10⌋, ⌊7W/10⌋ and ⌊7H/10⌋. |
| SqmMask.BinnedRoiExample | indi_allsky/sqm.py:57-61 | ROI [100,100,200,200] at binning 2 gives (50,50)-(100,100). |
| SqmMask.FallbackExample | indi_allsky/sqm.py:62-67 | With no ROI, a 1000×800 frame gives x 300..700 and y 240..560. |
| SqmMask.RectMask | indi_allsky/sqm.py:53-76 | The mask is H×W. A cell is 255 exactly inside the filled rectangle, boundary included, and 0 elsewhere. |
| SqmMask.Restrict | indi_allsky/sqm.py:80-82 | A cell keeps the mask's value where the external mask is nonzero, and is 0 elsewhere. |
| SqmMask.BuildMask | indi_allsky/sqm.py:47-85 | The mask is H×W with values in {0,255}. A cell is 255 exactly when it is in the rectangle and, if there is an external mask, that mask is nonzero there. A zero binning with a non-empty ROI raises the division error first. Otherwise an external mask of another size raises the size error. |
| SqmMask.RestrictedWithinRect | indi_allsky/sqm.py:80-85 | Every cell switched on with an external mask is also on without it. |
| Sqm.MaskedMean | indi_allsky/sqm.py:36 | It is 0 when the mask selects nothing. Otherwise it times the number of selected cells is the sum of the selected samples, and it lies between any bounds of those samples. |
| Sqm.FullMaskMean | indi_allsky/sqm.py:36 | With a mask selecting every cell, it equals the plain mean. |
| Sqm.Weighted | indi_allsky/sqm.py:40 | At the maximum exposure and the night gain, the index equals the raw mean. It is zero exactly for a zero raw mean, or an exposure or gain exactly ten units past its maximum. |
| Sqm.WeightedExample | indi_allsky/sqm.py:40 | Raw 100, exposure 15 of 30, gain 0 of 10 gives 500. |
| Sqm.WeightedExposureTrend | indi_allsky/sqm.py:40 | For a positive raw mean and gain factor, a longer exposure gives a lower index. The index is not clamped and turns negative past ten seconds beyond the maximum. |
| Sqm.WithMask | indi_allsky/sqm.py:23-25 | A cached mask is reused as it is. Otherwise the mask built from the ROI, binning, external mask and frame size is cached, and nothing else in the analyzer changes. |
| Sqm.Calculate | indi_allsky/sqm.py:20-44 | Only the cached mask changes, and only from absent to present. The value is the weighted masked mean of the gray view. A failed mask build raises that build's error. A mask of another size raises the size error. Otherwise a missing CCD_EXPOSURE_MAX raises for that key, read first, and then a missing night gain raises for its key. |
| Sqm.NewAnalyzer | indi_allsky/sqm.py:11-17 | A new analyzer holds the config, the binning and the optional external mask, and has no cached mask. |
| Sqm.FirstCallBuildsMask | indi_allsky/sqm.py:20-25 | The first call on a new analyzer caches the mask built from the ROI, binning, external mask and frame size. If the build raises, nothing is cached and that error escapes. |
| Sqm.MaskBuiltOnce | indi_allsky/sqm.py:23-25 | Once a call has built the mask, a later call with a changed ROI and another frame reuses it unchanged. |
| Sqm.MonoUsesFrame | indi_allsky/sqm.py:28-36 | A 2-D frame is averaged as it is, under the cached mask. |

## Left out

- The colour-to-gray conversion of `cv2.cvtColor` (BGR weights and rounding) is not modelled. It is a per-pixel parameter `luma`.
- Frames with a channel count other than 3 or 4 are not modelled. `cv2.imread` returns a 2-D array or a 3- or 4-channel one, and `cv2.cvtColor` raises on any other channel count.
- The image data type is not modelled. The buffer is `uint8`, and `cv2.max` raises when a frame has another depth. Samples are unbounded integers, and only shape mismatches raise.
- Decoding (`cv2.imread`) and encoding (`cv2.imwrite`) are not modelled. A file is a record of size, mtime and the decoded frame (or none). A written file is a record of path, the parameter list finalize passes, and buffer.
- StarTrails.Finalize: assumes `outfile`'s extension matches `IMAGE_FILE_TYPE`. `cv2.imwrite` picks the format from the extension, and `IMAGE_FILE_TYPE` only chooses the parameter list. An extension OpenCV cannot write makes `imwrite` raise, and that error is not modelled.
- Floating point is not modelled. Means, the cutoff, exposure, gain and the weighting are exact reals, and IEEE rounding is not claimed.
- `time.time()`, the elapsed-time counters and all logging are left out.
- `stat()` is left out. Size and mtime are plain fields, and every `FileEntry` is an existing file. A path that vanishes between the listing and `p.stat()` makes `generate` raise `FileNotFoundError`, and that error is not modelled.
- `IMAGE_FILE_TYPE` is assumed present in the configuration: `fileType` is a plain string. Without the key, `finalize` raises `KeyError`, which is not modelled.
- The threshold setters are left out. The caller updates the `Limits` record between calls instead.
- The `Exception` text for an unknown file type is not modelled. It is `UnknownFileType(type)`.
- The rasterisation of `cv2.rectangle` is taken as an axis-aligned fill between the two corners. Both corners are included, either corner order is accepted, and the fill is clipped to the image.
- Configuration values of the wrong type are left out: an `SQM_ROI` that is not a list of integers, or a non-integer binning.
- Camera hardware, the FTP upload layer and shared multiprocessing state are not part of this model.
