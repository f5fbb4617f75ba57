# Fume analysis frame pipeline, modelled in Dafny

This project models the frame pipeline of `fume_detect_extract_classify.py`. The pipeline estimates how much of a blast's smoke is toxic. It has two stages.

- **Background subtraction** (`bg_sub`). The first frame, in grayscale and blurred, is the reference. Each later frame goes through the same smoothing. The absolute difference from the reference is thresholded into a 0/255 mask. The colour frame is AND-ed with itself under that mask, so only the pixels that moved keep their colour. The result is written to a masked video.
- **Colour classification** (`color_sub`). Each frame of the masked video is matched against two fixed `inRange` boxes on the decoded B, G, R channels. The source's comments name them after red hues (:98, :102), but no colour conversion happens, so a grey pixel such as (50, 50, 50) falls in the first box. The two band masks are added as uint8. Every pixel outside the union is zeroed. The frame's ratio is added to a running sum: pixels in the union over nonzero channel entries. A frame counter starts at 1. The result is `sum / counter * 100`.
- **`analyze_fumes`** runs the two stages one after the other.

Frames are rectangular `seq<seq<Pixel>>` with byte channels (`Frames`). The video reads are a `seq<Option<Frame>>`. A `None`, or the end of the sequence, is a failed read.

Both loops are modelled twice:

- as recursive folds (`BackgroundSubtraction.StepWhile`, through `SubtractFrom`, and `ColorClassification.ClassifyFrom`);
- as `while` loops with `break`s, written like the source (`SubtractStream`, `ClassifyStream`). They are proved to end where the folds end.

Some numerics are library code whose internals are not visible here:

- grayscale conversion;
- Gaussian blur;
- `INTER_AREA` interpolation;
- the MJPG write and re-read of the intermediate video.

These are fields of a `Cv.Library` value. `Cv.Valid` records only what the pipeline relies on:

- each of them keeps the geometry;
- `resize` yields the requested size;
- resizing a frame to its own size returns it unchanged, as `cv2.resize` copies in that case.

The files and what they hold:

- `wrappers.dfy`: `Option` and `Result`.
- `frames.dfy`: pixels, frames, planes, and counts of nonzero entries.
- `cv.dfy`: the OpenCV and numpy element operations.
- `rescale.dfy`: `rescale_frame`.
- `bg_sub.dfy`: `bg_sub`.
- `color_sub.dfy`: `color_sub`.
- `analyze.dfy`: `analyze_fumes`.

### Behaviour of the code as written

The model follows the code. Some of its behaviour is easy to misread from the names and comments in the source; these points are stated explicitly.

- **Threshold.** `cv2.threshold(..., 20, 255, THRESH_BINARY)` marks a pixel only when the difference is strictly greater than 20. A difference of exactly 20 is not marked.
- **No colour conversion.** The comments at :98 and :102 speak of hue ranges ("0-10", "170-180"), but no conversion to HSV happens before `inRange`. The bands test the B, G, R channels exactly as decoded.
- **Wrapping union.** `mask0 + mask1` is uint8 addition, which wraps rather than saturates. The union is still nonzero exactly where either band fires, and with these bands the two never fire together.
- **Ratio.** The ratio divides the union pixel count by the number of nonzero channel entries (`np.where(frame != 0)`), not by the number of pixels. A toxic pixel has at least two nonzero channels, so a frame's ratio is at most 1/2: a frame of only toxic pixels scores 1/2 or less, not 1. The final percentage is therefore always below 50, although the docstring at :170 describes it as toxic fume pixels over all fume pixels.
- **Frame counter.** The counter starts at 1, so the average is taken over one more than the number of frames processed.
- **One-frame video.** A video with a single readable frame does not fail. It yields no masked frames and a score of 0. Only a missing or empty first frame makes `bg_sub` raise.

## Model

| member | source | states |
|---|---|---|
| Frames.NonZeroEntries | fume_detect_extract_classify.py:140 | The number of nonzero channel entries, which is the length of each index array numpy returns for the colour frame, is at most three per pixel. |
| Frames.NonZeroCount | fume_detect_extract_classify.py:138 | The number of nonzero mask entries, which is the length of each index array numpy returns for the mask, is at most one per element. |
| Cv.AbsDiff | fume_detect_extract_classify.py:58 | Each entry is the absolute difference of the two inputs: it is one of the two signed differences, never negative, and 0 exactly where they agree. The geometry is the inputs'. |
| Cv.Threshold | fume_detect_extract_classify.py:59 | Every entry is 0 or `maxval`. It is `maxval` where the source is strictly above the threshold and 0 where it is at or below. |
| Cv.BitwiseAnd | fume_detect_extract_classify.py:62 | Where the mask is zero the output pixel is black. Elsewhere no output channel exceeds the corresponding channel of either input. |
| Cv.AddWrap | fume_detect_extract_classify.py:130 | Each entry is the sum of the two uint8 entries, less 256 when the sum overflows a byte. |
| Cv.ZeroWhereMaskZero | fume_detect_extract_classify.py:134-135 | The copy is black where the mask is zero and equal to the frame elsewhere, with the frame's geometry. |
| BackgroundSubtraction.Smoothed | fume_detect_extract_classify.py:55-56 | Grayscale conversion followed by the blur keeps the frame's geometry. |
| ColorClassification.Absorb | fume_detect_extract_classify.py:141-145 | The counter advances by one for every frame. The sum grows by the frame's ratio, and stays unchanged when the division raised. |
| ColorClassification.Finalize | fume_detect_extract_classify.py:161 | The percentage times the counter equals 100 times the sum. |
| ColorClassification.ClassifyFrom | fume_detect_extract_classify.py:121-156 | The fold writes at most one frame per read and advances the counter exactly once per written frame. |
| FumeAnalysis.ArtifactPercent | fume_detect_extract_classify.py:173 | The percentage `color_sub` reports for a written video lies in [0, 50). |
| Rescale.ScaledDim | fume_detect_extract_classify.py:16-17 | The scaled dimension is the floor of `n * percent / 100`: `d * 100 <= n * percent < (d + 1) * 100`. |
| Rescale.RescaleFrame | fume_detect_extract_classify.py:16-19 | The resize succeeds exactly when both scaled dimensions are positive, and the result has the floor-scaled width and height. |
| Rescale.RescaleFullSize | fume_detect_extract_classify.py:35 | At 100 percent the frame comes back unchanged, and only an empty frame makes the call fail. |
| Cv.BitAndSelf | fume_detect_extract_classify.py:62 | AND-ing a channel value with itself returns the value. |
| Cv.SelfMasking | fume_detect_extract_classify.py:62 | `bitwise_and(f, f, mask)` keeps `f`'s pixel where the mask is nonzero and is black elsewhere. |
| Cv.InRange | fume_detect_extract_classify.py:127-128 | Each mask entry is 255 iff every channel lies within the band's inclusive bounds, 0 otherwise, and the geometry is the frame's. |
| BackgroundSubtraction.DiffMask | fume_detect_extract_classify.py:58-59 | Every mask entry is 0 or 255. An entry is 255 iff the smoothed intensities differ by strictly more than 20. Identical inputs give an all-zero mask. |
| BackgroundSubtraction.SubtractFrame | fume_detect_extract_classify.py:54-62 | One loop iteration succeeds iff the frame is non-empty and has the reference's geometry. The masked frame keeps each changed pixel and blacks out every other one. |
| BackgroundSubtraction.StepWhile | fume_detect_extract_classify.py:49-80 | For any per-read step, the loop yields one output per read, in order, and stops at the first read that is missing or whose step fails. |
| BackgroundSubtraction.SubtractFrom | fume_detect_extract_classify.py:49-80 | The loop emits one masked frame per read, in order, and stops at the first read that is missing or raises. |
| BackgroundSubtraction.BgSub | fume_detect_extract_classify.py:32-37 | `EmptyStream` exactly when the first frame is missing or empty. Otherwise the k-th written frame is read k+1 masked against the smoothed first frame, and writing stops at the first failing read. |
| BackgroundSubtraction.SubtractStream | fume_detect_extract_classify.py:49-80 | The loop with its `break`s writes exactly the frames of every successful read before the first failure, in order. |
| ColorClassification.AtMostOneBandFires | fume_detect_extract_classify.py:99-104 | The two bands are disjoint on channel 0, so at most one mask is nonzero at any pixel. |
| ColorClassification.GreyPixelsAreToxic | fume_detect_extract_classify.py:98-104 | The boxes, though named after red hues, admit the grey pixels (50, 50, 50) and (180, 180, 180), because the channels are not converted to HSV first. |
| ColorClassification.UnionMask | fume_detect_extract_classify.py:130 | The uint8 sum of the two band masks is nonzero iff the pixel lies in either band. |
| ColorClassification.ToxicOnly | fume_detect_extract_classify.py:134-135 | The output image keeps a pixel unchanged iff it is toxic and zeroes all its channels otherwise. Its geometry is the frame's. |
| ColorClassification.UnionCountsToxic | fume_detect_extract_classify.py:130-138 | The union mask has exactly one nonzero entry per toxic pixel. |
| ColorClassification.ToxicBound | fume_detect_extract_classify.py:138-140 | Twice the number of toxic pixels never exceeds the number of nonzero channel entries. |
| ColorClassification.DoubledRatio | fume_detect_extract_classify.py:138-140 | With both `np.where` counts doubled, the quotient equals toxic pixels over nonzero channel entries. |
| ColorClassification.FrameRatio | fume_detect_extract_classify.py:138-144 | The division raises exactly for an all-black frame. Otherwise the ratio is toxic pixels over nonzero channel entries, within [0, 1/2]. |
| ColorClassification.SoleToxicPixelRatio | fume_detect_extract_classify.py:138-142 | A frame whose one pixel is toxic, with two nonzero channels, has ratio 1/2 rather than 1. |
| Frames.AllBlackIffNoEntries | fume_detect_extract_classify.py:140-144 | A frame has no nonzero channel entry iff every pixel is black, which is when `ZeroDivisionError` is raised. |
| ColorClassification.RatioSumBound | fume_detect_extract_classify.py:141-145 | The running sum over n frames lies within [0, n/2]. |
| ColorClassification.BlackFramesAddNothing | fume_detect_extract_classify.py:141-144 | All-black frames add nothing to the sum. |
| ColorClassification.ClassifyFromFrames | fume_detect_extract_classify.py:118-147 | The loop adds each frame's ratio before the first failed read to the sum and advances the counter once per such frame, even when the ratio raised. Their outputs are written in order. |
| ColorClassification.ClassifyFromStep | fume_detect_extract_classify.py:121-147 | A failed read ends the loop with nothing written. A good read is absorbed and its output written before the rest. |
| ColorClassification.ColorSub | fume_detect_extract_classify.py:118-161 | The result is the summed ratios of the frames read before the first failure, over one more than their number, times 100. The written frames are their toxic-only outputs. |
| ColorClassification.ColorSubWith | fume_detect_extract_classify.py:118-161 | For any per-frame step, the percentage is the summed contributions of the frames read before the first failure, over one more than their number, times 100. The written frames are their outputs, in order. |
| ColorClassification.ColorSubBounds | fume_detect_extract_classify.py:118-161 | The percentage is never negative and below 50, and it is 0 when no frame was processed. |
| ColorClassification.ClassifyStream | fume_detect_extract_classify.py:118-161 | The `while` loop with its `break` ends with the sum, counter and written frames of the fold. |
| FumeAnalysis.AnalyzeFumes | fume_detect_extract_classify.py:163-174 | It fails exactly when the first frame is missing or empty. Otherwise the score lies in [0, 50). |
| FumeAnalysis.MaskedFramesNonEmpty | fume_detect_extract_classify.py:54-66 | Every frame background subtraction writes is non-empty. |
| FumeAnalysis.ArtifactFullyRead | fume_detect_extract_classify.py:123-126 | Colour classification reads back every written frame, after the codec. |
| FumeAnalysis.ArtifactScore | fume_detect_extract_classify.py:118-161 | The score of a written video is the summed ratios of its re-read frames over one more than their number, times 100. |
| FumeAnalysis.EveryMaskedFrameIsClassified | fume_detect_extract_classify.py:172-174 | `analyze_fumes` scores exactly the frames `bg_sub` wrote, each once, after the codec round trip. |
| FumeAnalysis.SingleFrameScoresZero | fume_detect_extract_classify.py:34-80 | A video whose second read fails writes no masked frame and scores 0. |
| FumeAnalysis.StaticSceneMasksEverything | fume_detect_extract_classify.py:49-80 | When every read is the same frame, every later frame is written and is entirely black. |
| FumeAnalysis.BlackArtifactScoresZero | fume_detect_extract_classify.py:140-161 | A video of all-black frames scores 0, given a codec that keeps black frames black. |
| FumeAnalysis.StaticSceneScoresZero | fume_detect_extract_classify.py:163-174 | A static scene scores 0, given a codec that keeps black frames black. |

## Left out

- The `print` calls: the caught exception in both `except` branches (:79, :155) and the result (:158). They only write to the console.
- `rescale_frame`'s default `percent=75` (:6). Every call in the pipeline passes 100.
- Rescale.ScaledDim: uses exact integer division, where the source truncates a float quotient (:16-17). The two agree for every frame size a video can have.
- Video I/O (`cv2.VideoCapture`, `VideoWriter`, the output paths and the writer's frame size, `cap.release`). Frames come in as a sequence of reads and go out as a sequence of written frames.
- `cv2.cvtColor`, `cv2.GaussianBlur`, `INTER_AREA` interpolation and the MJPG codec. They are library numerics, modelled as functions that keep the geometry and are otherwise unconstrained.
- Floating-point rounding in the ratio and the final percentage. Exact reals are used.
- The `debug` display path (`imshow`, `waitKey` and its `break`) and the command-line entry point.
- `percent` values other than 100 are modelled by `RescaleFrame`, but a negative percentage is not: the parameter is a `nat`.
- An exception raised by the video writer or the codec. The written frames are assumed to be written and read back in full.
- FumeAnalysis.StaticSceneScoresZero: requires that the codec keep an all-black frame black, because the real MJPG round trip is lossy and is not modelled.
- The Flask handler `dockerized_flask_container/web/utils/classify.py` and the settings wrapper `dockerized_flask_container/web/utils/config.py`. They are request, database and file handling around `analyze_fumes`.
