/**
 * `bg_sub`: the first frame, smoothed and in grayscale, is the reference;
 * every later frame is compared with it and keeps only the pixels that
 * changed by more than the threshold.
 */
module BackgroundSubtraction {
  import opened Wrappers
  import opened Frames
  import opened Cv
  import opened Rescale

  /** Second argument of `cv2.threshold`. */
  const DiffThreshold: Byte := 20

  /** Third argument of `cv2.threshold`: the value of a changed mask entry. */
  const MaskOn: Byte := 255

  /** The first frame could not be read or resized, so the exception escapes `bg_sub`. */
  datatype Error = EmptyStream

  /** Grayscale conversion followed by the 5x5 Gaussian blur. */
  function Smoothed(lib: Library, f: Frame): (g: Plane)
    requires Valid(lib)
    ensures SameShape(g, f)
  {
    lib.blur(lib.gray(f))
  }

  /** A pixel changed when its smoothed intensity moved strictly more than the threshold. */
  predicate Changed(reference: Byte, current: Byte) {
    reference as int - current as int > DiffThreshold as int || current as int - reference as int > DiffThreshold as int
  }

  /**
   * The absolute difference of the two smoothed planes, binarised by a
   * strict threshold: a mask that is 255 exactly where the pixel changed.
   */
  function DiffMask(reference: Plane, current: Plane): (m: Plane)
    requires SameShape(reference, current)
    ensures SameShape(m, current)
    ensures forall i, j | InGrid(m, i, j) :: m[i][j] == 0 || m[i][j] == MaskOn
    ensures forall i, j | InGrid(m, i, j) :: m[i][j] == MaskOn <==> Changed(reference[i][j], current[i][j])
    ensures reference == current ==> forall i, j | InGrid(m, i, j) :: m[i][j] == 0
  {
    Threshold(AbsDiff(reference, current), DiffThreshold, MaskOn)
  }

  /**
   * One iteration of the loop body: rescale at 100 percent, smooth, mask
   * against the reference. `None` when `rescale_frame` raises (an empty
   * frame) or `cv2.absdiff` raises (the geometry differs from the reference).
   */
  function SubtractFrame(lib: Library, reference: Plane, f: Frame): (r: Option<Frame>)
    requires Valid(lib)
    ensures r.Some? <==> NonEmpty(f) && SameShape(f, reference)
    ensures r.Some? ==> SameShape(r.value, f)
    ensures r.Some? ==> forall i, j | InGrid(f, i, j) ::
      r.value[i][j] == (if Changed(reference[i][j], Smoothed(lib, f)[i][j]) then f[i][j] else Black)
  {
    RescaleFullSize(lib, f);
    match RescaleFrame(lib, f, FullSize)
    case None => None
    case Some(resized) =>
      var current := Smoothed(lib, resized);
      if !SameShape(reference, current) then None
      else
        var mask := DiffMask(reference, current);
        SelfMasking(resized, mask);
        Some(BitwiseAnd(resized, resized, mask))
  }

  /**
   * The loop over the remaining reads, for any per-read step: one output per
   * read, stopping at the first read that is missing or whose step fails.
   */
  function StepWhile(step: Frame -> Option<Frame>, stream: seq<Option<Frame>>): (out: seq<Frame>)
    ensures |out| <= |stream|
    ensures forall k | 0 <= k < |out| :: stream[k].Some? && step(stream[k].value) == Some(out[k])
    ensures |out| < |stream| ==> stream[|out|].None? || step(stream[|out|].value).None?
    decreases |stream|
  {
    if |stream| == 0 || stream[0].None? then []
    else match step(stream[0].value)
      case None => []
      case Some(masked) =>
        var rest := StepWhile(step, stream[1..]);
        assert forall k | 0 < k <= |rest| :: stream[k] == stream[1..][k - 1] && ([masked] + rest)[k] == rest[k - 1];
        [masked] + rest
  }

  /**
   * The loop of `bg_sub` over the remaining reads: one masked frame per read,
   * stopping at the first read that is missing or whose processing raises.
   */
  function SubtractFrom(lib: Library, reference: Plane, stream: seq<Option<Frame>>): (out: seq<Frame>)
    requires Valid(lib)
    ensures |out| <= |stream|
    ensures forall k | 0 <= k < |out| ::
      stream[k].Some? && SubtractFrame(lib, reference, stream[k].value) == Some(out[k])
    ensures |out| < |stream| ==> stream[|out|].None? || SubtractFrame(lib, reference, stream[|out|].value).None?
  {
    StepWhile(f => SubtractFrame(lib, reference, f), stream)
  }

  /** Whether the first read yields a usable reference frame. */
  predicate HasReference(stream: seq<Option<Frame>>) {
    |stream| > 0 && Readable(stream[0])
  }

  /**
   * `bg_sub`: the masked frames written to the artifact video, in order, or
   * `EmptyStream` when there is no usable first frame. Every masked frame is
   * a later read compared against the smoothed first frame.
   */
  function BgSub(lib: Library, stream: seq<Option<Frame>>): (r: Result<seq<Frame>, Error>)
    requires Valid(lib)
    ensures r.Failure? <==> !HasReference(stream)
    ensures r.Success? ==> |r.value| < |stream|
    ensures r.Success? ==> forall k | 0 <= k < |r.value| ::
      stream[k + 1].Some? && SubtractFrame(lib, Smoothed(lib, stream[0].value), stream[k + 1].value) == Some(r.value[k])
    ensures r.Success? && |r.value| + 1 < |stream| ==>
      var next := stream[|r.value| + 1];
      next.None? || SubtractFrame(lib, Smoothed(lib, stream[0].value), next.value).None?
  {
    if |stream| == 0 || stream[0].None? then Failure(EmptyStream)
    else
      RescaleFullSize(lib, stream[0].value);
      match RescaleFrame(lib, stream[0].value, FullSize)
      case None => Failure(EmptyStream)
      case Some(first) => Success(SubtractFrom(lib, Smoothed(lib, first), stream[1..]))
  }

  /**
   * The read loop of `bg_sub` as an imperative loop that leaves at the first
   * failure, as the source's `break`s do: the same masked frames as the fold.
   */
  method SubtractStream(lib: Library, reference: Plane, stream: seq<Option<Frame>>) returns (written: seq<Frame>)
    requires Valid(lib)
    ensures |written| <= |stream|
    ensures forall k | 0 <= k < |written| ::
      stream[k].Some? && SubtractFrame(lib, reference, stream[k].value) == Some(written[k])
    ensures |written| < |stream| ==> stream[|written|].None? || SubtractFrame(lib, reference, stream[|written|].value).None?
  {
    written := [];
    var i := 0;
    while i < |stream|
      invariant i == |written| <= |stream|
      invariant forall k | 0 <= k < i ::
        stream[k].Some? && SubtractFrame(lib, reference, stream[k].value) == Some(written[k])
    {
      if stream[i].None? {
        break;
      }
      var masked := SubtractFrame(lib, reference, stream[i].value);
      if masked.None? {
        break;
      }
      written := written + [masked.value];
      i := i + 1;
    }
  }
}
