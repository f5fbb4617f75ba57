/** `rescale_frame`: resizing a frame to a percentage of its size. */
module Rescale {
  import opened Wrappers
  import opened Frames
  import opened Cv

  /** The only percentage the pipeline passes. */
  const FullSize: nat := 100

  /**
   * The scaled dimension, truncated to an integer; both operands are
   * non-negative, so truncation is the floor.
   */
  function ScaledDim(n: nat, percent: nat): (d: nat)
    ensures d * 100 <= n * percent < (d + 1) * 100
  {
    n * percent / 100
  }

  /**
   * `rescale_frame(frame, percent)`: `cv2.resize` to the scaled width and
   * height. `cv2.resize` raises when either requested dimension is zero
   * (which includes every empty frame); that is the `None` case.
   */
  function RescaleFrame(lib: Library, f: Frame, percent: nat): (r: Option<Frame>)
    requires Valid(lib)
    ensures r.Some? <==> 0 < ScaledDim(Width(f), percent) && 0 < ScaledDim(Height(f), percent)
    ensures r.Some? ==> Width(r.value) * 100 <= Width(f) * percent < (Width(r.value) + 1) * 100
    ensures r.Some? ==> Height(r.value) * 100 <= Height(f) * percent < (Height(r.value) + 1) * 100
  {
    var w := ScaledDim(Width(f), percent);
    var h := ScaledDim(Height(f), percent);
    if w == 0 || h == 0 then None else Some(lib.resize(f, w, h))
  }

  /**
   * At 100 percent the geometry is unchanged and the frame itself comes back;
   * only an empty frame makes the call fail.
   */
  lemma RescaleFullSize(lib: Library, f: Frame)
    requires Valid(lib)
    ensures RescaleFrame(lib, f, FullSize) == (if NonEmpty(f) then Some(f) else None)
  {
    assert ScaledDim(Width(f), FullSize) == Width(f);
    assert ScaledDim(Height(f), FullSize) == Height(f);
  }
}
