/**
 * `color_sub`: every frame is segmented with two colour bands, pixels
 * outside both bands are blacked out, and the share of in-band pixels is
 * accumulated into the toxicity percentage.
 */
module ColorClassification {
  import opened Wrappers
  import opened Frames
  import opened Cv
  import opened Rescale

  /** `lower_red` .. `upper_red`, compared with the channels as decoded. */
  const LowBand: Band := Band(Pixel(0, 50, 50), Pixel(60, 255, 255))

  /** `lower_red1` .. `upper_red1`, compared with the channels as decoded. */
  const HighBand: Band := Band(Pixel(160, 50, 50), Pixel(200, 255, 255))

  /** A pixel counted as toxic: it lies in one of the two bands. */
  predicate Toxic(p: Pixel) {
    InBand(p, LowBand) || InBand(p, HighBand)
  }

  /** The bands exclude each other on channel 0 ([0, 60] against [160, 200]): at most one mask fires per pixel. */
  lemma AtMostOneBandFires(f: Frame)
    ensures forall i, j | InGrid(f, i, j) :: InRange(f, LowBand)[i][j] == 0 || InRange(f, HighBand)[i][j] == 0
  {
    forall i, j | InGrid(f, i, j)
      ensures !(InBand(f[i][j], LowBand) && InBand(f[i][j], HighBand))
    {
      InBandChannels(f[i][j], LowBand);
      InBandChannels(f[i][j], HighBand);
    }
  }

  /** With no colour conversion the boxes admit grey pixels: a dark grey in the low box, a light grey in the high one. */
  lemma GreyPixelsAreToxic()
    ensures InBand(Pixel(50, 50, 50), LowBand) && Toxic(Pixel(50, 50, 50))
    ensures InBand(Pixel(180, 180, 180), HighBand) && Toxic(Pixel(180, 180, 180))
  {
    InBandChannels(Pixel(50, 50, 50), LowBand);
    InBandChannels(Pixel(180, 180, 180), HighBand);
  }

  /**
   * The sum of the two band masks, for any two bands: with both masks binary, the uint8 sum
   * is nonzero exactly where either band fires, even where both fire (255 + 255
   * wraps to 254).
   */
  function UnionMask(f: Frame, b0: Band, b1: Band): (m: Plane)
    ensures SameShape(m, f)
    ensures forall i, j | InGrid(m, i, j) :: m[i][j] != 0 <==> InBand(f[i][j], b0) || InBand(f[i][j], b1)
  {
    AddWrap(InRange(f, b0), InRange(f, b1))
  }

  function RowToxic(row: seq<Pixel>): nat {
    if |row| == 0 then 0 else (if Toxic(row[0]) then 1 else 0) + RowToxic(row[1..])
  }

  /** Number of toxic pixels of an image. */
  function ToxicCount(f: seq<seq<Pixel>>): nat {
    if |f| == 0 then 0 else RowToxic(f[0]) + ToxicCount(f[1..])
  }

  lemma {:induction false} RowMaskCount(m: seq<Byte>, f: seq<Pixel>)
    requires |m| == |f|
    requires forall j | 0 <= j < |m| :: m[j] != 0 <==> Toxic(f[j])
    ensures RowNonZero(m) == RowToxic(f)
  {
    if |m| > 0 {
      RowMaskCount(m[1..], f[1..]);
    }
  }

  /** A mask that is nonzero exactly on the toxic pixels has as many nonzero entries as there are toxic pixels. */
  lemma {:induction false} MaskCount(m: seq<seq<Byte>>, f: seq<seq<Pixel>>)
    requires |m| == |f|
    requires forall i | 0 <= i < |m| :: |m[i]| == |f[i]|
    requires forall i, j | 0 <= i < |m| && 0 <= j < |m[i]| :: m[i][j] != 0 <==> Toxic(f[i][j])
    ensures NonZeroCount(m) == ToxicCount(f)
  {
    if |m| > 0 {
      RowMaskCount(m[0], f[0]);
      MaskCount(m[1..], f[1..]);
    }
  }

  /** Both bands demand at least 50 in channels 1 and 2, so a toxic pixel has two nonzero channels or more. */
  lemma ToxicHasTwoEntries(p: Pixel)
    requires Toxic(p)
    ensures PixelNonZero(p) >= 2
  {
    InBandChannels(p, LowBand);
    InBandChannels(p, HighBand);
  }

  lemma {:induction false} RowToxicBound(row: seq<Pixel>)
    ensures 2 * RowToxic(row) <= RowEntries(row)
  {
    if |row| > 0 {
      if Toxic(row[0]) {
        ToxicHasTwoEntries(row[0]);
      }
      RowToxicBound(row[1..]);
    }
  }

  /** Twice the toxic pixels never exceed the nonzero channel entries. */
  lemma {:induction false} ToxicBound(f: seq<seq<Pixel>>)
    ensures 2 * ToxicCount(f) <= NonZeroEntries(f)
  {
    if |f| > 0 {
      RowToxicBound(f[0]);
      ToxicBound(f[1..]);
    }
  }

  lemma ScaleByPositive(q: real, y: real)
    requires 0.0 < y
    ensures q > 0.5 ==> q * y > 0.5 * y
    ensures q < 0.0 ==> q * y < 0.0
  {
  }

  lemma HalfBound(a: nat, b: nat)
    requires 0 < b && 2 * a <= b
    ensures 0.0 <= a as real / b as real <= 0.5
  {
    var x, y := a as real, b as real;
    var q := x / y;
    assert q * y == x;
    assert 0.0 <= x <= 0.5 * y;
    ScaleByPositive(q, y);
  }

  lemma DoublingCancels(a: nat, b: nat)
    requires 0 < b
    ensures (a + a) as real / (b + b) as real == a as real / b as real
  {
    var q := a as real / b as real;
    assert q * b as real == a as real;
    assert q * (b + b) as real == (a + a) as real;
  }

  /**
   * `output_img`: the frame copied, then blacked out wherever the union
   * mask is zero; it keeps a pixel exactly where the pixel is toxic.
   */
  function ToxicOnly(f: Frame): (out: Frame)
    ensures SameShape(out, f)
    ensures forall i, j | InGrid(f, i, j) :: out[i][j] == (if Toxic(f[i][j]) then f[i][j] else Black)
  {
    ZeroWhereMaskZero(f, UnionMask(f, LowBand, HighBand))
  }

  /** The union mask has one nonzero entry per toxic pixel. */
  lemma UnionCountsToxic(f: Frame)
    ensures NonZeroCount(UnionMask(f, LowBand, HighBand)) == ToxicCount(f)
  {
    var mask := UnionMask(f, LowBand, HighBand);
    forall i, j | 0 <= i < |mask| && 0 <= j < |mask[i]|
      ensures mask[i][j] != 0 <==> Toxic(f[i][j])
    {
      assert InGrid(mask, i, j);
    }
    MaskCount(mask, f);
  }

  /** The doubled counts of `color_sub` reduce to toxic pixels over nonzero entries. */
  lemma DoubledRatio(f: Frame)
    requires NonZeroEntries(f) > 0
    ensures var n := NonZeroCount(UnionMask(f, LowBand, HighBand));
      (n + n) as real / (NonZeroEntries(f) + NonZeroEntries(f)) as real
      == ToxicCount(f) as real / NonZeroEntries(f) as real
  {
    UnionCountsToxic(f);
    DoublingCancels(ToxicCount(f), NonZeroEntries(f));
  }

  /**
   * The frame's ratio of union pixels to nonzero channel entries, or `None`
   * where the division raises `ZeroDivisionError`. Both counts are doubled, which
   * cancels: the ratio is toxic pixels over nonzero channel entries, at most
   * 1/2, and it is missing exactly for an all-black frame.
   */
  function FrameRatio(f: Frame): (r: Option<real>)
    ensures r.None? <==> AllBlack(f)
    ensures r.Some? ==> NonZeroEntries(f) > 0 && r.value == ToxicCount(f) as real / NonZeroEntries(f) as real
    ensures r.Some? ==> 0.0 <= r.value <= 0.5
  {
    var mask := UnionMask(f, LowBand, HighBand);
    // numpy returns one index array per axis and two of them are added, so each count is taken twice
    var nonZeroPixels := NonZeroCount(mask) + NonZeroCount(mask);
    var totPixels := NonZeroEntries(f) + NonZeroEntries(f);
    AllBlackIffNoEntries(f);
    if totPixels == 0 then None
    else
      DoubledRatio(f);
      ToxicBound(f);
      HalfBound(ToxicCount(f), NonZeroEntries(f));
      Some(nonZeroPixels as real / totPixels as real)
  }

  /**
   * A frame whose only pixel is toxic has ratio 1/2, not 1: the pixel has
   * two nonzero channels, and every one of them is counted in the
   * denominator while the pixel is counted once in the numerator.
   */
  lemma SoleToxicPixelRatio()
    ensures FrameRatio([[Pixel(0, 100, 100)]]) == Some(0.5)
  {
    var f: Frame := [[Pixel(0, 100, 100)]];
    assert Toxic(f[0][0]);
    assert f[1..] == [] && f[0][1..] == [];
    assert ToxicCount(f) == 1;
    assert NonZeroEntries(f) == 2;
    assert !AllBlack(f);
  }

  /** The masked output frame and, unless the frame is all black, the frame's ratio. */
  datatype Classified = Classified(output: Frame, ratio: Option<real>)

  /** The loop body of `color_sub` for one frame. */
  function ClassifyFrame(f: Frame): Classified {
    Classified(ToxicOnly(f), FrameRatio(f))
  }

  type Positive = n: int | 0 < n witness 1

  /** `toxicity_percentage` and `no_of_frames`; the counter starts at 1 and only grows. */
  datatype Accumulator = Accumulator(sum: real, frames: Positive)

  /** The sum starts at 0 and the frame counter at 1. */
  const Start: Accumulator := Accumulator(0.0, 1)

  /** What one frame adds to the sum: its ratio, or nothing for an all-black frame. */
  function Contribution(c: Classified): real {
    if c.ratio.Some? then c.ratio.value else 0.0
  }

  /** The counter moves on every processed frame, whether or not its ratio was added. */
  function Absorb(acc: Accumulator, c: Classified): (r: Accumulator)
    ensures r.frames == acc.frames + 1
    ensures c.ratio.None? ==> r.sum == acc.sum
    ensures c.ratio.Some? ==> r.sum == acc.sum + c.ratio.value
  {
    Accumulator(acc.sum + Contribution(c), acc.frames + 1)
  }

  /** The running sum averaged over the counter, as a percentage. */
  function Finalize(acc: Accumulator): (percent: real)
    ensures percent * acc.frames as real == acc.sum * 100.0
  {
    acc.sum / acc.frames as real * 100.0
  }

  /** The frames read before the first failed read (or the end of the video). */
  function LeadingFrames(stream: seq<Option<Frame>>): (fs: seq<Frame>)
    ensures |fs| <= |stream|
    ensures forall k | 0 <= k < |fs| :: Readable(stream[k]) && stream[k].value == fs[k]
    ensures |fs| < |stream| ==> !Readable(stream[|fs|])
  {
    if |stream| == 0 || !Readable(stream[0]) then [] else [stream[0].value] + LeadingFrames(stream[1..])
  }

  /** Sum of the per-frame contributions, frame by frame. */
  function RatioSum(classify: Frame -> Classified, fs: seq<Frame>): real {
    if |fs| == 0 then 0.0 else Contribution(classify(fs[0])) + RatioSum(classify, fs[1..])
  }

  /** Every frame contributes at most 1/2, so the sum over a run of frames is at most half its length. */
  lemma {:induction false} RatioSumBound(fs: seq<Frame>)
    ensures 0.0 <= RatioSum(ClassifyFrame, fs) <= |fs| as real / 2.0
  {
    if |fs| > 0 {
      RatioSumBound(fs[1..]);
    }
  }

  /** All-black frames add nothing: every one of them hits the `ZeroDivisionError` branch. */
  lemma {:induction false} BlackFramesAddNothing(fs: seq<Frame>)
    requires forall k | 0 <= k < |fs| :: AllBlack(fs[k])
    ensures RatioSum(ClassifyFrame, fs) == 0.0
  {
    if |fs| > 0 {
      BlackFramesAddNothing(fs[1..]);
    }
  }

  /** The accumulator after the loop, and the output frames written to the artifact video. */
  datatype Outcome = Outcome(acc: Accumulator, written: seq<Frame>)

  /** The output frames for a run of frames, frame by frame. */
  function Outputs(classify: Frame -> Classified, fs: seq<Frame>): (outs: seq<Frame>)
    ensures |outs| == |fs|
  {
    if |fs| == 0 then [] else [classify(fs[0]).output] + Outputs(classify, fs[1..])
  }

  /**
   * The loop of `color_sub` from a given accumulator: every frame up to the
   * first failed read is classified, absorbed and written. The per-frame
   * classification is a parameter so that the fold can be reasoned about
   * apart from the pixel arithmetic; `ColorSub` passes `ClassifyFrame`.
   */
  function ClassifyFrom(lib: Library, classify: Frame -> Classified, acc: Accumulator, stream: seq<Option<Frame>>): (o: Outcome)
    requires Valid(lib)
    ensures |o.written| <= |stream|
    ensures o.acc.frames == acc.frames + |o.written|
    decreases |stream|
  {
    if |stream| == 0 || stream[0].None? then Outcome(acc, [])
    else
      RescaleFullSize(lib, stream[0].value);
      match RescaleFrame(lib, stream[0].value, FullSize)
      case None => Outcome(acc, [])
      case Some(_) =>
        var c := classify(stream[0].value);
        var rest := ClassifyFrom(lib, classify, Absorb(acc, c), stream[1..]);
        Outcome(rest.acc, [c.output] + rest.written)
  }

  /**
   * The fold agrees with the frame-by-frame definitions: the counter moves
   * once per frame read before the first failure, the sum grows by their
   * ratios, and their outputs are written in order.
   */
  lemma {:induction false} ClassifyFromFrames(lib: Library, classify: Frame -> Classified, acc: Accumulator, stream: seq<Option<Frame>>)
    requires Valid(lib)
    ensures var fs := LeadingFrames(stream);
      ClassifyFrom(lib, classify, acc, stream)
      == Outcome(Accumulator(acc.sum + RatioSum(classify, fs), acc.frames + |fs|), Outputs(classify, fs))
    decreases |stream|
  {
    if |stream| > 0 && stream[0].Some? {
      RescaleFullSize(lib, stream[0].value);
      if NonEmpty(stream[0].value) {
        var c := classify(stream[0].value);
        ClassifyFromFrames(lib, classify, Absorb(acc, c), stream[1..]);
        assert LeadingFrames(stream) == [stream[0].value] + LeadingFrames(stream[1..]);
      }
    }
  }

  /** One step of the loop: a failed read ends it, a good one is absorbed and written first. */
  lemma ClassifyFromStep(lib: Library, classify: Frame -> Classified, acc: Accumulator, stream: seq<Option<Frame>>)
    requires Valid(lib)
    requires |stream| > 0
    ensures !Readable(stream[0]) ==> ClassifyFrom(lib, classify, acc, stream) == Outcome(acc, [])
    ensures Readable(stream[0]) ==>
      var c := classify(stream[0].value);
      var rest := ClassifyFrom(lib, classify, Absorb(acc, c), stream[1..]);
      ClassifyFrom(lib, classify, acc, stream) == Outcome(rest.acc, [c.output] + rest.written)
  {
    if stream[0].Some? {
      RescaleFullSize(lib, stream[0].value);
    }
  }

  lemma AppendAssoc<T>(a: seq<T>, b: seq<T>, c: seq<T>)
    ensures (a + b) + c == a + (b + c)
  {
  }

  lemma PercentBound(s: real, n: nat)
    requires 0.0 <= s <= n as real / 2.0
    ensures 0.0 <= s / (n + 1) as real * 100.0 < 50.0
  {
    var d := (n + 1) as real;
    assert s < d / 2.0;
    assert s / d < 0.5 by {
      assert s / d * d == s;
    }
  }

  /** The percentage `color_sub` returns and the frames it writes. */
  datatype ColorSubResult = ColorSubResult(percent: real, written: seq<Frame>)

  /**
   * `color_sub`: the summed ratios over one more than the number of frames
   * processed, times 100; never negative, below 50 because every ratio is at
   * most 1/2, and 0 when no frame was processed.
   */
  function ColorSub(lib: Library, stream: seq<Option<Frame>>): (r: ColorSubResult)
    requires Valid(lib)
    ensures var fs := LeadingFrames(stream);
      r.percent == RatioSum(ClassifyFrame, fs) / (|fs| + 1) as real * 100.0
    ensures r.written == Outputs(ClassifyFrame, LeadingFrames(stream))
  {
    ColorSubWith(lib, ClassifyFrame, stream)
  }

  /** `color_sub` with the loop body's per-frame work passed in as `classify`. */
  function ColorSubWith(lib: Library, classify: Frame -> Classified, stream: seq<Option<Frame>>): (r: ColorSubResult)
    requires Valid(lib)
    ensures var fs := LeadingFrames(stream);
      r.percent == RatioSum(classify, fs) / (|fs| + 1) as real * 100.0
    ensures r.written == Outputs(classify, LeadingFrames(stream))
  {
    var outcome := ClassifyFrom(lib, classify, Start, stream);
    ClassifyFromFrames(lib, classify, Start, stream);
    ColorSubResult(Finalize(outcome.acc), outcome.written)
  }

  /**
   * The percentage is never negative and stays below 50, because every
   * frame's ratio is at most 1/2 while the counter is one ahead of the
   * frames; it is 0 when no frame was processed.
   */
  lemma ColorSubBounds(lib: Library, stream: seq<Option<Frame>>)
    requires Valid(lib)
    ensures 0.0 <= ColorSub(lib, stream).percent < 50.0
    ensures |LeadingFrames(stream)| == 0 ==> ColorSub(lib, stream).percent == 0.0
  {
    var fs := LeadingFrames(stream);
    RatioSumBound(fs);
    PercentBound(RatioSum(ClassifyFrame, fs), |fs|);
  }

  /**
   * The read loop of `color_sub` as an imperative loop, mutating the running sum and
   * counter and breaking on the first failed read, with the loop body's
   * per-frame work passed in as `classify`: it ends in the state the fold
   * describes, so with `ClassifyFrame` it returns what `ColorSub` returns.
   */
  method ClassifyStream(lib: Library, classify: Frame -> Classified, stream: seq<Option<Frame>>)
    returns (percent: real, written: seq<Frame>)
    requires Valid(lib)
    ensures var outcome := ClassifyFrom(lib, classify, Start, stream);
      percent == Finalize(outcome.acc) && written == outcome.written
  {
    var toxicity := 0.0;
    var frames: Positive := 1;
    written := [];
    var i := 0;
    ghost var total := ClassifyFrom(lib, classify, Start, stream);
    while i < |stream|
      invariant 0 <= i <= |stream|
      invariant ClassifyFrom(lib, classify, Accumulator(toxicity, frames), stream[i..]).acc == total.acc
      invariant written + ClassifyFrom(lib, classify, Accumulator(toxicity, frames), stream[i..]).written == total.written
    {
      ghost var before := Accumulator(toxicity, frames);
      ghost var writtenBefore := written;
      ClassifyFromStep(lib, classify, before, stream[i..]);
      if stream[i].None? || !NonEmpty(stream[i].value) {
        break;
      }
      var c := classify(stream[i].value);
      if c.ratio.Some? {
        toxicity := toxicity + c.ratio.value;
      }
      frames := frames + 1;
      written := written + [c.output];
      assert stream[i..][1..] == stream[i + 1..];
      assert Accumulator(toxicity, frames) == Absorb(before, c);
      AppendAssoc(writtenBefore, [c.output], ClassifyFrom(lib, classify, Absorb(before, c), stream[i + 1..]).written);
      i := i + 1;
    }
    assert ClassifyFrom(lib, classify, Accumulator(toxicity, frames), stream[i..]) == Outcome(Accumulator(toxicity, frames), []);
    percent := toxicity / frames as real * 100.0;
  }
}
