/**
 * `analyze_fumes`: background subtraction writes the masked video, colour
 * classification reads it back and returns the toxicity percentage.
 */
module FumeAnalysis {
  import opened Wrappers
  import opened Frames
  import opened Cv
  import opened BackgroundSubtraction
  import opened ColorClassification

  /** The masked video as `color_sub` reads it: every written frame after the codec round trip. */
  function Reread(lib: Library, masked: seq<Frame>): (frames: seq<Frame>)
    ensures |frames| == |masked|
    ensures forall k | 0 <= k < |masked| :: frames[k] == lib.codec(masked[k])
  {
    if |masked| == 0 then [] else [lib.codec(masked[0])] + Reread(lib, masked[1..])
  }

  /** The reads of the artifact video; reading past its last frame fails and ends the loop. */
  function ArtifactReads(lib: Library, masked: seq<Frame>): seq<Option<Frame>> {
    seq(|masked|, k requires 0 <= k < |masked| => Some(lib.codec(masked[k])))
  }

  /**
   * `analyze_fumes`: `EmptyStream` exactly when the first frame is missing
   * or empty; otherwise a percentage in [0, 50).
   */
  function AnalyzeFumes(lib: Library, stream: seq<Option<Frame>>): (r: Result<real, Error>)
    requires Valid(lib)
    ensures r.Failure? <==> !HasReference(stream)
    ensures r.Success? ==> 0.0 <= r.value < 50.0
  {
    match BgSub(lib, stream)
    case Failure(e) => Failure(e)
    case Success(masked) => Success(ArtifactPercent(lib, masked))
  }

  /** The percentage colour classification reports for the masked video written as `masked`. */
  function ArtifactPercent(lib: Library, masked: seq<Frame>): (percent: real)
    requires Valid(lib)
    ensures 0.0 <= percent < 50.0
  {
    ColorSubBounds(lib, ArtifactReads(lib, masked));
    ColorSub(lib, ArtifactReads(lib, masked)).percent
  }

  /** Every masked frame has the geometry of a non-empty input frame. */
  lemma MaskedFramesNonEmpty(lib: Library, stream: seq<Option<Frame>>)
    requires Valid(lib)
    requires BgSub(lib, stream).Success?
    ensures forall k | 0 <= k < |BgSub(lib, stream).value| :: NonEmpty(BgSub(lib, stream).value[k])
  {
  }

  /** Reading the artifact back yields every written frame, as long as none of them is empty. */
  lemma ArtifactFullyRead(lib: Library, masked: seq<Frame>)
    requires Valid(lib)
    requires forall k | 0 <= k < |masked| :: NonEmpty(masked[k])
    ensures LeadingFrames(ArtifactReads(lib, masked)) == Reread(lib, masked)
  {
    var artifact := ArtifactReads(lib, masked);
    assert forall k | 0 <= k < |artifact| :: Readable(artifact[k]);
  }

  /** Colour classification of a fully readable artifact averages over all of its frames. */
  lemma ArtifactScore(lib: Library, masked: seq<Frame>)
    requires Valid(lib)
    requires forall k | 0 <= k < |masked| :: NonEmpty(masked[k])
    ensures ArtifactPercent(lib, masked)
      == RatioSum(ClassifyFrame, Reread(lib, masked)) / (|masked| + 1) as real * 100.0
  {
    ArtifactFullyRead(lib, masked);
  }

  /**
   * Classification processes every frame background subtraction wrote: the
   * artifact reads back as exactly the masked frames after the codec, and
   * `analyze_fumes` returns the percentage computed over it.
   */
  lemma EveryMaskedFrameIsClassified(lib: Library, stream: seq<Option<Frame>>)
    requires Valid(lib)
    requires HasReference(stream)
    ensures var masked := BgSub(lib, stream).value;
      && LeadingFrames(ArtifactReads(lib, masked)) == Reread(lib, masked)
      && AnalyzeFumes(lib, stream) == Success(ArtifactPercent(lib, masked))
  {
    MaskedFramesNonEmpty(lib, stream);
    ArtifactFullyRead(lib, BgSub(lib, stream).value);
  }

  /** A video with a usable first frame and no second one scores 0: no frame is masked. */
  lemma SingleFrameScoresZero(lib: Library, stream: seq<Option<Frame>>)
    requires Valid(lib)
    requires HasReference(stream)
    requires |stream| == 1 || stream[1].None?
    ensures BgSub(lib, stream) == Success([])
    ensures AnalyzeFumes(lib, stream) == Success(0.0)
  {
    EveryMaskedFrameIsClassified(lib, stream);
  }

  /** With no motion (every read is the same non-empty frame) every later frame is masked out entirely. */
  lemma StaticSceneMasksEverything(lib: Library, f: Frame, stream: seq<Option<Frame>>)
    requires Valid(lib)
    requires NonEmpty(f)
    requires 0 < |stream| && forall k | 0 <= k < |stream| :: stream[k] == Some(f)
    ensures BgSub(lib, stream).Success? && |BgSub(lib, stream).value| == |stream| - 1
    ensures forall k | 0 <= k < |BgSub(lib, stream).value| :: AllBlack(BgSub(lib, stream).value[k])
  {
    var masked := BgSub(lib, stream).value;
    var reference := Smoothed(lib, f);
    assert SubtractFrame(lib, reference, f).Some?;
    forall k | 0 <= k < |masked|
      ensures AllBlack(masked[k])
    {
      assert SubtractFrame(lib, reference, f) == Some(masked[k]);
    }
  }

  lemma ZeroOverAnything(s: real, d: real)
    requires s == 0.0 && d > 0.0
    ensures s / d * 100.0 == 0.0
  {
  }

  /** An artifact of all-black frames scores 0, given a codec that keeps an all-black frame black. */
  lemma BlackArtifactScoresZero(lib: Library, masked: seq<Frame>)
    requires Valid(lib)
    requires forall g: Frame :: AllBlack(g) ==> AllBlack(lib.codec(g))
    requires forall k | 0 <= k < |masked| :: NonEmpty(masked[k]) && AllBlack(masked[k])
    ensures ArtifactPercent(lib, masked) == 0.0
  {
    var frames := Reread(lib, masked);
    forall k | 0 <= k < |frames|
      ensures AllBlack(frames[k])
    {
      assert frames[k] == lib.codec(masked[k]);
    }
    BlackFramesAddNothing(frames);
    ArtifactScore(lib, masked);
    ZeroOverAnything(RatioSum(ClassifyFrame, frames), (|masked| + 1) as real);
  }

  /** A static scene scores 0, given a codec that keeps an all-black frame black. */
  lemma StaticSceneScoresZero(lib: Library, f: Frame, stream: seq<Option<Frame>>)
    requires Valid(lib)
    requires forall g: Frame :: AllBlack(g) ==> AllBlack(lib.codec(g))
    requires NonEmpty(f)
    requires 0 < |stream| && forall k | 0 <= k < |stream| :: stream[k] == Some(f)
    ensures AnalyzeFumes(lib, stream) == Success(0.0)
  {
    StaticSceneMasksEverything(lib, f, stream);
    MaskedFramesNonEmpty(lib, stream);
    BlackArtifactScoresZero(lib, BgSub(lib, stream).value);
  }
}
