/**
 * The OpenCV and numpy primitives the pipeline applies element by element,
 * and the library numerics it calls without their arithmetic being modelled.
 */
module Cv {
  import opened Frames

  /**
   * Library numerics whose arithmetic is not modelled: `cv2.cvtColor` to
   * grayscale, the 5x5 `cv2.GaussianBlur`, `cv2.resize` with area
   * interpolation to a given (width, height), and the motion-JPEG round trip
   * a frame goes through when it is written to an artifact video and read back.
   */
  datatype Library = Library(
    gray: Frame -> Plane,
    blur: Plane -> Plane,
    resize: (Frame, nat, nat) -> Frame,
    codec: Frame -> Frame)

  /**
   * What the model relies on about the library: every operation keeps the
   * geometry (resize produces the requested one), and resizing to the size a
   * frame already has copies the frame, as `cv2.resize` does.
   */
  ghost predicate Valid(lib: Library) {
    && (forall f: Frame :: SameShape(lib.gray(f), f))
    && (forall g: Plane :: SameShape(lib.blur(g), g))
    && (forall f: Frame, w: nat, h: nat | 0 < w && 0 < h ::
          Width(lib.resize(f, w, h)) == w && Height(lib.resize(f, w, h)) == h)
    && (forall f: Frame | NonEmpty(f) :: lib.resize(f, Width(f), Height(f)) == f)
    && (forall f: Frame :: SameShape(lib.codec(f), f))
  }

  /** `cv2.absdiff` of two uint8 values; the exact difference always fits a byte. */
  function Dist(a: Byte, b: Byte): Byte {
    if a >= b then a - b else b - a
  }

  /** `cv2.absdiff` of two planes of one shape. */
  function AbsDiff(a: Plane, b: Plane): (d: Plane)
    requires SameShape(a, b)
    ensures SameShape(d, a)
    ensures forall i, j | InGrid(d, i, j) :: d[i][j] == 0 <==> a[i][j] == b[i][j]
    ensures forall i, j | InGrid(d, i, j) ::
      d[i][j] as int == a[i][j] as int - b[i][j] as int || d[i][j] as int == b[i][j] as int - a[i][j] as int
  {
    seq(Height(a), i requires 0 <= i < Height(a) =>
      seq(Width(a), j requires 0 <= j < Width(a) => Dist(a[i][j], b[i][j])))
  }

  /** OpenCV's binary threshold: `maxval` where the source is strictly above `thresh`, 0 elsewhere. */
  function Threshold(src: Plane, thresh: Byte, maxval: Byte): (t: Plane)
    ensures SameShape(t, src)
    ensures forall i, j | InGrid(t, i, j) :: t[i][j] == 0 || t[i][j] == maxval
    ensures forall i, j | InGrid(t, i, j) :: src[i][j] > thresh ==> t[i][j] == maxval
    ensures forall i, j | InGrid(t, i, j) :: src[i][j] <= thresh ==> t[i][j] == 0
  {
    seq(Height(src), i requires 0 <= i < Height(src) =>
      seq(Width(src), j requires 0 <= j < Width(src) => if src[i][j] > thresh then maxval else 0))
  }

  /** Bitwise AND of two non-negative integers, one bit at a time from the lowest. */
  function BitAnd(x: nat, y: nat): (r: nat)
    ensures r <= x && r <= y
    decreases x
  {
    if x == 0 || y == 0 then 0
    else 2 * BitAnd(x / 2, y / 2) + (if x % 2 == 1 && y % 2 == 1 then 1 else 0)
  }

  /** AND-ing a value with itself gives the value back. */
  lemma {:induction false} BitAndSelf(x: nat)
    ensures BitAnd(x, x) == x
    decreases x
  {
    if x != 0 {
      BitAndSelf(x / 2);
    }
  }

  function AndPixel(p: Pixel, q: Pixel): Pixel {
    Pixel(BitAnd(p.c0, q.c0), BitAnd(p.c1, q.c1), BitAnd(p.c2, q.c2))
  }

  /**
   * OpenCV's masked `bitwise_and`: the channel-wise AND of `a` and `b`
   * where the mask is nonzero; the freshly allocated output stays zero elsewhere.
   */
  function BitwiseAnd(a: Frame, b: Frame, mask: Plane): (r: Frame)
    requires SameShape(a, b) && SameShape(a, mask)
    ensures SameShape(r, a)
    ensures forall i, j | InGrid(r, i, j) :: mask[i][j] == 0 ==> r[i][j] == Black
    ensures forall i, j, c | InGrid(r, i, j) && 0 <= c < 3 ::
      Channel(r[i][j], c) <= Channel(a[i][j], c) && Channel(r[i][j], c) <= Channel(b[i][j], c)
  {
    seq(Height(a), i requires 0 <= i < Height(a) =>
      seq(Width(a), j requires 0 <= j < Width(a) => if mask[i][j] != 0 then AndPixel(a[i][j], b[i][j]) else Black))
  }

  /**
   * Masking a frame with itself keeps each pixel where the mask is nonzero
   * and blacks out every other one.
   */
  lemma SelfMasking(f: Frame, mask: Plane)
    requires SameShape(f, mask)
    ensures forall i, j | InGrid(f, i, j) ::
      BitwiseAnd(f, f, mask)[i][j] == (if mask[i][j] != 0 then f[i][j] else Black)
  {
    forall i, j | InGrid(f, i, j)
      ensures BitwiseAnd(f, f, mask)[i][j] == (if mask[i][j] != 0 then f[i][j] else Black)
    {
      BitAndSelf(f[i][j].c0);
      BitAndSelf(f[i][j].c1);
      BitAndSelf(f[i][j].c2);
    }
  }

  /** The inclusive per-channel bounds of one `cv2.inRange` call. */
  datatype Band = Band(lower: Pixel, upper: Pixel)

  predicate InBand(p: Pixel, band: Band) {
    forall c | 0 <= c < 3 :: Channel(band.lower, c) <= Channel(p, c) <= Channel(band.upper, c)
  }

  /** The three per-channel comparisons `InBand` quantifies over, written out. */
  lemma InBandChannels(p: Pixel, band: Band)
    ensures InBand(p, band) <==>
      && band.lower.c0 <= p.c0 <= band.upper.c0
      && band.lower.c1 <= p.c1 <= band.upper.c1
      && band.lower.c2 <= p.c2 <= band.upper.c2
  {
    assert Channel(p, 0) == p.c0 && Channel(p, 1) == p.c1 && Channel(p, 2) == p.c2;
    assert Channel(band.lower, 0) == band.lower.c0 && Channel(band.upper, 0) == band.upper.c0;
  }

  /** One element of `cv2.inRange`: 255 inside the band, 0 outside. */
  function InRangeValue(p: Pixel, band: Band): (v: Byte)
    ensures v == 255 <==> InBand(p, band)
    ensures v == 0 <==> !InBand(p, band)
  {
    InBandChannels(p, band);
    if && band.lower.c0 <= p.c0 <= band.upper.c0
       && band.lower.c1 <= p.c1 <= band.upper.c1
       && band.lower.c2 <= p.c2 <= band.upper.c2
    then 255 else 0
  }

  /**
   * OpenCV's `inRange` on the channels exactly as decoded:
   * 255 where every channel lies within its bounds, 0 elsewhere.
   */
  function InRange(f: Frame, band: Band): (m: Plane)
    ensures SameShape(m, f)
    ensures forall i, j | InGrid(m, i, j) ::
      (m[i][j] == 255 <==> InBand(f[i][j], band)) && (m[i][j] == 0 <==> !InBand(f[i][j], band))
  {
    seq(Height(f), i requires 0 <= i < Height(f) =>
      seq(Width(f), j requires 0 <= j < Width(f) => InRangeValue(f[i][j], band)))
  }

  function WrapByte(x: int): Byte {
    x % 256
  }

  /** numpy addition of two uint8 arrays: the sum wraps modulo 256. */
  function AddWrap(a: Plane, b: Plane): (s: Plane)
    requires SameShape(a, b)
    ensures SameShape(s, a)
    ensures forall i, j | InGrid(s, i, j) ::
      var sum := a[i][j] as int + b[i][j] as int;
      s[i][j] as int == (if sum < 256 then sum else sum - 256)
  {
    seq(Height(a), i requires 0 <= i < Height(a) =>
      seq(Width(a), j requires 0 <= j < Width(a) => WrapByte(a[i][j] as int + b[i][j] as int)))
  }

  /** A copy of the frame with every channel set to zero wherever the mask is zero. */
  function ZeroWhereMaskZero(f: Frame, mask: Plane): (out: Frame)
    requires SameShape(f, mask)
    ensures SameShape(out, f)
    ensures forall i, j | InGrid(out, i, j) :: mask[i][j] == 0 ==> out[i][j] == Black
    ensures forall i, j | InGrid(out, i, j) :: mask[i][j] != 0 ==> out[i][j] == f[i][j]
  {
    seq(Height(f), i requires 0 <= i < Height(f) =>
      seq(Width(f), j requires 0 <= j < Width(f) => if mask[i][j] == 0 then Black else f[i][j]))
  }
}
