/**
 * Images as the pipeline handles them: rectangular grids of uint8 values,
 * either three-channel colour frames or single-channel planes (grayscale
 * images, differences and masks), together with the counts of nonzero
 * elements that numpy's index search reports.
 */
module Frames {
  import opened Wrappers

  /** One uint8 channel value. */
  type Byte = b: int | 0 <= b < 256

  /** A colour pixel, channels in the order the decoder delivers them (B, G, R for OpenCV). */
  datatype Pixel = Pixel(c0: Byte, c1: Byte, c2: Byte)

  const Black: Pixel := Pixel(0, 0, 0)

  function Channel(p: Pixel, c: nat): Byte
    requires c < 3
  {
    if c == 0 then p.c0 else if c == 1 then p.c1 else p.c2
  }

  /** Every row is as long as the first one: the shape of a numpy image array. */
  predicate Rectangular<T>(g: seq<seq<T>>) {
    forall i | 0 <= i < |g| :: |g[i]| == |g[0]|
  }

  type Grid<T> = g: seq<seq<T>> | Rectangular(g) witness []

  /** A three-channel colour image. */
  type Frame = Grid<Pixel>

  /** A single-channel image: grayscale, absolute difference or mask. */
  type Plane = Grid<Byte>

  function Height<T>(g: Grid<T>): nat {
    |g|
  }

  function Width<T>(g: Grid<T>): nat {
    if |g| == 0 then 0 else |g[0]|
  }

  predicate InGrid<T>(g: Grid<T>, i: int, j: int) {
    0 <= i < Height(g) && 0 <= j < Width(g)
  }

  predicate SameShape<A, B>(a: Grid<A>, b: Grid<B>) {
    Height(a) == Height(b) && Width(a) == Width(b)
  }

  /** Neither dimension is zero. */
  predicate NonEmpty<T>(g: Grid<T>) {
    0 < Height(g) && 0 < Width(g)
  }

  /**
   * A read the loop bodies get through: a frame was decoded and neither of
   * its dimensions is zero, so `rescale_frame` accepts it.
   */
  predicate Readable(read: Option<Frame>) {
    read.Some? && NonEmpty(read.value)
  }

  predicate AllBlack(f: Frame) {
    forall i, j | 0 <= i < Height(f) && 0 <= j < Width(f) :: f[i][j] == Black
  }

  /** Number of elements of an image, row by row. */
  function Cells<T>(g: seq<seq<T>>): nat {
    if |g| == 0 then 0 else |g[0]| + Cells(g[1..])
  }

  /** Number of channels of `p` that are not zero. */
  function PixelNonZero(p: Pixel): nat {
    (if p.c0 != 0 then 1 else 0) + (if p.c1 != 0 then 1 else 0) + (if p.c2 != 0 then 1 else 0)
  }

  function RowEntries(row: seq<Pixel>): (n: nat)
    ensures n <= 3 * |row|
  {
    if |row| == 0 then 0 else PixelNonZero(row[0]) + RowEntries(row[1..])
  }

  /**
   * Number of nonzero channel entries of a colour image. numpy's index
   * search on a colour frame returns one index array per axis, each this long.
   */
  function NonZeroEntries(f: seq<seq<Pixel>>): (n: nat)
    ensures n <= 3 * Cells(f)
  {
    if |f| == 0 then 0 else RowEntries(f[0]) + NonZeroEntries(f[1..])
  }

  function RowNonZero(row: seq<Byte>): (n: nat)
    ensures n <= |row|
  {
    if |row| == 0 then 0 else (if row[0] != 0 then 1 else 0) + RowNonZero(row[1..])
  }

  /**
   * Number of nonzero entries of a plane. numpy's index search on a plane
   * returns one index array per axis, each this long.
   */
  function NonZeroCount(m: seq<seq<Byte>>): (n: nat)
    ensures n <= Cells(m)
  {
    if |m| == 0 then 0 else RowNonZero(m[0]) + NonZeroCount(m[1..])
  }

  lemma {:induction false} RowEntriesZero(row: seq<Pixel>)
    ensures RowEntries(row) == 0 <==> forall j | 0 <= j < |row| :: row[j] == Black
  {
    if |row| > 0 {
      RowEntriesZero(row[1..]);
      assert forall j | 1 <= j < |row| :: row[j] == row[1..][j - 1];
    }
  }

  lemma {:induction false} EntriesZero(f: seq<seq<Pixel>>)
    ensures NonZeroEntries(f) == 0 <==> forall i, j | 0 <= i < |f| && 0 <= j < |f[i]| :: f[i][j] == Black
  {
    if |f| > 0 {
      RowEntriesZero(f[0]);
      EntriesZero(f[1..]);
      assert forall i | 1 <= i < |f| :: f[i] == f[1..][i - 1];
    }
  }

  /** A frame has no nonzero channel entry exactly when every pixel is black. */
  lemma AllBlackIffNoEntries(f: Frame)
    ensures AllBlack(f) <==> NonZeroEntries(f) == 0
  {
    EntriesZero(f);
  }
}
