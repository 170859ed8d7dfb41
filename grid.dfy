/** The pixel grid as a value (`vector<vector<Pixel>>`, row-major) and the
    whole-grid meaning of every filter. The in-place methods in module
    Filters are proved against these functions. */
module Grids {
  import opened Pixels

  /** `image[i][j]` is the pixel in row `i`, column `j`. */
  type Grid = seq<seq<Pixel>>

  /** The width the neighbourhood filters read off the first row. */
  function Width(g: Grid): nat {
    if g == [] then 0 else |g[0]|
  }

  /** Every row has the same width. */
  predicate Rectangular(g: Grid) {
    forall i :: 0 <= i < |g| ==> |g[i]| == Width(g)
  }

  /** Every row has `width` pixels. */
  predicate RowsOfWidth(g: Grid, width: nat) {
    forall i :: 0 <= i < |g| ==> |g[i]| == width
  }

  /** Same number of rows, and every row the same length as before. */
  predicate SameShape(g: Grid, h: Grid) {
    |g| == |h| && forall i :: 0 <= i < |g| ==> |g[i]| == |h[i]|
  }

  lemma SameShapeRectangular(g: Grid, h: Grid)
    requires SameShape(g, h) && Rectangular(g)
    ensures Rectangular(h) && Width(h) == Width(g)
  {
  }

  /** Rows `s <= i < e` have every pixel rewritten by the point rule `f`; all other
      rows are left as they are. */
  function MapRows(g: Grid, s: int, e: int, f: Pixel -> Pixel): (r: Grid)
    ensures SameShape(g, r)
    ensures forall i :: 0 <= i < |g| && !(s <= i < e) ==> r[i] == g[i]
    ensures forall i, j :: 0 <= i < |g| && s <= i < e && 0 <= j < |g[i]| ==> r[i][j] == f(g[i][j])
  {
    seq(|g|, i requires 0 <= i < |g| =>
      if s <= i < e then seq(|g[i]|, j requires 0 <= j < |g[i]| => f(g[i][j])) else g[i])
  }

  /** A point filter over the whole grid. */
  function MapPixels(g: Grid, f: Pixel -> Pixel): (r: Grid)
    ensures SameShape(g, r)
    ensures forall i, j :: 0 <= i < |g| && 0 <= j < |g[i]| ==> r[i][j] == f(g[i][j])
  {
    MapRows(g, 0, |g|, f)
  }

  /** Applying a point rule to `[a, b)` and then to `[b, c)` is applying it to `[a, c)`. */
  lemma MapRowsAdjacent(g: Grid, a: int, b: int, c: int, f: Pixel -> Pixel)
    requires a <= b <= c
    ensures MapRows(MapRows(g, a, b, f), b, c, f) == MapRows(g, a, c, f)
  {
    var left, right := MapRows(MapRows(g, a, b, f), b, c, f), MapRows(g, a, c, f);
    forall i | 0 <= i < |g| ensures left[i] == right[i] {
      if a <= i < c {
        assert |left[i]| == |right[i]|;
        forall j | 0 <= j < |g[i]| ensures left[i][j] == right[i][j] {
        }
      }
    }
  }

  /** Passes over disjoint row ranges commute, whatever point rules they apply:
      swapping the passes of two workers does not change the result. */
  lemma MapRowsDisjointCommute(g: Grid, a: int, b: int, f: Pixel -> Pixel,
                               c: int, d: int, f': Pixel -> Pixel)
    requires b <= c || d <= a
    ensures MapRows(MapRows(g, a, b, f), c, d, f') == MapRows(MapRows(g, c, d, f'), a, b, f)
  {
    var left, right := MapRows(MapRows(g, a, b, f), c, d, f'), MapRows(MapRows(g, c, d, f'), a, b, f);
    forall i | 0 <= i < |g| ensures left[i] == right[i] {
      if a <= i < b || c <= i < d {
        assert |left[i]| == |right[i]|;
        forall j | 0 <= j < |g[i]| ensures left[i][j] == right[i][j] {
        }
      }
    }
  }

  /** Re-applying grayscale over the same range changes nothing. */
  lemma GrayscaleRowsIdempotent(g: Grid, s: int, e: int)
    ensures MapRows(MapRows(g, s, e, GrayscalePixel), s, e, GrayscalePixel) == MapRows(g, s, e, GrayscalePixel)
  {
    var once := MapRows(g, s, e, GrayscalePixel);
    var twice := MapRows(once, s, e, GrayscalePixel);
    forall i | 0 <= i < |g| ensures twice[i] == once[i] {
      if s <= i < e {
        assert |twice[i]| == |once[i]|;
        forall j | 0 <= j < |g[i]| ensures twice[i][j] == once[i][j] {
          GrayscalePixelIdempotent(g[i][j]);
        }
      }
    }
  }

  /** Invert applied twice returns the original grid exactly. */
  lemma InvertInvolutive(g: Grid)
    ensures MapPixels(MapPixels(g, InvertPixel), InvertPixel) == g
  {
    var twice := MapPixels(MapPixels(g, InvertPixel), InvertPixel);
    forall i | 0 <= i < |g| ensures twice[i] == g[i] {
      assert |twice[i]| == |g[i]|;
      forall j | 0 <= j < |g[i]| ensures twice[i][j] == g[i][j] {
        InvertPixelInvolutive(g[i][j]);
      }
    }
  }

  /** Neither row 0, nor row `height - 1`, nor column 0, nor column `width - 1`. */
  predicate Interior(g: Grid, i: int, j: int) {
    1 <= i < |g| - 1 && 1 <= j < Width(g) - 1
  }

  /** Sum of channel `ch` over the 3x3 neighbourhood of an interior pixel. */
  function NeighbourhoodSum(g: Grid, i: int, j: int, ch: nat): (s: int)
    requires Rectangular(g) && Interior(g, i, j) && ch < 3
    ensures 0 <= s <= 9 * 255
  {
    ChannelOf(g[i - 1][j - 1], ch) + ChannelOf(g[i - 1][j], ch) + ChannelOf(g[i - 1][j + 1], ch) +
    ChannelOf(g[i][j - 1], ch) + ChannelOf(g[i][j], ch) + ChannelOf(g[i][j + 1], ch) +
    ChannelOf(g[i + 1][j - 1], ch) + ChannelOf(g[i + 1][j], ch) + ChannelOf(g[i + 1][j + 1], ch)
  }

  /** The box average written into an interior pixel: each channel is the
      neighbourhood sum divided by 9, rounded down. */
  function BlurPixel(g: Grid, i: int, j: int): (q: Pixel)
    requires Rectangular(g) && Interior(g, i, j)
    ensures forall ch :: 0 <= ch < 3 ==>
              9 * ChannelOf(q, ch) <= NeighbourhoodSum(g, i, j, ch) < 9 * ChannelOf(q, ch) + 9
  {
    Pixel(NeighbourhoodSum(g, i, j, 0) / 9, NeighbourhoodSum(g, i, j, 1) / 9, NeighbourhoodSum(g, i, j, 2) / 9)
  }

  /** `5*c - up - down - left - right` for channel `ch` of an interior pixel, as an `int`:
      it can leave the byte range on both sides. */
  function SharpenSum(g: Grid, i: int, j: int, ch: nat): (s: int)
    requires Rectangular(g) && Interior(g, i, j) && ch < 3
    ensures -4 * 255 <= s <= 5 * 255
  {
    5 * ChannelOf(g[i][j], ch) - ChannelOf(g[i - 1][j], ch) - ChannelOf(g[i + 1][j], ch)
      - ChannelOf(g[i][j - 1], ch) - ChannelOf(g[i][j + 1], ch)
  }

  /** The sharpened channel: the kernel sum when it is a byte, 0 below, 255 above. */
  function SharpenChannel(g: Grid, i: int, j: int, ch: nat): (v: Byte)
    requires Rectangular(g) && Interior(g, i, j) && ch < 3
    ensures 0 <= SharpenSum(g, i, j, ch) <= 255 ==> v == SharpenSum(g, i, j, ch)
    ensures SharpenSum(g, i, j, ch) < 0 ==> v == 0
    ensures 255 < SharpenSum(g, i, j, ch) ==> v == 255
  {
    Clamp(SharpenSum(g, i, j, ch))
  }

  /** The sharpened pixel, channel by channel in record order. */
  function SharpenPixel(g: Grid, i: int, j: int): (q: Pixel)
    requires Rectangular(g) && Interior(g, i, j)
    ensures forall ch :: 0 <= ch < 3 ==> ChannelOf(q, ch) == SharpenChannel(g, i, j, ch)
  {
    Pixel(SharpenChannel(g, i, j, 0), SharpenChannel(g, i, j, 1), SharpenChannel(g, i, j, 2))
  }

  /** Blur of the whole grid: every interior pixel becomes the box average of its
      neighbourhood in the input; every border pixel is left exactly as it was. */
  function Blur(g: Grid): (r: Grid)
    requires Rectangular(g)
    ensures SameShape(g, r)
    ensures forall i, j :: 0 <= i < |g| && 0 <= j < |g[i]| && !Interior(g, i, j) ==> r[i][j] == g[i][j]
    ensures forall i, j :: 0 <= i < |g| && 0 <= j < |g[i]| && Interior(g, i, j) ==> r[i][j] == BlurPixel(g, i, j)
  {
    seq(|g|, i requires 0 <= i < |g| => seq(|g[i]|, j requires 0 <= j < |g[i]| =>
      if Interior(g, i, j) then BlurPixel(g, i, j) else g[i][j]))
  }

  /** Sharpen of the whole grid: interior pixels from the cross-shaped kernel over the
      input, border pixels unchanged. */
  function Sharpen(g: Grid): (r: Grid)
    requires Rectangular(g)
    ensures SameShape(g, r)
    ensures forall i, j :: 0 <= i < |g| && 0 <= j < |g[i]| && !Interior(g, i, j) ==> r[i][j] == g[i][j]
    ensures forall i, j :: 0 <= i < |g| && 0 <= j < |g[i]| && Interior(g, i, j) ==> r[i][j] == SharpenPixel(g, i, j)
  {
    seq(|g|, i requires 0 <= i < |g| => seq(|g[i]|, j requires 0 <= j < |g[i]| =>
      if Interior(g, i, j) then SharpenPixel(g, i, j) else g[i][j]))
  }

  /** Every pixel equal to `p`. */
  predicate Uniform(g: Grid, p: Pixel) {
    forall i, j :: 0 <= i < |g| && 0 <= j < |g[i]| ==> g[i][j] == p
  }

  /** A blurred channel lies between the smallest and the largest value of that channel
      in the neighbourhood. */
  lemma BlurWithinNeighbourhood(g: Grid, i: int, j: int, ch: nat, lo: int, hi: int)
    requires Rectangular(g) && Interior(g, i, j) && ch < 3
    requires forall a, b :: i - 1 <= a <= i + 1 && j - 1 <= b <= j + 1 ==> lo <= ChannelOf(g[a][b], ch) <= hi
    ensures lo <= ChannelOf(BlurPixel(g, i, j), ch) <= hi
  {
    var s := NeighbourhoodSum(g, i, j, ch);
    assert 9 * lo <= s <= 9 * hi;
  }

  /** The neighbourhood rules map a flat 3x3 patch of colour `p` to `p`. */
  lemma FlatNeighbourhood(g: Grid, i: int, j: int, p: Pixel)
    requires Rectangular(g) && Interior(g, i, j)
    requires forall a, b :: i - 1 <= a <= i + 1 && j - 1 <= b <= j + 1 ==> g[a][b] == p
    ensures BlurPixel(g, i, j) == p && SharpenPixel(g, i, j) == p
  {
    forall ch | 0 <= ch < 3
      ensures NeighbourhoodSum(g, i, j, ch) == 9 * ChannelOf(p, ch)
      ensures SharpenChannel(g, i, j, ch) == ChannelOf(p, ch)
    {
    }
  }

  /** Blur and Sharpen both leave a uniform grid unchanged. */
  lemma NeighbourhoodFiltersFixUniform(g: Grid, p: Pixel)
    requires Rectangular(g) && Uniform(g, p)
    ensures Blur(g) == g && Sharpen(g) == g
  {
    var b, s := Blur(g), Sharpen(g);
    forall i | 0 <= i < |g| ensures b[i] == g[i] && s[i] == g[i] {
      forall j | 0 <= j < |g[i]| ensures b[i][j] == g[i][j] && s[i][j] == g[i][j] {
        if Interior(g, i, j) {
          FlatNeighbourhood(g, i, j, p);
        }
      }
    }
  }
}
