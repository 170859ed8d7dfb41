/** The filters as the source runs them: nested loops that rewrite the pixels of
    the grid in place. Each method is proved to leave the grid equal to the
    whole-grid function of module Grids applied to the grid it found. */
module Filters {
  import opened Pixels
  import opened Grids

  /** The grid an `array2` holds, row by row. */
  function Cells(image: array2<Pixel>): (g: Grid)
    reads image
    ensures |g| == image.Length0 && Rectangular(g)
    ensures forall i :: 0 <= i < |g| ==> |g[i]| == image.Length1
    ensures forall i, j :: 0 <= i < image.Length0 && 0 <= j < image.Length1 ==> g[i][j] == image[i, j]
  {
    seq(image.Length0, i requires 0 <= i < image.Length0 reads image =>
      seq(image.Length1, j requires 0 <= j < image.Length1 reads image => image[i, j]))
  }

  /** Two grids of the same shape that agree pixel by pixel are equal. */
  lemma GridsEqual(g: Grid, h: Grid)
    requires SameShape(g, h)
    requires forall i, j :: 0 <= i < |g| && 0 <= j < |g[i]| ==> g[i][j] == h[i][j]
    ensures g == h
  {
    forall i | 0 <= i < |g| ensures g[i] == h[i] {
    }
  }

  /** Rewrites every pixel of rows `startRow <= i < endRow` by the point rule `f`,
      row by row, column by column; rows outside the range are not touched. */
  method MapRowsInPlace(image: array2<Pixel>, startRow: int, endRow: int, f: Pixel -> Pixel)
    requires startRow < endRow ==> 0 <= startRow && endRow <= image.Length0
    modifies image
    ensures Cells(image) == MapRows(old(Cells(image)), startRow, endRow, f)
  {
    ghost var before := Cells(image);
    var i := startRow;
    while i < endRow
      invariant i == startRow || startRow <= i <= endRow
      invariant forall r, c :: 0 <= r < image.Length0 && 0 <= c < image.Length1 ==>
        image[r, c] == if startRow <= r < i then f(before[r][c]) else before[r][c]
    {
      var j := 0;
      while j < image.Length1
        invariant 0 <= j <= image.Length1
        invariant forall r, c :: 0 <= r < image.Length0 && 0 <= c < image.Length1 ==>
          image[r, c] == if startRow <= r < i || (r == i && c < j) then f(before[r][c]) else before[r][c]
      {
        image[i, j] := f(image[i, j]);
        j := j + 1;
      }
      i := i + 1;
    }
    GridsEqual(Cells(image), MapRows(before, startRow, endRow, f));
  }

  /** `apply_filter(image, start_row, end_row)`: grayscale over a range of rows. */
  method ApplyFilter(image: array2<Pixel>, startRow: int, endRow: int)
    requires startRow < endRow ==> 0 <= startRow && endRow <= image.Length0
    modifies image
    ensures Cells(image) == MapRows(old(Cells(image)), startRow, endRow, GrayscalePixel)
  {
    MapRowsInPlace(image, startRow, endRow, GrayscalePixel);
  }

  method GrayscaleFilter(image: array2<Pixel>)
    modifies image
    ensures Cells(image) == MapPixels(old(Cells(image)), GrayscalePixel)
  {
    MapRowsInPlace(image, 0, image.Length0, GrayscalePixel);
  }

  method InvertFilter(image: array2<Pixel>)
    modifies image
    ensures Cells(image) == MapPixels(old(Cells(image)), InvertPixel)
  {
    MapRowsInPlace(image, 0, image.Length0, InvertPixel);
  }

  method BrightnessFilter(image: array2<Pixel>, factor: nat)
    modifies image
    ensures Cells(image) == MapPixels(old(Cells(image)), p => BrightnessPixel(p, factor))
  {
    MapRowsInPlace(image, 0, image.Length0, p => BrightnessPixel(p, factor));
  }

  method ThresholdFilter(image: array2<Pixel>, level: Byte)
    modifies image
    ensures Cells(image) == MapPixels(old(Cells(image)), p => ThresholdPixel(p, level))
  {
    MapRowsInPlace(image, 0, image.Length0, p => ThresholdPixel(p, level));
  }

  /** Takes a copy of the grid, then writes each interior pixel from the copy only. */
  method BlurFilter(image: array2<Pixel>)
    requires image.Length0 >= 1
    modifies image
    ensures Cells(image) == Blur(old(Cells(image)))
  {
    var copy := Cells(image);
    var height, width := image.Length0, image.Length1;
    var i := 1;
    while i < height - 1
      invariant 1 <= i && (i <= height - 1 || i == 1)
      invariant forall r, c :: 0 <= r < height && 0 <= c < width ==>
        image[r, c] == if r < i then Blur(copy)[r][c] else copy[r][c]
    {
      var j := 1;
      while j < width - 1
        invariant 1 <= j && (j <= width - 1 || j == 1)
        invariant forall r, c :: 0 <= r < height && 0 <= c < width ==>
          image[r, c] == if r < i || (r == i && c < j) then Blur(copy)[r][c] else copy[r][c]
      {
        image[i, j] := BlurPixel(copy, i, j);
        j := j + 1;
      }
      i := i + 1;
    }
    GridsEqual(Cells(image), Blur(copy));
  }

  /** Takes a copy of the grid, then writes each interior pixel from the copy only. */
  method SharpenFilter(image: array2<Pixel>)
    requires image.Length0 >= 1
    modifies image
    ensures Cells(image) == Sharpen(old(Cells(image)))
  {
    var copy := Cells(image);
    var height, width := image.Length0, image.Length1;
    var i := 1;
    while i < height - 1
      invariant 1 <= i && (i <= height - 1 || i == 1)
      invariant forall r, c :: 0 <= r < height && 0 <= c < width ==>
        image[r, c] == if r < i then Sharpen(copy)[r][c] else copy[r][c]
    {
      var j := 1;
      while j < width - 1
        invariant 1 <= j && (j <= width - 1 || j == 1)
        invariant forall r, c :: 0 <= r < height && 0 <= c < width ==>
          image[r, c] == if r < i || (r == i && c < j) then Sharpen(copy)[r][c] else copy[r][c]
      {
        image[i, j] := SharpenPixel(copy, i, j);
        j := j + 1;
      }
      i := i + 1;
    }
    GridsEqual(Cells(image), Sharpen(copy));
  }
}
