/** `apply_pipeline`: a list of filters applied to one grid strictly in list order. */
module Pipeline {
  import opened Pixels
  import opened Grids
  import opened Filters

  /** The integer filters a pipeline can hold, each with its bound parameter. */
  datatype Filter =
    | Grayscale
    | Invert
    | Brightness(factor: nat)
    | Threshold(level: Byte)
    | Blur
    | Sharpen

  /** Blur and Sharpen read the width off row 0, so they need a grid with a row. */
  predicate ReadsFirstRow(f: Filter) {
    f.Blur? || f.Sharpen?
  }

  /** The grid a filter leaves behind. */
  function RunFilter(g: Grid, f: Filter): (r: Grid)
    requires Rectangular(g)
    requires ReadsFirstRow(f) ==> |g| >= 1
    ensures SameShape(g, r) && Rectangular(r) && Width(r) == Width(g)
  {
    var r := match f
      case Grayscale => MapPixels(g, GrayscalePixel)
      case Invert => MapPixels(g, InvertPixel)
      case Brightness(factor) => MapPixels(g, p => BrightnessPixel(p, factor))
      case Threshold(level) => MapPixels(g, p => ThresholdPixel(p, level))
      case Blur => Grids.Blur(g)
      case Sharpen => Grids.Sharpen(g);
    SameShapeRectangular(g, r);
    r
  }

  /** A pipeline can run on `g` when the grid is rectangular and, if it has no rows,
      holds no filter that reads row 0. */
  predicate Runnable(g: Grid, filters: seq<Filter>) {
    Rectangular(g) && (|g| == 0 ==> forall k :: 0 <= k < |filters| ==> !ReadsFirstRow(filters[k]))
  }

  /** Each stage's output is the sole input of the next stage. */
  function RunPipeline(g: Grid, filters: seq<Filter>): (r: Grid)
    requires Runnable(g, filters)
    ensures SameShape(g, r) && Rectangular(r) && Width(r) == Width(g)
    decreases |filters|
  {
    if filters == [] then g
    else
      var next := RunFilter(g, filters[0]);
      assert Runnable(next, filters[1..]) by {
        forall k | 0 <= k < |filters[1..]| ensures |next| == 0 ==> !ReadsFirstRow(filters[1..][k]) {
          assert filters[1..][k] == filters[k + 1];
        }
      }
      RunPipeline(next, filters[1..])
  }

  /** Running two pipelines one after the other is running their concatenation. */
  lemma {:induction false} RunPipelineAppend(g: Grid, first: seq<Filter>, second: seq<Filter>)
    requires Runnable(g, first + second)
    ensures Runnable(g, first) && Runnable(RunPipeline(g, first), second)
    ensures RunPipeline(g, first + second) == RunPipeline(RunPipeline(g, first), second)
    decreases |first|
  {
    assert forall k :: 0 <= k < |first| ==> first[k] == (first + second)[k];
    assert forall k :: 0 <= k < |second| ==> second[k] == (first + second)[|first| + k];
    if first == [] {
      assert first + second == second;
    } else {
      var next := RunFilter(g, first[0]);
      assert (first + second)[1..] == first[1..] + second;
      assert Runnable(next, first[1..] + second) by {
        forall k | 0 <= k < |first[1..] + second|
          ensures |next| == 0 ==> !ReadsFirstRow((first[1..] + second)[k])
        {
          assert (first[1..] + second)[k] == (first + second)[k + 1];
        }
      }
      RunPipelineAppend(next, first[1..], second);
    }
  }

  /** An empty pipeline leaves the image as it was. */
  lemma RunPipelineEmpty(g: Grid)
    requires Rectangular(g)
    ensures RunPipeline(g, []) == g
  {
  }

  /** Grayscale twice is grayscale once. */
  lemma GrayscaleIdempotent(g: Grid)
    requires Rectangular(g)
    ensures RunPipeline(g, [Grayscale, Grayscale]) == RunPipeline(g, [Grayscale])
  {
    GrayscaleRowsIdempotent(g, 0, |g|);
  }

  /** Invert twice returns the original grid. */
  lemma InvertTwiceIsIdentity(g: Grid)
    requires Rectangular(g)
    ensures RunPipeline(g, [Invert, Invert]) == g
  {
    InvertInvolutive(g);
  }

  /** Calls the filter a pipeline stage names on the grid. */
  method ApplyStage(image: array2<Pixel>, f: Filter)
    requires ReadsFirstRow(f) ==> image.Length0 >= 1
    modifies image
    ensures Cells(image) == RunFilter(old(Cells(image)), f)
  {
    match f
    case Grayscale => GrayscaleFilter(image);
    case Invert => InvertFilter(image);
    case Brightness(factor) => BrightnessFilter(image, factor);
    case Threshold(level) => ThresholdFilter(image, level);
    case Blur => BlurFilter(image);
    case Sharpen => SharpenFilter(image);
  }

  /** `apply_pipeline`: applies the filters in list order to the same grid. */
  method ApplyPipeline(image: array2<Pixel>, filters: seq<Filter>)
    requires image.Length0 == 0 ==> forall k :: 0 <= k < |filters| ==> !ReadsFirstRow(filters[k])
    modifies image
    ensures Runnable(old(Cells(image)), filters)
    ensures Cells(image) == RunPipeline(old(Cells(image)), filters)
  {
    ghost var before := Cells(image);
    for k := 0 to |filters|
      invariant Runnable(Cells(image), filters[k..])
      invariant RunPipeline(Cells(image), filters[k..]) == RunPipeline(before, filters)
    {
      ApplyStage(image, filters[k]);
      assert filters[k..][1..] == filters[k + 1..];
    }
    assert filters[|filters|..] == [];
  }
}
