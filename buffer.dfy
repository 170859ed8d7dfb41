/** The STB path: the decoder hands over one interleaved byte buffer of `height * width`
    records of `channels` bytes; the program copies the first three bytes of each record
    into the grid, filters the grid, and copies the three channels back into the same
    buffer, which is then handed to the encoder. */
module Interleaved {
  import opened Pixels
  import opened Grids
  import opened RowMajor
  import opened Filters
  import opened Partition

  /** What the decoder hands over: at least three bytes per record, one record per pixel. */
  predicate BufferShape(data: seq<Byte>, width: nat, height: nat, channels: nat) {
    channels >= 3 && |data| == height * width * channels
  }

  /** `{ data[idx], data[idx + 1], data[idx + 2] }`. */
  function PixelFromBytes(data: seq<Byte>, idx: nat): Pixel
    requires idx + 2 < |data|
  {
    Pixel(data[idx], data[idx + 1], data[idx + 2])
  }

  /** The grid built from the buffer: pixel `(i, j)` from record `i * width + j`. */
  function GridOfBuffer(data: seq<Byte>, width: nat, height: nat, channels: nat): (g: Grid)
    requires BufferShape(data, width, height, channels)
    ensures |g| == height && RowsOfWidth(g, width) && Rectangular(g)
  {
    seq(height, i requires 0 <= i < height =>
      seq(width, j requires 0 <= j < width =>
        PixelBytesInRange(height, width, channels, i, j);
        PixelFromBytes(data, (i * width + j) * channels)))
  }

  /** Pixel `(i, j)` of the grid is the first three bytes of record `i * width + j`. */
  lemma GridOfBufferAt(data: seq<Byte>, width: nat, height: nat, channels: nat, i: nat, j: nat)
    requires BufferShape(data, width, height, channels) && i < height && j < width
    ensures (i * width + j) * channels + 2 < |data|
    ensures GridOfBuffer(data, width, height, channels)[i][j] == PixelFromBytes(data, (i * width + j) * channels)
  {
    PixelBytesInRange(height, width, channels, i, j);
  }

  /** The buffer after the grid is copied back: byte `k` at channel `k % channels < 3` of
      record `k / channels` takes that channel of the matching pixel; every other byte
      keeps its value. */
  function WriteBack(data: seq<Byte>, g: Grid, width: nat, height: nat, channels: nat): (out: seq<Byte>)
    requires BufferShape(data, width, height, channels)
    requires |g| == height && RowsOfWidth(g, width)
    ensures |out| == |data|
  {
    seq(|data|, k requires 0 <= k < |data| =>
      PixelOfByte(height, width, channels, k);
      if k % channels < 3 then ChannelOf(g[(k / channels) / width][(k / channels) % width], k % channels)
      else data[k])
  }

  /** Byte `(i * width + j) * channels + ch` of the written-back buffer is channel `ch` of
      pixel `(i, j)` for the three colour channels, and the old byte for any further
      channel (alpha, say). */
  lemma WriteBackAt(data: seq<Byte>, g: Grid, width: nat, height: nat, channels: nat,
                    i: nat, j: nat, ch: nat)
    requires BufferShape(data, width, height, channels)
    requires |g| == height && RowsOfWidth(g, width)
    requires i < height && j < width && ch < channels
    ensures (i * width + j) * channels + ch < |data|
    ensures ch < 3 ==> WriteBack(data, g, width, height, channels)[(i * width + j) * channels + ch] == ChannelOf(g[i][j], ch)
    ensures ch >= 3 ==> WriteBack(data, g, width, height, channels)[(i * width + j) * channels + ch] == data[(i * width + j) * channels + ch]
  {
    var p := i * width + j;
    RecordIndexInRange(height, width, i, j);
    ChannelBytesInRange(height * width, channels, p);
    SplitOffset(p, channels, ch);
    SplitOffset(i, width, j);
  }

  /** Converting the buffer to a grid and writing it straight back leaves the buffer
      byte for byte as it was. */
  lemma WriteBackOfOwnGrid(data: seq<Byte>, width: nat, height: nat, channels: nat)
    requires BufferShape(data, width, height, channels)
    ensures WriteBack(data, GridOfBuffer(data, width, height, channels), width, height, channels) == data
  {
    var g := GridOfBuffer(data, width, height, channels);
    var out := WriteBack(data, g, width, height, channels);
    forall k | 0 <= k < |data| ensures out[k] == data[k] {
      RecordOfByte(height * width, channels, k);
      var p, ch := k / channels, k % channels;
      SplitRecord(height, width, p);
      var i, j := p / width, p % width;
      assert (i * width + j) * channels + ch == k;
      WriteBackAt(data, g, width, height, channels, i, j, ch);
    }
  }

  /** The conversion loop of `process_stb_image`. */
  method BufferToGrid(data: array<Byte>, width: nat, height: nat, channels: nat) returns (image: array2<Pixel>)
    requires BufferShape(data[..], width, height, channels)
    ensures fresh(image) && image.Length0 == height && image.Length1 == width
    ensures Cells(image) == GridOfBuffer(data[..], width, height, channels)
  {
    image := new Pixel[height, width]((i, j) => Black);
    ghost var bytes := data[..];
    ghost var target := GridOfBuffer(bytes, width, height, channels);
    for i := 0 to height
      invariant forall r, c :: 0 <= r < height && 0 <= c < width ==>
        image[r, c] == if r < i then target[r][c] else Black
    {
      for j := 0 to width
        invariant forall r, c :: 0 <= r < height && 0 <= c < width ==>
          image[r, c] == if r < i || (r == i && c < j) then target[r][c] else Black
      {
        var idx := (i * width + j) * channels;
        GridOfBufferAt(bytes, width, height, channels, i, j);
        image[i, j] := Pixel(data[idx], data[idx + 1], data[idx + 2]);
        assert image[i, j] == target[i][j];
      }
    }
    GridsEqual(Cells(image), target);
  }

  /** `target` up to byte `frontier`, `before` from there on. */
  ghost function Progress(before: seq<Byte>, target: seq<Byte>, frontier: int): (s: seq<Byte>)
    requires |before| == |target|
    ensures |s| == |before|
  {
    seq(|before|, k requires 0 <= k < |before| => if k < frontier then target[k] else before[k])
  }

  /** Writing the three colour bytes of record `(i, j)` into a buffer whose frontier
      stands at that record moves the frontier past the whole record, as the record's
      further bytes keep their value. */
  lemma CopyBackStep(before: seq<Byte>, g: Grid, width: nat, height: nat, channels: nat, i: nat, j: nat,
                     current: seq<Byte>, next: seq<Byte>)
    requires BufferShape(before, width, height, channels)
    requires |g| == height && RowsOfWidth(g, width)
    requires i < height && j < width
    requires current == Progress(before, WriteBack(before, g, width, height, channels), (i * width + j) * channels)
    requires (i * width + j) * channels + 2 < |current|
    requires next == current[(i * width + j) * channels := g[i][j].r]
                            [(i * width + j) * channels + 1 := g[i][j].g]
                            [(i * width + j) * channels + 2 := g[i][j].b]
    ensures next == Progress(before, WriteBack(before, g, width, height, channels), (i * width + j + 1) * channels)
  {
    var target := WriteBack(before, g, width, height, channels);
    var idx := (i * width + j) * channels;
    assert (i * width + j + 1) * channels == idx + channels;
    RecordIndexInRange(height, width, i, j);
    ChannelBytesInRange(height * width, channels, i * width + j);
    WriteBackAt(before, g, width, height, channels, i, j, 0);
    WriteBackAt(before, g, width, height, channels, i, j, 1);
    WriteBackAt(before, g, width, height, channels, i, j, 2);
    forall k | idx + 3 <= k < idx + channels ensures target[k] == before[k] {
      WriteBackAt(before, g, width, height, channels, i, j, k - idx);
    }
  }

  /** `data[idx] = p.r; data[idx + 1] = p.g; data[idx + 2] = p.b;` */
  method StoreChannels(data: array<Byte>, idx: nat, p: Pixel)
    requires idx + 2 < data.Length
    modifies data
    ensures data[..] == old(data[..])[idx := p.r][idx + 1 := p.g][idx + 2 := p.b]
  {
    data[idx] := p.r;
    data[idx + 1] := p.g;
    data[idx + 2] := p.b;
  }

  /** One row of the copy-back loop: the records of row `i` move from `before` to
      their written-back value. */
  method CopyRowBack(image: array2<Pixel>, data: array<Byte>, channels: nat, i: nat,
                     ghost before: seq<Byte>, ghost target: seq<Byte>)
    requires BufferShape(before, image.Length1, image.Length0, channels) && i < image.Length0
    requires target == WriteBack(before, Cells(image), image.Length1, image.Length0, channels)
    requires data[..] == Progress(before, target, i * image.Length1 * channels)
    modifies data
    ensures data[..] == Progress(before, target, (i + 1) * image.Length1 * channels)
  {
    var width := image.Length1;
    for j := 0 to width
      invariant data[..] == Progress(before, target, (i * width + j) * channels)
    {
      var idx := (i * width + j) * channels;
      PixelBytesInRange(image.Length0, width, channels, i, j);
      ghost var current := data[..];
      StoreChannels(data, idx, image[i, j]);
      CopyBackStep(before, Cells(image), width, image.Length0, channels, i, j, current, data[..]);
    }
    assert (i * width + width) * channels == (i + 1) * width * channels;
  }

  /** The copy-back loop: the three channels of every pixel into its record of `data`. */
  method GridToBuffer(image: array2<Pixel>, data: array<Byte>, channels: nat)
    requires BufferShape(data[..], image.Length1, image.Length0, channels)
    modifies data
    ensures data[..] == WriteBack(old(data[..]), Cells(image), image.Length1, image.Length0, channels)
  {
    var height, width := image.Length0, image.Length1;
    ghost var before: seq<Byte> := data[..];
    ghost var target: seq<Byte> := WriteBack(before, Cells(image), width, height, channels);
    for i := 0 to height
      invariant data[..] == Progress(before, target, i * width * channels)
    {
      CopyRowBack(image, data, channels, i, before, target);
    }
    assert data[..] == Progress(before, target, height * width * channels) == target;
  }

  /** `process_stb_image`: convert, gray every row, copy back. */
  method ProcessStbImage(data: array<Byte>, width: nat, height: nat, channels: nat)
    requires BufferShape(data[..], width, height, channels)
    modifies data
    ensures data[..] == WriteBack(old(data[..]),
                                  MapPixels(GridOfBuffer(old(data[..]), width, height, channels), GrayscalePixel),
                                  width, height, channels)
  {
    var image := BufferToGrid(data, width, height, channels);
    ApplyFilter(image, 0, height);
    GridToBuffer(image, data, channels);
  }

  /** `process_stb_image_multithreaded`: as above, with the gray pass split over the
      row partition for `numThreads` workers. */
  method ProcessStbImageMultithreaded(data: array<Byte>, width: nat, height: nat, channels: nat, numThreads: nat)
    requires BufferShape(data[..], width, height, channels) && numThreads >= 1
    modifies data
    ensures data[..] == WriteBack(old(data[..]),
                                  MapPixels(GridOfBuffer(old(data[..]), width, height, channels), GrayscalePixel),
                                  width, height, channels)
  {
    var image := BufferToGrid(data, width, height, channels);
    ApplyFilterPartitioned(image, numThreads);
    GridToBuffer(image, data, channels);
  }
}
