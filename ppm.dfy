/** Binary PPM ("P6") images: the header the programs write, the pixel body read
    and written as `width * height` raw 3-byte records in row-major order, and the
    PPM drivers (grayscale as written and corrected, partitioned grayscale,
    filter pipeline). */
module Ppm {
  import opened Pixels
  import opened Grids
  import opened RowMajor
  import opened Filters
  import opened Pipeline
  import opened Partition

  datatype Option<T> = None | Some(value: T)

  /** The header tokens as `>>` read them. The first token must be "P6". */
  datatype PpmHeader = PpmHeader(magic: string, width: nat, height: nat, maxColor: int)

  const Magic: string := "P6"

  /* ---------- decimal text of the header ---------- */

  predicate IsDigit(c: char) {
    '0' <= c <= '9'
  }

  predicate IsAscii(s: seq<char>) {
    forall k :: 0 <= k < |s| ==> s[k] as int < 256
  }

  /** The digits `<<` writes for a non-negative `int`: no sign, no leading zero. */
  function Digits(n: nat): (s: seq<char>)
    ensures |s| >= 1 && (|s| > 1 ==> s[0] != '0')
    ensures forall k :: 0 <= k < |s| ==> IsDigit(s[k])
  {
    if n < 10 then ['0' + n as char] else Digits(n / 10) + ['0' + (n % 10) as char]
  }

  /** The value of a string of decimal digits. */
  function DigitsValue(s: seq<char>): int
    requires forall k :: 0 <= k < |s| ==> IsDigit(s[k])
  {
    if s == [] then 0 else 10 * DigitsValue(s[..|s| - 1]) + (s[|s| - 1] as int - '0' as int)
  }

  /** Reading back the digits of `n` gives `n`. */
  lemma {:induction false} DigitsRoundTrip(n: nat)
    ensures DigitsValue(Digits(n)) == n
  {
    if n >= 10 {
      var s := Digits(n);
      assert s[..|s| - 1] == Digits(n / 10);
      DigitsRoundTrip(n / 10);
    }
  }

  /** `<<` on an `int`: a minus sign for negative values, then the digits. */
  function Decimal(n: int): (s: seq<char>)
    ensures n >= 0 ==> s == Digits(n)
    ensures n < 0 ==> s == ['-'] + Digits(-n)
    ensures IsAscii(s)
  {
    var digits := Digits(if n < 0 then -n else n);
    assert IsAscii(digits) by {
      forall k | 0 <= k < |digits| ensures digits[k] as int < 256 {
        assert IsDigit(digits[k]);
      }
    }
    if n < 0 then ['-'] + digits else digits
  }


  lemma AsciiConcat(a: seq<char>, b: seq<char>)
    requires IsAscii(a) && IsAscii(b)
    ensures IsAscii(a + b)
  {
    forall k | 0 <= k < |a + b| ensures (a + b)[k] as int < 256 {
      if k >= |a| {
        assert (a + b)[k] == b[k - |a|];
      }
    }
  }

  /** The bytes of an ASCII string. */
  function Ascii(s: seq<char>): (bytes: seq<Byte>)
    requires IsAscii(s)
    ensures |bytes| == |s|
    ensures forall k :: 0 <= k < |s| ==> bytes[k] == s[k] as int
  {
    seq(|s|, k requires 0 <= k < |s| => s[k] as int)
  }

  /** `"P6\n" << width << " " << height << "\n" << max_color_value << "\n"`. */
  function HeaderText(width: nat, height: nat, maxColor: int): (s: seq<char>)
    ensures IsAscii(s)
    ensures |s| >= 3 && s[0] == 'P' && s[1] == '6' && s[2] == '\n'
    ensures s[|s| - 1] == '\n'
  {
    var w, h, m := Decimal(width), Decimal(height), Decimal(maxColor);
    var rest := w + (" " + (h + ("\n" + (m + "\n"))));
    var s := "P6\n" + rest;
    AsciiConcat(m, "\n");
    AsciiConcat("\n", m + "\n");
    AsciiConcat(h, "\n" + (m + "\n"));
    AsciiConcat(" ", h + ("\n" + (m + "\n")));
    AsciiConcat(w, " " + (h + ("\n" + (m + "\n"))));
    AsciiConcat("P6\n", rest);
    assert rest[|rest| - 1] == (m + "\n")[|m|];
    s
  }

  /* ---------- pixel body ---------- */

  /** One pixel written with `write(&pixel, sizeof(Pixel))`: red, green, blue. */
  function RecordBytes(p: Pixel): (bytes: seq<Byte>)
    ensures |bytes| == 3 && forall ch :: 0 <= ch < 3 ==> bytes[ch] == ChannelOf(p, ch)
  {
    [p.r, p.g, p.b]
  }

  /** The records of one row, in column order. */
  function EncodeRow(row: seq<Pixel>): (bytes: seq<Byte>)
    ensures |bytes| == 3 * |row|
  {
    if row == [] then [] else EncodeRow(row[..|row| - 1]) + RecordBytes(row[|row| - 1])
  }

  /** The records of all rows, row after row, with no padding. */
  function EncodeBody(g: Grid): (bytes: seq<Byte>)
    ensures |bytes| % 3 == 0
  {
    if g == [] then [] else EncodeBody(g[..|g| - 1]) + EncodeRow(g[|g| - 1])
  }

  /** Channel `ch` of column `j` is byte `3 * j + ch` of the row's records. */
  lemma {:induction false} EncodeRowAt(row: seq<Pixel>, j: nat, ch: nat)
    requires j < |row| && ch < 3
    ensures EncodeRow(row)[3 * j + ch] == ChannelOf(row[j], ch)
  {
    if j < |row| - 1 {
      EncodeRowAt(row[..|row| - 1], j, ch);
    }
  }

  /** The body of `height` rows of `width` pixels is `height * width` records long. */
  lemma {:induction false} EncodeBodyLength(g: Grid, width: nat)
    requires RowsOfWidth(g, width)
    ensures |EncodeBody(g)| == |g| * width * 3
  {
    if g != [] {
      var n := |g| - 1;
      EncodeBodyLength(g[..n], width);
      assert |EncodeBody(g)| == |EncodeBody(g[..n])| + width * 3;
      NextRowOffset(n, width, 3);
    }
  }

  /** Channel `ch` of pixel `(i, j)` is byte `ch` of record `i * width + j` of the body. */
  lemma {:induction false} EncodeBodyAt(g: Grid, width: nat, i: nat, j: nat, ch: nat)
    requires RowsOfWidth(g, width)
    requires i < |g| && j < width && ch < 3
    ensures 3 * (i * width + j) + ch < |EncodeBody(g)|
    ensures EncodeBody(g)[3 * (i * width + j) + ch] == ChannelOf(g[i][j], ch)
  {
    var front := g[..|g| - 1];
    EncodeBodyLength(front, width);
    EncodeBodyLength(g, width);
    var p := i * width;
    if i == |g| - 1 {
      EncodeRowAt(g[i], j, ch);
      assert 3 * (p + j) + ch == p * 3 + (3 * j + ch);
      assert |EncodeBody(front)| == p * 3;
    } else {
      EncodeBodyAt(front, width, i, j, ch);
      RecordIndexInRange(|front|, width, i, j);
    }
  }

  /** Byte `k` of what is left of the stream, or 0 once the stream has run dry:
      the grid starts out value-initialised to zero, a `read` that runs out keeps the
      bytes it got, and every later `read` stores nothing. */
  function ByteOrZero(body: seq<Byte>, k: nat): (b: Byte)
    ensures k < |body| ==> b == body[k]
    ensures |body| <= k ==> b == 0
  {
    if k < |body| then body[k] else 0
  }

  /** The pixel read by the `p`-th `read(&image[i][j], sizeof(Pixel))`: the record's
      three bytes when the stream holds them all, the bytes it got and zeros when the
      stream runs out inside the record, black once the stream has run dry. */
  function ReadRecord(body: seq<Byte>, p: nat): (r: Pixel)
    ensures 3 * p + 3 <= |body| ==> r == Pixel(body[3 * p], body[3 * p + 1], body[3 * p + 2])
    ensures 3 * p < |body| < 3 * p + 3 ==>
              r == Pixel(body[3 * p], ByteOrZero(body, 3 * p + 1), ByteOrZero(body, 3 * p + 2))
    ensures |body| <= 3 * p ==> r == Black
  {
    Pixel(ByteOrZero(body, 3 * p), ByteOrZero(body, 3 * p + 1), ByteOrZero(body, 3 * p + 2))
  }

  /** The grid the read loop fills: pixel `(i, j)` from record `i * width + j`. */
  function DecodeBody(body: seq<Byte>, height: nat, width: nat): (g: Grid)
    ensures |g| == height && RowsOfWidth(g, width) && Rectangular(g)
  {
    seq(height, i requires 0 <= i < height =>
      seq(width, j requires 0 <= j < width => ReadRecord(body, i * width + j)))
  }

  /** Pixel `(i, j)` of a decoded body is record `i * width + j` of the stream. */
  lemma DecodeBodyAt(body: seq<Byte>, height: nat, width: nat, i: nat, j: nat)
    requires i < height && j < width
    ensures DecodeBody(body, height, width)[i][j] == ReadRecord(body, i * width + j)
  {
  }

  /** Reading record `i * width + j` of a written body gives back pixel `(i, j)`. */
  lemma ReadEncodedRecord(g: Grid, width: nat, i: nat, j: nat)
    requires RowsOfWidth(g, width) && i < |g| && j < width
    ensures DecodeBody(EncodeBody(g), |g|, width)[i][j] == g[i][j]
  {
    DecodeBodyAt(EncodeBody(g), |g|, width, i, j);
    EncodeBodyAt(g, width, i, j, 0);
    EncodeBodyAt(g, width, i, j, 1);
    EncodeBodyAt(g, width, i, j, 2);
  }

  /** Decoding the body that was written reproduces the grid. */
  lemma DecodeEncodeBody(g: Grid, width: nat)
    requires RowsOfWidth(g, width)
    ensures DecodeBody(EncodeBody(g), |g|, width) == g
  {
    var d := DecodeBody(EncodeBody(g), |g|, width);
    forall i: nat, j: nat | i < |g| && j < width ensures d[i][j] == g[i][j] {
      ReadEncodedRecord(g, width, i, j);
    }
    GridsEqual(d, g);
  }

  /** Channel `ch` of record `i * width + j` survives a read and a write. */
  lemma EncodeDecodeRecord(body: seq<Byte>, height: nat, width: nat, i: nat, j: nat, ch: nat)
    requires |body| >= height * width * 3 && i < height && j < width && ch < 3
    ensures 3 * (i * width + j) + ch < |body|
    ensures 3 * (i * width + j) + ch < |EncodeBody(DecodeBody(body, height, width))|
    ensures EncodeBody(DecodeBody(body, height, width))[3 * (i * width + j) + ch]
            == body[3 * (i * width + j) + ch]
  {
    PixelBytesInRange(height, width, 3, i, j);
    EncodeBodyAt(DecodeBody(body, height, width), width, i, j, ch);
    DecodeBodyAt(body, height, width, i, j);
  }

  /** Byte `k` of a body that was read and written back is byte `k` of the stream. */
  lemma EncodeDecodeByte(body: seq<Byte>, height: nat, width: nat, k: nat)
    requires |body| >= height * width * 3 && k < height * width * 3
    ensures k < |EncodeBody(DecodeBody(body, height, width))|
    ensures EncodeBody(DecodeBody(body, height, width))[k] == body[k]
  {
    var p, ch := k / 3, k % 3;
    RecordOfByte(height * width, 3, k);
    SplitRecord(height, width, p);
    var i, j := p / width, p % width;
    EncodeDecodeRecord(body, height, width, i, j, ch);
    assert 3 * (i * width + j) + ch == k;
  }

  /** Writing back a body that was read gives the bytes it was read from, when the
      stream held all `height * width` records. */
  lemma EncodeDecodeBody(body: seq<Byte>, height: nat, width: nat)
    requires |body| >= height * width * 3
    ensures EncodeBody(DecodeBody(body, height, width)) == body[..height * width * 3]
  {
    var bytes := EncodeBody(DecodeBody(body, height, width));
    EncodeBodyLength(DecodeBody(body, height, width), width);
    forall k | 0 <= k < height * width * 3 ensures bytes[k] == body[k] {
      EncodeDecodeByte(body, height, width, k);
    }
  }

  /** The header's bytes start with the magic number and its newline, `P6\n`. */
  lemma HeaderBytes(width: nat, height: nat, maxColor: int)
    ensures |Ascii(HeaderText(width, height, maxColor))| >= 3
    ensures Ascii(HeaderText(width, height, maxColor))[..3] == [80, 54, 10]
  {
    var bytes := Ascii(HeaderText(width, height, maxColor));
    assert bytes[0] == 80 && bytes[1] == 54 && bytes[2] == 10;
  }

  /* ---------- whole file ---------- */

  /** The file the drivers write: the header, then the records of the grid. */
  function PpmFile(width: nat, height: nat, maxColor: int, g: Grid): (file: seq<Byte>)
    ensures |file| == |HeaderText(width, height, maxColor)| + |EncodeBody(g)|
    ensures file[..|HeaderText(width, height, maxColor)|] == Ascii(HeaderText(width, height, maxColor))
    ensures file[|HeaderText(width, height, maxColor)|..] == EncodeBody(g)
  {
    Ascii(HeaderText(width, height, maxColor)) + EncodeBody(g)
  }

  /** The written file begins with the bytes of "P6\n", and the bytes after the header
      decode, as `width * height` records, to the grid that was written. */
  lemma PpmFileLayout(g: Grid, maxColor: int)
    requires Rectangular(g)
    ensures var file := PpmFile(Width(g), |g|, maxColor, g);
            var headerLength := |HeaderText(Width(g), |g|, maxColor)|;
            && file[..3] == [80, 54, 10]
            && |file| == headerLength + |g| * Width(g) * 3
            && DecodeBody(file[headerLength..], |g|, Width(g)) == g
  {
    var header, body := Ascii(HeaderText(Width(g), |g|, maxColor)), EncodeBody(g);
    HeaderBytes(Width(g), |g|, maxColor);
    assert (header + body)[..3] == header[..3];
    assert (header + body)[|header|..] == body;
    EncodeBodyLength(g, Width(g));
    DecodeEncodeBody(g, Width(g));
  }

  /* ---------- the loops of the drivers ---------- */

  /** The read loop: one 3-byte record per pixel, row by row, from the position after
      the single whitespace byte that ends the header. */
  method ReadPixels(body: seq<Byte>, height: nat, width: nat) returns (image: array2<Pixel>)
    ensures fresh(image)
    ensures Cells(image) == DecodeBody(body, height, width)
  {
    image := new Pixel[height, width]((i, j) => Black);
    ghost var target := DecodeBody(body, height, width);
    var pos := 0;
    for i := 0 to height
      invariant pos == 3 * (i * width)
      invariant forall r, c :: 0 <= r < height && 0 <= c < width ==>
        image[r, c] == if r < i then target[r][c] else Black
    {
      for j := 0 to width
        invariant pos == 3 * (i * width + j)
        invariant forall r, c :: 0 <= r < height && 0 <= c < width ==>
          image[r, c] == if r < i || (r == i && c < j) then target[r][c] else Black
      {
        DecodeBodyAt(body, height, width, i, j);
        image[i, j] := Pixel(ByteOrZero(body, pos), ByteOrZero(body, pos + 1), ByteOrZero(body, pos + 2));
        pos := pos + 3;
      }
      assert 3 * (i * width + width) == 3 * ((i + 1) * width);
    }
    GridsEqual(Cells(image), target);
  }

  /** The write loop: each pixel's record, row by row. */
  method WritePixels(image: array2<Pixel>) returns (bytes: seq<Byte>)
    ensures bytes == EncodeBody(Cells(image))
  {
    ghost var g := Cells(image);
    bytes := [];
    for i := 0 to image.Length0
      invariant bytes == EncodeBody(g[..i])
    {
      var rowBytes: seq<Byte> := [];
      for j := 0 to image.Length1
        invariant rowBytes == EncodeRow(g[i][..j])
      {
        rowBytes := rowBytes + RecordBytes(image[i, j]);
        assert g[i][..j + 1][..j] == g[i][..j];
      }
      assert g[i][..image.Length1] == g[i];
      assert g[..i + 1][..i] == g[..i];
      bytes := bytes + rowBytes;
    }
    assert g[..image.Length0] == g;
  }

  /** `process_ppm_image` (single-threaded): stop without output unless the magic is
      "P6"; otherwise read the records, gray every row, and write header and records. */
  method ProcessPpmImage(header: PpmHeader, body: seq<Byte>) returns (output: Option<seq<Byte>>)
    ensures header.magic != Magic <==> output == None
    ensures output.Some? ==>
              output.value == PpmFile(header.width, header.height, header.maxColor,
                                      MapPixels(DecodeBody(body, header.height, header.width), GrayscalePixel))
  {
    if header.magic != Magic {
      return None;
    }
    var image := ReadPixels(body, header.height, header.width);
    ApplyFilter(image, 0, header.height);
    var records := WritePixels(image);
    output := Some(Ascii(HeaderText(header.width, header.height, header.maxColor)) + records);
  }

  /** The token the single-threaded PPM driver of MultiThread_Images.cpp compares the
      magic against, although it goes on to read raw 3-byte records and to write "P6". */
  const MagicAsWritten: string := "P3"

  /** `process_ppm_image` of MultiThread_Images.cpp as written: the same driver, with
      its guard on "P3". */
  method ProcessPpmImageAsWritten(header: PpmHeader, body: seq<Byte>) returns (output: Option<seq<Byte>>)
    ensures header.magic != MagicAsWritten <==> output == None
    ensures output.Some? ==>
              output.value == PpmFile(header.width, header.height, header.maxColor,
                                      MapPixels(DecodeBody(body, header.height, header.width), GrayscalePixel))
  {
    if header.magic != MagicAsWritten {
      return None;
    }
    var image := ReadPixels(body, header.height, header.width);
    ApplyFilter(image, 0, header.height);
    var records := WritePixels(image);
    output := Some(Ascii(HeaderText(header.width, header.height, header.maxColor)) + records);
  }

  /** Every file the drivers write starts with the bytes of the magic the guard of
      `ProcessPpmImage` accepts, followed by the newline that ends the token. */
  lemma OwnOutputMagicAccepted(g: Grid, maxColor: int)
    requires Rectangular(g)
    ensures PpmFile(Width(g), |g|, maxColor, g)[..3] == Ascii(Magic) + [10]
  {
    PpmFileLayout(g, maxColor);
  }

  /** The guard as written refuses every file the drivers write: its first token is
      "P6", never "P3". */
  lemma OwnOutputRejectedAsWritten(g: Grid, maxColor: int)
    requires Rectangular(g)
    ensures PpmFile(Width(g), |g|, maxColor, g)[..2] != Ascii(MagicAsWritten)
  {
    var file := PpmFile(Width(g), |g|, maxColor, g);
    PpmFileLayout(g, maxColor);
    assert file[1] == file[..3][1] == 54;
    assert file[..2][1] != Ascii(MagicAsWritten)[1];
  }

  /** `process_ppm_image_multithreaded`: as above, with the gray pass split over the
      row partition for `numThreads` workers. */
  method ProcessPpmImageMultithreaded(header: PpmHeader, body: seq<Byte>, numThreads: nat)
    returns (output: Option<seq<Byte>>)
    requires numThreads >= 1
    ensures header.magic != Magic <==> output == None
    ensures output.Some? ==>
              output.value == PpmFile(header.width, header.height, header.maxColor,
                                      MapPixels(DecodeBody(body, header.height, header.width), GrayscalePixel))
  {
    if header.magic != Magic {
      return None;
    }
    var image := ReadPixels(body, header.height, header.width);
    ApplyFilterPartitioned(image, numThreads);
    var records := WritePixels(image);
    output := Some(Ascii(HeaderText(header.width, header.height, header.maxColor)) + records);
  }

  /** `process_ppm_image_with_pipeline`: as above, with the filter pipeline in place
      of the gray pass. */
  method ProcessPpmImageWithPipeline(header: PpmHeader, body: seq<Byte>, filters: seq<Filter>)
    returns (output: Option<seq<Byte>>)
    requires header.height == 0 ==> forall k :: 0 <= k < |filters| ==> !ReadsFirstRow(filters[k])
    ensures header.magic != Magic <==> output == None
    ensures output.Some? ==>
      Runnable(DecodeBody(body, header.height, header.width), filters) &&
      output.value == PpmFile(header.width, header.height, header.maxColor,
                              RunPipeline(DecodeBody(body, header.height, header.width), filters))
  {
    if header.magic != Magic {
      return None;
    }
    var image := ReadPixels(body, header.height, header.width);
    ApplyPipeline(image, filters);
    var records := WritePixels(image);
    output := Some(Ascii(HeaderText(header.width, header.height, header.maxColor)) + records);
  }
}
