/** Row-major offsets: pixel `(i, j)` of a `width`-wide grid is record number
    `i * width + j`, and its channel `ch` sits at byte `(i * width + j) * channels + ch`
    of a buffer with `channels` bytes per record. */
module RowMajor {

  lemma MulMono(a: nat, b: nat, c: nat)
    requires a <= b
    ensures a * c <= b * c
  {
  }

  /** Row `n + 1` starts one row of `width` records of `channels` bytes after row `n`. */
  lemma NextRowOffset(n: nat, width: nat, channels: nat)
    ensures (n + 1) * width * channels == n * width * channels + width * channels
  {
  }

  /** Every pixel of a `height` by `width` grid has a record number below `height * width`. */
  lemma RecordIndexInRange(height: nat, width: nat, i: nat, j: nat)
    requires i < height && j < width
    ensures i * width + j < height * width
  {
    MulMono(i + 1, height, width);
  }

  /** With at least three bytes per record, the three channel bytes of record `p < n`
      stay inside the `n * channels` bytes of the buffer. */
  lemma ChannelBytesInRange(n: nat, channels: nat, p: nat)
    requires p < n && channels >= 3
    ensures p * channels + 2 < n * channels
    ensures p * channels + channels <= n * channels
  {
    MulMono(p + 1, n, channels);
  }

  /** `(i * width + j) * channels + ch < height * width * channels` for any channel byte
      of any pixel, when `channels >= 3` and `ch < 3`. */
  lemma PixelBytesInRange(height: nat, width: nat, channels: nat, i: nat, j: nat)
    requires i < height && j < width && channels >= 3
    ensures (i * width + j) * channels + 2 < height * width * channels
  {
    RecordIndexInRange(height, width, i, j);
    ChannelBytesInRange(height * width, channels, i * width + j);
  }

  /** Byte `k` of a buffer belongs to record `k / channels`, at channel `k % channels`. */
  lemma SplitOffset(p: nat, channels: nat, ch: nat)
    requires ch < channels
    ensures (p * channels + ch) / channels == p
    ensures (p * channels + ch) % channels == ch
  {
    var k := p * channels + ch;
    var q, m := k / channels, k % channels;
    assert q * channels + m == p * channels + ch;
    if q < p {
      MulMono(q + 1, p, channels);
    } else if q > p {
      MulMono(p + 1, q, channels);
    }
  }

  /** Record `p` of a `height * width` grid is pixel `(p / width, p % width)`. */
  lemma SplitRecord(height: nat, width: nat, p: nat)
    requires p < height * width
    ensures width > 0 && p / width < height && p % width < width
    ensures (p / width) * width + p % width == p
  {
    if width > 0 && p / width >= height {
      MulMono(height, p / width, width);
    }
  }

  /** A byte below `n * channels` belongs to a record below `n`. */
  lemma RecordOfByte(n: nat, channels: nat, k: nat)
    requires channels > 0 && k < n * channels
    ensures k / channels < n
    ensures (k / channels) * channels + k % channels == k
  {
    if k / channels >= n {
      MulMono(n, k / channels, channels);
    }
  }

  /** Byte `k` of a `height * width` grid's buffer belongs to pixel
      `((k / channels) / width, (k / channels) % width)`. */
  lemma PixelOfByte(height: nat, width: nat, channels: nat, k: nat)
    requires channels > 0 && k < height * width * channels
    ensures width > 0 && (k / channels) / width < height && (k / channels) % width < width
  {
    RecordOfByte(height * width, channels, k);
    SplitRecord(height, width, k / channels);
  }
}
