/** Pixels and the per-pixel rules of the point filters. */
module Pixels {

  /** An `unsigned char`: one colour channel, or one byte of a file or buffer. */
  type Byte = x: int | 0 <= x < 256

  /** The `Pixel` record: three 8-bit channels. */
  datatype Pixel = Pixel(r: Byte, g: Byte, b: Byte)

  const White := Pixel(255, 255, 255)
  const Black := Pixel(0, 0, 0)

  /** Channel `ch` of a pixel, in record order (0 = red, 1 = green, 2 = blue). */
  function ChannelOf(p: Pixel, ch: nat): Byte
    requires ch < 3
  {
    if ch == 0 then p.r else if ch == 1 then p.g else p.b
  }

  function Min3(x: int, y: int, z: int): int {
    if x <= y && x <= z then x else if y <= z then y else z
  }

  function Max3(x: int, y: int, z: int): int {
    if x >= y && x >= z then x else if y >= z then y else z
  }

  /** `(r + g + b) / 3` on the channels promoted to `int`; the mean lies between the
      smallest and the largest channel, so it always fits back into a byte. */
  function Gray(p: Pixel): (v: Byte)
    ensures Min3(p.r, p.g, p.b) <= v <= Max3(p.r, p.g, p.b)
  {
    (p.r + p.g + p.b) / 3
  }

  predicate IsGray(p: Pixel) {
    p.r == p.g == p.b
  }

  /** The grayscale rule: every channel becomes the gray level of the pixel.
      A pixel that is already gray is a fixed point. */
  function GrayscalePixel(p: Pixel): (q: Pixel)
    ensures IsGray(q) && q.r == Gray(p)
    ensures IsGray(p) ==> q == p
  {
    var v := Gray(p);
    Pixel(v, v, v)
  }

  lemma GrayscalePixelIdempotent(p: Pixel)
    ensures GrayscalePixel(GrayscalePixel(p)) == GrayscalePixel(p)
  {
  }

  /** The invert rule: each channel becomes `255 - c`. */
  function InvertPixel(p: Pixel): (q: Pixel)
    ensures q.r + p.r == 255 && q.g + p.g == 255 && q.b + p.b == 255
  {
    Pixel(255 - p.r, 255 - p.g, 255 - p.b)
  }

  lemma InvertPixelInvolutive(p: Pixel)
    ensures InvertPixel(InvertPixel(p)) == p
  {
  }

  /** `std::min(255, c + factor)` for a non-negative factor: never below the input,
      never above 255, and equal to `c + factor` exactly when that fits. */
  function Brighten(c: Byte, factor: nat): (v: Byte)
    ensures c <= v
    ensures v == c + factor <==> c + factor <= 255
    ensures v != c + factor ==> v == 255
  {
    if c + factor < 255 then c + factor else 255
  }

  /** Every channel brightened: never darker, at most `factor` brighter, and either
      exactly `factor` brighter or saturated at 255, i.e. `min(255, c + factor)`. */
  function BrightnessPixel(p: Pixel, factor: nat): (q: Pixel)
    ensures forall ch :: 0 <= ch < 3 ==>
              ChannelOf(p, ch) <= ChannelOf(q, ch) <= ChannelOf(p, ch) + factor &&
              (ChannelOf(q, ch) == ChannelOf(p, ch) + factor || ChannelOf(q, ch) == 255)
  {
    Pixel(Brighten(p.r, factor), Brighten(p.g, factor), Brighten(p.b, factor))
  }

  lemma BrightnessSaturates()
    ensures BrightnessPixel(Pixel(200, 200, 200), 300) == White
  {
  }

  /** `std::clamp(x, 0, 255)`. */
  function Clamp(x: int): (v: Byte)
    ensures 0 <= x <= 255 ==> v == x
    ensures x < 0 ==> v == 0
    ensures 255 < x ==> v == 255
  {
    if x < 0 then 0 else if 255 < x then 255 else x
  }

  /** The threshold rule: white exactly when the gray level exceeds `level`, black otherwise. */
  function ThresholdPixel(p: Pixel, level: Byte): (q: Pixel)
    ensures q == White || q == Black
    ensures q == White <==> Gray(p) > level
  {
    if Gray(p) > level then White else Black
  }
}
