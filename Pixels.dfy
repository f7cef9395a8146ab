/** Decoded RGB pixels and the two per-pixel quantities the classifier uses:
    BT.601 luminance and channel saturation (max minus min). */
module Pixels {

  /** One 8-bit colour channel of an image decoded to RGB. */
  type Channel = c: int | 0 <= c <= 255

  datatype Pixel = Pixel(r: Channel, g: Channel, b: Channel)

  /** The ITU-R BT.601 luma weights; they sum to one. */
  const RedWeight: real := 0.299
  const GreenWeight: real := 0.587
  const BlueWeight: real := 0.114

  function Min(a: int, b: int): int
  {
    if a <= b then a else b
  }

  function Max(a: int, b: int): int
  {
    if a <= b then b else a
  }

  function Max3(a: int, b: int, c: int): (m: int)
    ensures a <= m && b <= m && c <= m
    ensures m == a || m == b || m == c
  {
    Max(a, Max(b, c))
  }

  function Min3(a: int, b: int, c: int): (m: int)
    ensures m <= a && m <= b && m <= c
    ensures m == a || m == b || m == c
  {
    Min(a, Min(b, c))
  }

  /** The absolute value of a real number. */
  function Abs(x: real): (a: real)
    ensures 0.0 <= a && (a == x || a == -x)
  {
    if x < 0.0 then -x else x
  }

  /** Weighted luma of a pixel. Since the weights are non-negative and sum
      to one, it lies between the darkest and the brightest channel; in
      particular it stays in [0, 255] and a grey pixel keeps its value. */
  function Luminance(p: Pixel): (l: real)
    ensures Min3(p.r, p.g, p.b) as real <= l <= Max3(p.r, p.g, p.b) as real
    ensures 0.0 <= l <= 255.0
    ensures p.r == p.g == p.b ==> l == p.r as real
  {
    RedWeight * p.r as real + GreenWeight * p.g as real + BlueWeight * p.b as real
  }

  /** Spread between the largest and the smallest channel: the largest
      pairwise channel distance, zero exactly for grey pixels. */
  function Saturation(p: Pixel): (s: nat)
    ensures s <= 255
    ensures s == 0 <==> p.r == p.g == p.b
    ensures Abs((p.r - p.g) as real) <= s as real
    ensures Abs((p.g - p.b) as real) <= s as real
    ensures Abs((p.r - p.b) as real) <= s as real
    ensures s as real == Abs((p.r - p.g) as real) || s as real == Abs((p.g - p.b) as real)
            || s as real == Abs((p.r - p.b) as real)
  {
    Max3(p.r, p.g, p.b) - Min3(p.r, p.g, p.b)
  }
}
