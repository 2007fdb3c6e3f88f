/** The brightness-to-character quantizer of `image2print`: an integer luma
    from red, green and blue, and the palette entry its bucket selects. */
module Quantizer {
  import opened Codepoints

  /** One 8-bit colour channel as an RGBA image reports it. */
  type Channel = c: int | 0 <= c <= 255

  /** The background unit: two spaces, so that an empty cell is as wide as a
      full-width foreground character. */
  const BACKGROUND: Text := [SPACE, SPACE]

  /** Fixed-point BT.601 luma: the weights 19595, 38469 and 7472 sum to 65536,
      and the right shift by 16 of a non-negative number is the floor
      division by 65536. */
  function Luma(r: Channel, g: Channel, b: Channel): (y: int)
    ensures 0 <= y <= 255
    ensures r == g == b ==> y == r
  {
    var weighted := 19595 * r + 38469 * g + 7472 * b;
    assert weighted <= 65536 * 255;
    weighted / 0x1_0000
  }

  /** The palette of `image2print`: the fill unit for dark pixels, then the
      background. */
  function Palette(fill: Text): (p: seq<Text>)
    ensures |p| == 2 && p[0] == fill && p[|p| - 1] == BACKGROUND
  {
    [fill, BACKGROUND]
  }

  /** The bucket a luma falls in when 0..255 is cut into n buckets of width
      256/n. The source divides by the float 256.0/n; with its two-entry
      palette that width is exactly 128.0, so the floor below is the same
      number. No clamping is applied, as in the source. */
  function BucketIndex(gray: int, n: nat): (k: nat)
    requires 0 <= gray <= 255 && n >= 1
    ensures k < n
    ensures k * 256 <= gray * n < (k + 1) * 256
  {
    assert gray * n <= 255 * n;
    (gray * n) / 256
  }

  /** `select_ascii_char`: the palette entry for the pixel's bucket. */
  function SelectUnit(fill: Text, r: Channel, g: Channel, b: Channel): (u: Text)
    ensures Luma(r, g, b) < 128 ==> u == fill
    ensures Luma(r, g, b) >= 128 ==> u == BACKGROUND
    ensures u in Palette(fill)
  {
    var palette := Palette(fill);
    palette[BucketIndex(Luma(r, g, b), |palette|)]
  }

  /** Black has luma 0 and is drawn with the fill unit. */
  lemma BlackSelectsFill(fill: Text)
    ensures Luma(0, 0, 0) == 0
    ensures SelectUnit(fill, 0, 0, 0) == fill
  {
  }

  /** White has luma 255 and is left blank. */
  lemma WhiteSelectsBackground(fill: Text)
    ensures Luma(255, 255, 255) == 255
    ensures SelectUnit(fill, 255, 255, 255) == BACKGROUND
  {
  }

  /** Luma never decreases when no channel decreases. */
  lemma LumaMonotone(r: Channel, g: Channel, b: Channel, r': Channel, g': Channel, b': Channel)
    requires r <= r' && g <= g' && b <= b'
    ensures Luma(r, g, b) <= Luma(r', g', b')
  {
  }

  /** A pixel no brighter, channel by channel, than one drawn with the fill
      unit is drawn with the fill unit too. */
  lemma DarkerStaysForeground(fill: Text, r: Channel, g: Channel, b: Channel, r': Channel, g': Channel, b': Channel)
    requires r <= r' && g <= g' && b <= b'
    requires Luma(r', g', b') < 128
    ensures SelectUnit(fill, r, g, b) == fill
  {
    LumaMonotone(r, g, b, r', g', b');
  }
}
