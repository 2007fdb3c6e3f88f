/** Pixel grids, the glyph canvas size of `word2image`, and the
    aspect-preserving target height both resize passes compute. */
module Raster {
  import opened Codepoints
  import opened Quantizer

  /** One RGBA pixel as `getpixel` returns it. */
  datatype Pixel = Pixel(r: Channel, g: Channel, b: Channel, a: Channel)

  /** An image of `width` columns and `height` rows; `rows[h][w]` is the pixel
      at column w of row h, the one `getpixel((w, h))` reads. */
  datatype Image = Image(width: nat, height: nat, rows: seq<seq<Pixel>>)
  {
    ghost predicate Valid()
    {
      |rows| == height && forall h :: 0 <= h < |rows| ==> |rows[h]| == width
    }
  }

  /** A resampler that, asked for a positive size, returns a well-formed image
      of exactly that size. Which source pixel each output pixel samples is
      the imaging library's business and is not modelled. */
  ghost predicate Resizes(resize: (Image, nat, nat) -> Image)
  {
    forall img, w: nat, h: nat ::
      w > 0 && h > 0 ==>
        && resize(img, w, h).Valid()
        && resize(img, w, h).width == w
        && resize(img, w, h).height == h
  }

  /** Point size of the glyph font, and so the canvas width per character. */
  const GLYPH_SIZE: nat := 400
  /** Canvas height: one glyph with a small margin. */
  const CANVAS_HEIGHT: nat := 450
  /** Default width of the first (preview) resize in `word2image`. */
  const PREVIEW_WIDTH: nat := 400
  /** Default column count of `image2print` and of the command line. */
  const DEFAULT_COLUMNS: nat := 40

  /** `word2image`'s canvas: 400 pixels per character by 450. */
  function CanvasSize(word: Text): (size: (nat, nat))
    ensures size.1 == CANVAS_HEIGHT
    ensures size.0 == 0 <==> |word| == 0
    ensures size.0 / GLYPH_SIZE == |word| && size.0 % GLYPH_SIZE == 0
  {
    (GLYPH_SIZE * |word|, CANVAS_HEIGHT)
  }

  /** Python's `int()` of an exact quotient: division truncated toward zero. */
  function TruncDiv(a: int, b: int): (q: int)
    requires b > 0
    ensures a >= 0 ==> 0 <= q && q * b <= a < (q + 1) * b
    ensures a < 0 ==> q <= 0 && (-q) * b <= -a < (-q + 1) * b
  {
    if a >= 0 then
      FloorBounds(a, b);
      a / b
    else
      FloorBounds(-a, b);
      -((-a) / b)
  }

  lemma FloorBounds(a: int, b: int)
    requires a >= 0 && b > 0
    ensures 0 <= a / b && (a / b) * b <= a < (a / b + 1) * b
  {
  }

  /** `int(width * 1.0 / old_width * old_height)`: the height that keeps the
      aspect ratio at the new width, or a division by zero for an image with
      no columns. */
  function TargetHeight(width: int, oldWidth: nat, oldHeight: nat): (r: Result<int>)
    ensures r.Err? <==> oldWidth == 0
    ensures r.Err? ==> r.error == ZeroDivision
    ensures r.Ok? && width >= 0 ==>
      0 <= r.value && r.value * oldWidth <= width * oldHeight < (r.value + 1) * oldWidth
    ensures r.Ok? && width < 0 ==> r.value <= 0
  {
    if oldWidth == 0 then Err(ZeroDivision)
    else Ok(TruncDiv(width * oldHeight, oldWidth))
  }

  /** The height is at least one row exactly when the new width times the old
      height reaches the old width. */
  lemma TargetHeightPositive(width: int, oldWidth: nat, oldHeight: nat)
    requires oldWidth > 0 && width > 0
    ensures TargetHeight(width, oldWidth, oldHeight).value >= 1 <==> width * oldHeight >= oldWidth
  {
  }

  /** Dividing both sides of a quotient by the same factor changes nothing. */
  lemma DivCancel(a: nat, c: nat, n: nat)
    requires c > 0 && n > 0
    ensures (c * a) / (c * n) == a / n
  {
    var q, m := a / n, a % n;
    assert a == q * n + m;
    assert c * a == q * (c * n) + c * m;
    assert 0 <= c * m < c * n;
    DivUnique(c * a, c * n, q, c * m);
  }

  lemma DivUnique(x: int, d: int, q: int, m: int)
    requires d > 0 && x == q * d + m && 0 <= m < d
    ensures x / d == q
  {
    var q', m' := x / d, x % d;
    assert (q - q') * d == m' - m;
    SmallMultipleIsZero(q - q', d);
  }

  lemma SmallMultipleIsZero(k: int, d: int)
    requires d > 0 && -d < k * d < d
    ensures k == 0
  {
  }

  /** The first resize of a word's canvas to the preview width keeps
      450 / |word| rows. */
  lemma PreviewHeight(word: Text)
    requires |word| > 0
    ensures TargetHeight(PREVIEW_WIDTH, CanvasSize(word).0, CanvasSize(word).1) == Ok(CANVAS_HEIGHT / |word|)
  {
    DivCancel(CANVAS_HEIGHT, GLYPH_SIZE, |word|);
  }
}
