/** The whole run: `word2image` draws the banner text on its canvas and resizes
    it to the preview width, `image2print` turns that image into text, and the
    command line chooses the text, the fill unit, the column count and whether
    the banner text is widened first. */
module Banner {
  import opened Codepoints
  import opened Quantizer
  import opened Raster
  import opened AsciiArt
  import opened FullWidth

  /** A glyph drawer that returns a well-formed canvas of exactly the size it
      is asked for. Which pixels the font darkens is not modelled. */
  ghost predicate Draws(draw: (Text, nat, nat) -> Image)
  {
    forall word, w: nat, h: nat ::
      && draw(word, w, h).Valid()
      && draw(word, w, h).width == w
      && draw(word, w, h).height == h
  }

  /** The options the command line collects. */
  datatype Request = Request(text: Text, fill: Text, columns: int, wide: bool)

  /** The defaults: banner "A", fill "a", 40 columns, no widening. */
  const DEFAULT_REQUEST: Request := Request([0x41], [0x61], DEFAULT_COLUMNS as int, false)

  /** `word2image` with its default preview width: a 400-per-character by 450
      canvas, resized to 400 columns at the same aspect ratio. */
  function WordToImage(word: Text, draw: (Text, nat, nat) -> Image, resize: (Image, nat, nat) -> Image): (r: Result<Image>)
    requires Draws(draw) && Resizes(resize)
    ensures r.Ok? <==> 1 <= |word| <= CANVAS_HEIGHT
    ensures |word| == 0 ==> r == Err(ZeroDivision)
    ensures |word| > CANVAS_HEIGHT ==> r == Err(InvalidSize)
    ensures r.Ok? ==> r.value.Valid() && r.value.width == PREVIEW_WIDTH && r.value.height == CANVAS_HEIGHT / |word|
  {
    var size := CanvasSize(word);
    var canvas := draw(word, size.0, size.1);
    match TargetHeight(PREVIEW_WIDTH, size.0, size.1)
    case Err(e) => Err(e)
    case Ok(height) =>
      PreviewHeight(word);
      if height <= 0 then Err(InvalidSize)
      else Ok(resize(canvas, PREVIEW_WIDTH, height))
  }

  /** The text the run prints. The fill unit is always widened; the banner
      text only when asked. */
  function Render(req: Request, draw: (Text, nat, nat) -> Image, resize: (Image, nat, nat) -> Image): (r: Result<Text>)
    requires Draws(draw) && Resizes(resize)
    ensures r.Ok? <==>
      |req.text| >= 1 && req.columns > 0 && req.columns * (CANVAS_HEIGHT / |req.text|) >= PREVIEW_WIDTH
  {
    var word := if req.wide then Widen(req.text) else req.text;
    match WordToImage(word, draw, resize)
    case Err(e) => Err(e)
    case Ok(img) => ImageToText(img, Widen(req.fill), req.columns, resize)
  }

  /** A banner of n characters has 450 / n rows before the column resize and
      (columns * (450 / n)) / 400 after it, each of `columns` units, with one
      newline per row. */
  lemma RenderLines(req: Request, draw: (Text, nat, nat) -> Image, resize: (Image, nat, nat) -> Image)
    requires Draws(draw) && Resizes(resize) && NEWLINE !in req.fill
    requires |req.text| >= 1 && req.columns > 0 && req.columns * (CANVAS_HEIGHT / |req.text|) >= PREVIEW_WIDTH
    ensures var t := Render(req, draw, resize).value;
      && |SplitLines(t)| == (req.columns * (CANVAS_HEIGHT / |req.text|)) / PREVIEW_WIDTH
      && multiset(t)[NEWLINE] == |SplitLines(t)|
      && forall i :: 0 <= i < |SplitLines(t)| ==> IsRowOf(SplitLines(t)[i], req.columns, Widen(req.fill))
  {
    var word := if req.wide then Widen(req.text) else req.text;
    var img := WordToImage(word, draw, resize).value;
    WidenKeepsNewlines(req.fill);
    ImageToTextLines(img, Widen(req.fill), req.columns, resize);
  }

  /** Banner "A" in ten columns: eleven rows of ten units, each unit the
      full-width 'a' (U+FF41) or two spaces. */
  lemma SingleGlyphTenColumns(draw: (Text, nat, nat) -> Image, resize: (Image, nat, nat) -> Image)
    requires Draws(draw) && Resizes(resize)
    ensures Render(Request([0x41], [0x61], 10, false), draw, resize).Ok?
    ensures var t := Render(Request([0x41], [0x61], 10, false), draw, resize).value;
      && |SplitLines(t)| == 11
      && multiset(t)[NEWLINE] == 11
      && forall i :: 0 <= i < 11 ==> IsRowOf(SplitLines(t)[i], 10, [0xFF41])
  {
    var req := Request([0x41], [0x61], 10, false);
    assert Widen(req.fill) == [0xFF41];
    RenderLines(req, draw, resize);
  }

  /** The default request prints forty-five rows of forty units. */
  lemma DefaultRequestLines(draw: (Text, nat, nat) -> Image, resize: (Image, nat, nat) -> Image)
    requires Draws(draw) && Resizes(resize)
    ensures Render(DEFAULT_REQUEST, draw, resize).Ok?
    ensures var t := Render(DEFAULT_REQUEST, draw, resize).value;
      && |SplitLines(t)| == 45
      && forall i :: 0 <= i < 45 ==> IsRowOf(SplitLines(t)[i], 40, [0xFF41])
  {
    assert Widen(DEFAULT_REQUEST.fill) == [0xFF41];
    RenderLines(DEFAULT_REQUEST, draw, resize);
  }
}
