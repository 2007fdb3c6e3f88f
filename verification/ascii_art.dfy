/** `image2print`: the second resize to the requested column count, then a
    row-major scan that replaces every pixel by its palette unit and ends
    every row with a newline. */
module AsciiArt {
  import opened Codepoints
  import opened Quantizer
  import opened Raster

  /** The unit for one pixel; only red, green and blue are passed on. */
  function PixelUnit(p: Pixel, fill: Text): (u: Text)
    ensures Luma(p.r, p.g, p.b) < 128 ==> u == fill
    ensures Luma(p.r, p.g, p.b) >= 128 ==> u == BACKGROUND
  {
    SelectUnit(fill, p.r, p.g, p.b)
  }

  /** The units of row h, left to right. */
  function RowUnits(img: Image, h: nat, fill: Text): (units: seq<Text>)
    requires img.Valid() && h < img.height
  {
    seq(img.width, w requires 0 <= w < img.width => PixelUnit(img.rows[h][w], fill))
  }

  /** The text of row h: its units concatenated, without terminator. */
  function RowText(img: Image, h: nat, fill: Text): (line: Text)
    requires img.Valid() && h < img.height
  {
    Flatten(RowUnits(img, h, fill))
  }

  /** Rows h .. height - 1, each followed by one newline, top to bottom. */
  function RowsFrom(img: Image, fill: Text, h: nat): (t: Text)
    requires img.Valid() && h <= img.height
    decreases img.height - h
  {
    if h == img.height then []
    else RowText(img, h, fill) + [NEWLINE] + RowsFrom(img, fill, h + 1)
  }

  /** Rows h .. height - 1 are empty exactly when there are none, and
      otherwise end with the last row's newline. */
  lemma {:induction false} RowsFromEnd(img: Image, fill: Text, h: nat)
    requires img.Valid() && h <= img.height
    ensures RowsFrom(img, fill, h) == [] <==> h == img.height
    ensures h < img.height ==> RowsFrom(img, fill, h)[|RowsFrom(img, fill, h)| - 1] == NEWLINE
    decreases img.height - h
  {
    if h < img.height {
      var row: Text, rest: Text := RowText(img, h, fill), RowsFrom(img, fill, h + 1);
      var t := row + [NEWLINE] + rest;
      assert RowsFrom(img, fill, h) == t;
      RowsFromEnd(img, fill, h + 1);
      if rest != [] {
        assert t[|t| - 1] == rest[|rest| - 1];
      }
    }
  }

  /** The texts of rows h .. height - 1, top to bottom, without terminators. */
  function RowList(img: Image, fill: Text, h: nat): (rows: seq<Text>)
    requires img.Valid() && h <= img.height
    decreases img.height - h
  {
    if h == img.height then [] else [RowText(img, h, fill)] + RowList(img, fill, h + 1)
  }

  /** The text block a scan of the whole image produces: empty for an image
      without rows, and otherwise ending in the last row's newline. */
  function GridText(img: Image, fill: Text): (t: Text)
    requires img.Valid()
    ensures t == [] <==> img.height == 0
    ensures img.height > 0 ==> t[|t| - 1] == NEWLINE
  {
    RowsFromEnd(img, fill, 0);
    RowsFrom(img, fill, 0)
  }

  /** A line made of exactly `width` palette units. */
  ghost predicate IsRowOf(line: Text, width: nat, fill: Text)
  {
    exists units: seq<Text> ::
      && |units| == width
      && (forall k :: 0 <= k < |units| ==> units[k] in Palette(fill))
      && line == Flatten(units)
  }

  /** The inner loop of `image2print` for row h: one unit per pixel, left to
      right. */
  method ScanRow(img: Image, h: nat, fill: Text) returns (line: Text)
    requires img.Valid() && h < img.height
    ensures line == Flatten(RowUnits(img, h, fill))
  {
    ghost var units := RowUnits(img, h, fill);
    line := [];
    var w := 0;
    while w < img.width
      invariant 0 <= w <= img.width
      invariant line == Flatten(units[..w])
    {
      var unit := PixelUnit(img.rows[h][w], fill);
      FlattenAppend(units[..w], unit);
      assert units[..w + 1] == units[..w] + [unit];
      line := line + unit;
      w := w + 1;
    }
    assert units[..w] == units;
  }

  /** The outer loop of `image2print` over an already-resized image: every
      row's units, then a newline, top to bottom. */
  method Scan(img: Image, fill: Text) returns (txt: Text)
    requires img.Valid()
    ensures txt == GridText(img, fill)
  {
    txt := [];
    var h := 0;
    while h < img.height
      invariant 0 <= h <= img.height
      invariant txt + RowsFrom(img, fill, h) == GridText(img, fill)
    {
      var line := ScanRow(img, h, fill);
      txt := txt + line + [NEWLINE];
      h := h + 1;
    }
  }

  lemma RowHasNoNewline(img: Image, h: nat, fill: Text)
    requires img.Valid() && h < img.height && NEWLINE !in fill
    ensures NEWLINE !in RowText(img, h, fill)
  {
    var units := RowUnits(img, h, fill);
    forall k | 0 <= k < |units|
      ensures NEWLINE !in units[k]
    {
      assert units[k] in Palette(fill);
    }
    FlattenNoNewline(units);
  }

  /** With a fill unit free of newlines, rows h .. height - 1 hold one newline
      each. */
  lemma {:induction false} NewlinesFrom(img: Image, fill: Text, h: nat)
    requires img.Valid() && h <= img.height && NEWLINE !in fill
    ensures multiset(RowsFrom(img, fill, h))[NEWLINE] == img.height - h
    decreases img.height - h
  {
    if h < img.height {
      var row: Text, rest: Text := RowText(img, h, fill), RowsFrom(img, fill, h + 1);
      assert RowsFrom(img, fill, h) == row + [NEWLINE] + rest;
      RowHasNoNewline(img, h, fill);
      NewlineCountStep(row, rest);
      NewlinesFrom(img, fill, h + 1);
    }
  }

  /** With a fill unit free of newlines the block holds one newline per row. */
  lemma NewlineCount(img: Image, fill: Text)
    requires img.Valid() && NEWLINE !in fill
    ensures multiset(GridText(img, fill))[NEWLINE] == img.height
  {
    NewlinesFrom(img, fill, 0);
  }

  /** Reading rows h .. height - 1 back line by line gives the rows' texts,
      in order. */
  lemma {:induction false} SplitRowsFrom(img: Image, fill: Text, h: nat)
    requires img.Valid() && h <= img.height && NEWLINE !in fill
    ensures SplitLines(RowsFrom(img, fill, h)) == RowList(img, fill, h)
    decreases img.height - h
  {
    if h < img.height {
      var row: Text, rest: Text := RowText(img, h, fill), RowsFrom(img, fill, h + 1);
      assert RowsFrom(img, fill, h) == row + [NEWLINE] + rest;
      RowHasNoNewline(img, h, fill);
      SplitFirstLine(row, rest);
      SplitRowsFrom(img, fill, h + 1);
    }
  }

  /** Entry k - h of the row list is row k. */
  lemma {:induction false} RowListIndex(img: Image, fill: Text, h: nat)
    requires img.Valid() && h <= img.height
    ensures |RowList(img, fill, h)| == img.height - h
    ensures forall k :: h <= k < img.height ==> RowList(img, fill, h)[k - h] == RowText(img, k, fill)
    decreases img.height - h
  {
    if h < img.height {
      RowListIndex(img, fill, h + 1);
      var rows, rest := RowList(img, fill, h), RowList(img, fill, h + 1);
      assert rows == [RowText(img, h, fill)] + rest;
      forall k | h < k < img.height
        ensures rows[k - h] == RowText(img, k, fill)
      {
        var i := k - (h + 1);
        assert rest[i] == RowText(img, k, fill);
        assert rows[i + 1] == rest[i];
      }
    }
  }

  /** Reading the block back line by line gives, for each row h in top-to-bottom
      order, the units of pixels (0, h) .. (width - 1, h) concatenated. */
  lemma LinesRoundTrip(img: Image, fill: Text)
    requires img.Valid() && NEWLINE !in fill
    ensures |SplitLines(GridText(img, fill))| == img.height
    ensures forall h :: 0 <= h < img.height ==> SplitLines(GridText(img, fill))[h] == RowText(img, h, fill)
  {
    SplitRowsFrom(img, fill, 0);
    RowListIndex(img, fill, 0);
    assert SplitLines(GridText(img, fill)) == RowList(img, fill, 0);
  }

  /** Every line of the block is `width` palette units. */
  lemma LineStructure(img: Image, fill: Text)
    requires img.Valid() && NEWLINE !in fill
    ensures |SplitLines(GridText(img, fill))| == img.height
    ensures forall h :: 0 <= h < img.height ==> IsRowOf(SplitLines(GridText(img, fill))[h], img.width, fill)
  {
    var lines := SplitLines(GridText(img, fill));
    LinesRoundTrip(img, fill);
    forall h | 0 <= h < img.height
      ensures IsRowOf(lines[h], img.width, fill)
    {
      RowIsRowOf(img, h, fill);
      assert lines[h] == RowText(img, h, fill);
    }
  }

  lemma RowIsRowOf(img: Image, h: nat, fill: Text)
    requires img.Valid() && h < img.height
    ensures IsRowOf(RowText(img, h, fill), img.width, fill)
  {
  }

  /** A one-row image of two pixels prints the two units, then a newline. */
  lemma TwoPixelRow(img: Image, fill: Text)
    requires img.Valid() && img.width == 2 && img.height == 1
    ensures GridText(img, fill) == PixelUnit(img.rows[0][0], fill) + PixelUnit(img.rows[0][1], fill) + [NEWLINE]
  {
    var units := RowUnits(img, 0, fill);
    var left, right := PixelUnit(img.rows[0][0], fill), PixelUnit(img.rows[0][1], fill);
    assert units == [left, right];
    assert units[1..] == [right];
    assert Flatten(units[1..]) == right + Flatten([]);
    assert RowText(img, 0, fill) == left + right;
    assert RowsFrom(img, fill, 1) == [];
  }

  /** A black pixel beside a white one prints the fill unit, two spaces and a
      newline, whatever the two alpha values. */
  lemma BlackThenWhite(fill: Text, a: Channel, a': Channel)
    ensures GridText(Image(2, 1, [[Pixel(0, 0, 0, a), Pixel(255, 255, 255, a')]]), fill)
         == fill + BACKGROUND + [NEWLINE]
  {
    var black, white := Pixel(0, 0, 0, a), Pixel(255, 255, 255, a');
    var img := Image(2, 1, [[black, white]]);
    assert img.Valid();
    TwoPixelRow(img, fill);
    BlackSelectsFill(fill);
    WhiteSelectsBackground(fill);
  }

  /** Two images of one size whose pixels agree on red, green and blue give
      the same text, whatever their alpha channels hold. */
  lemma AlphaIgnored(img: Image, img': Image, fill: Text)
    requires img.Valid() && img'.Valid()
    requires img.width == img'.width && img.height == img'.height
    requires forall h, w :: 0 <= h < img.height && 0 <= w < img.width ==>
      img.rows[h][w].r == img'.rows[h][w].r
      && img.rows[h][w].g == img'.rows[h][w].g
      && img.rows[h][w].b == img'.rows[h][w].b
    ensures GridText(img, fill) == GridText(img', fill)
  {
    AlphaIgnoredFrom(img, img', fill, 0);
  }

  lemma {:induction false} AlphaIgnoredFrom(img: Image, img': Image, fill: Text, h: nat)
    requires img.Valid() && img'.Valid()
    requires img.width == img'.width && img.height == img'.height && h <= img.height
    requires forall h, w :: 0 <= h < img.height && 0 <= w < img.width ==>
      img.rows[h][w].r == img'.rows[h][w].r
      && img.rows[h][w].g == img'.rows[h][w].g
      && img.rows[h][w].b == img'.rows[h][w].b
    ensures RowsFrom(img, fill, h) == RowsFrom(img', fill, h)
    decreases img.height - h
  {
    if h < img.height {
      assert RowUnits(img, h, fill) == RowUnits(img', h, fill);
      AlphaIgnoredFrom(img, img', fill, h + 1);
    }
  }

  /** `image2print` on an image of any size: the column count and the
      aspect-preserving height, the resize, then the scan. */
  function ImageToText(img: Image, fill: Text, width: int, resize: (Image, nat, nat) -> Image): (r: Result<Text>)
    requires Resizes(resize)
    ensures r.Ok? <==> img.width > 0 && width > 0 && width * img.height >= img.width
    ensures img.width == 0 ==> r == Err(ZeroDivision)
    ensures img.width > 0 && !r.Ok? ==> r == Err(InvalidSize)
  {
    match TargetHeight(width, img.width, img.height)
    case Err(e) => Err(e)
    case Ok(height) =>
      if width <= 0 then Err(InvalidSize)
      else
        TargetHeightPositive(width, img.width, img.height);
        if height <= 0 then Err(InvalidSize)
        else Ok(GridText(resize(img, width, height), fill))
  }

  /** A successful `image2print` has one line per row of the aspect-preserving
      height, each of exactly `width` palette units, and as many newlines. */
  lemma ImageToTextLines(img: Image, fill: Text, width: int, resize: (Image, nat, nat) -> Image)
    requires Resizes(resize) && NEWLINE !in fill
    requires img.width > 0 && width > 0 && width * img.height >= img.width
    ensures var t := ImageToText(img, fill, width, resize).value;
      && |SplitLines(t)| == TargetHeight(width, img.width, img.height).value
      && multiset(t)[NEWLINE] == |SplitLines(t)|
      && forall i :: 0 <= i < |SplitLines(t)| ==> IsRowOf(SplitLines(t)[i], width, fill)
  {
    var height := TargetHeight(width, img.width, img.height).value;
    var scaled := resize(img, width, height);
    LineStructure(scaled, fill);
    NewlineCount(scaled, fill);
  }
}
