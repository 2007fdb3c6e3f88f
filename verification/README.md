# zh2emoji core, modelled in Dafny

zh2emoji prints a text banner in the style of figlet. The font draws the banner
text as black glyphs on a white canvas of 400 pixels per character by 450. That
canvas is resized to a preview width, then resized again to the requested
number of columns with the same aspect ratio. After that, every pixel becomes
one text unit. A dark pixel becomes the fill character. A light pixel becomes
two spaces. Each row ends with a newline.

The model covers the pure core of `zh2emoji.py`:

- `Quantizer` covers `select_ascii_char`. It holds the fixed-point BT.601 luma
  `(19595 r + 38469 g + 7472 b) >> 16`, the bucket index `gray / (256 / n)` and
  the two-entry palette `[fill, "  "]`.
- `Raster` covers pixels and images, the canvas size of `word2image`, and the
  aspect-preserving target height `int(width * 1.0 / old_width * old_height)`
  that both resize passes compute.
- `AsciiArt` covers `image2print`. It has the row-major scan as loops (`ScanRow`,
  `Scan`), the same text as a reference definition (`GridText`), and the
  function for the whole call (`ImageToText`).
- `FullWidth` covers `WIDE_MAP` and `widen`. It has the table built the way the
  source builds it, `str.translate` over code points, and an independent
  definition by cases (`WideChar`) together with its inverse.
- `Banner` covers `word2image` and the composition at the end of the script.
  It takes the banner text, the fill, the column count and the widen flag, and
  returns the printed text.
- `Codepoints` holds the text type (a sequence of code points), the error
  results, and the splitting of a text block into its lines.

Text is a sequence of integer code points from 0 to 0x10FFFF, as a Python 3
`str` holds them. The font rasterizer and the image resampler belong to the
imaging library. They are function parameters. The model only assumes that they
return a well-formed image of the size they are asked for (`Banner.Draws`,
`Raster.Resizes`).

Notes on what the code does:

- The script always widens the fill character (zh2emoji.py:141). The `--widen`
  flag only decides whether the banner text is widened (zh2emoji.py:139-140).
- The bucket index is not clamped (zh2emoji.py:54). `Quantizer.BucketIndex`
  proves it never needs to be: for every luma from 0 to 255 and every palette
  length n ≥ 1, the index is below n.
- Not every positive column count succeeds. `Banner.Render` shows a run
  succeeds exactly when the text is non-empty, the column count is
  positive and `columns * (450 / |text|) >= 400`. So a two-character banner at
  one column asks for a resize to height 0. A banner of more than 450
  characters already fails at the preview resize.
- The column count is not checked before the glyphs are drawn. The arguments
  at zh2emoji.py:141 are evaluated left to right, so `word2image` runs first.
  A non-positive count only fails at the second resize. `Banner.Render` has
  the same order: `WordToImage`, then `ImageToText`.

## Model

| member | source | states |
|---|---|---|
| Quantizer.Luma | zh2emoji.py:52 | the luma of any 8-bit r, g, b lies in 0..255, and a grey pixel (r = g = b) keeps its own level, because the three weights sum to 65536 |
| Quantizer.LumaMonotone | zh2emoji.py:52 | raising no channel cannot lower the luma |
| Quantizer.BucketIndex | zh2emoji.py:53-54 | with n buckets of width 256/n, every luma 0..255 lands in a bucket below n, so indexing the palette never goes out of range even without clamping; bucket k holds the lumas from k·256/n up to (k+1)·256/n |
| Quantizer.Palette | zh2emoji.py:48 | the palette has two entries, the fill unit first and the two-space background last |
| Quantizer.SelectUnit | zh2emoji.py:48-54 | a pixel with luma below 128 gives the fill unit, one with luma 128 or more gives the two-space background, and the result is always a palette entry |
| Quantizer.BlackSelectsFill | zh2emoji.py:48-54 | black (0,0,0) has luma 0 and is drawn with the fill unit |
| Quantizer.WhiteSelectsBackground | zh2emoji.py:48-54 | white (255,255,255) has luma exactly 255 and is left as two spaces |
| Quantizer.DarkerStaysForeground | zh2emoji.py:50-54 | a pixel no brighter, channel by channel, than one with luma below 128 is drawn with the fill unit too |
| Raster.CanvasSize | zh2emoji.py:23 | the canvas is 450 high and 400 wide per character, so its width is zero exactly for the empty word |
| Raster.TruncDiv | zh2emoji.py:58 | Python's `int()` of the quotient: for a non-negative numerator it is the floor, for a negative one it truncates toward zero |
| Raster.TargetHeight | zh2emoji.py:58 | an image with no columns gives a division by zero; otherwise, for a non-negative width, the height h satisfies h·old_width ≤ width·old_height < (h+1)·old_width (the aspect ratio kept to within one row) |
| Raster.TargetHeightPositive | zh2emoji.py:58-59 | for a positive width, the height is at least one row exactly when width·old_height ≥ old_width |
| AsciiArt.PixelUnit | zh2emoji.py:63 | only red, green and blue reach the quantizer: a pixel with luma below 128 gives the fill unit, one with luma 128 or more the background, whatever its alpha |
| AsciiArt.GridText | zh2emoji.py:56-65 | the text of the double loop over an image is empty exactly when the image has no rows, and otherwise ends with the newline of the last row; its lines are stated by `AsciiArt.LinesRoundTrip` |
| AsciiArt.RowsFromEnd | zh2emoji.py:61-64 | rows h to height - 1 give no text exactly when there are none, and otherwise their text ends with a newline |
| AsciiArt.ScanRow | zh2emoji.py:62-63 | the inner loop yields the units of pixels (0,h) .. (width-1,h) concatenated, left to right |
| AsciiArt.Scan | zh2emoji.py:56-65 | the double loop yields exactly the reference text: every row's units followed by one newline, top to bottom |
| AsciiArt.NewlineCount | zh2emoji.py:61-64 | with a fill unit free of newlines, the text holds exactly `height` newlines, one per row |
| AsciiArt.LinesRoundTrip | zh2emoji.py:61-64 | splitting the text at newlines gives `height` lines, and line h is row h's text (the units of pixels (0,h) .. (width-1,h) concatenated), in top-to-bottom order |
| AsciiArt.LineStructure | zh2emoji.py:61-64 | every line is exactly `width` units, each the fill unit or the two-space background |
| AsciiArt.TwoPixelRow | zh2emoji.py:61-64 | a one-row image of two pixels prints the unit of the left pixel, then the unit of the right one, then a newline |
| AsciiArt.BlackThenWhite | zh2emoji.py:48-64 | a 2×1 image of a black pixel then a white one prints the fill unit, two spaces and a newline, whatever the alpha values |
| AsciiArt.AlphaIgnored | zh2emoji.py:63 | two images of the same size whose pixels agree on red, green and blue give the same text, whatever their alpha |
| AsciiArt.ImageToText | zh2emoji.py:56-60 | `image2print` succeeds exactly when the image has columns, the width is positive and width·old_height ≥ old_width; a zero-width image gives a division by zero, and any other failure is an empty resize |
| AsciiArt.ImageToTextLines | zh2emoji.py:56-65 | whenever `image2print` succeeds (positive width, width·old_height ≥ old_width), it prints one line per row of the aspect-preserving height, with as many newlines, each line `width` palette units |
| FullWidth.WIDE_MAP | zh2emoji.py:68-69 | the table as the source builds it; `FullWidth.WideMapMatchesWideChar` states that its keys are exactly 0x20..0x7E and gives each entry |
| FullWidth.Translate | zh2emoji.py:76 | `str.translate` keeps the length, replaces every code point found in the table by its entry and keeps every other one |
| FullWidth.WideMapMatchesWideChar | zh2emoji.py:68-69 | the table's keys are exactly 0x20..0x7E, and each entry agrees with the case-by-case definition (0x21..0x7E shifted by 0xFEE0, space to 0x3000) |
| FullWidth.Widen | zh2emoji.py:68-76 | `widen` keeps the length and maps each code point on its own: 0x21..0x7E to c + 0xFEE0, 0x20 to 0x3000, every other code point unchanged |
| FullWidth.WidenIdempotent | zh2emoji.py:68-76 | widening twice equals widening once, because no image of the table lies in 0x20..0x7E |
| FullWidth.NarrowWiden | zh2emoji.py:68-76 | on text with no full-width form in it, narrowing undoes widening |
| FullWidth.WidenInjective | zh2emoji.py:68-76 | two texts with no full-width forms that widen to the same text are equal |
| FullWidth.WidenKeepsNewlines | zh2emoji.py:68-69 | widening neither adds nor removes newlines |
| Raster.PreviewHeight | zh2emoji.py:23-32 | the first resize of a word's 400·n by 450 canvas to width 400 asks for 450 / n rows (the height division cancels the common factor 400) |
| Banner.WordToImage | zh2emoji.py:14-37 | `word2image` succeeds exactly for words of 1 to 450 characters; the empty word gives a division by zero, and a longer word gives an empty resize; on success the image is 400 by 450 / n |
| Banner.Render | zh2emoji.py:139-141 | a run prints text exactly when the banner text is non-empty, the column count is positive and columns·(450 / n) ≥ 400 |
| Banner.RenderLines | zh2emoji.py:139-141 | whenever the run succeeds, the printed text has (columns·(450 / n)) / 400 lines and as many newlines, and every line is `columns` units of the widened fill or two spaces |
| Banner.SingleGlyphTenColumns | zh2emoji.py:23-65 | banner "A" with fill "a" in ten columns prints eleven lines of ten units, each unit the full-width 'ａ' (U+FF41) or two spaces |
| Banner.DEFAULT_REQUEST | zh2emoji.py:117-121 | the command line's defaults: banner "A", fill "a", 40 columns, no widening; `Banner.DefaultRequestLines` states what they print |
| Banner.DefaultRequestLines | zh2emoji.py:117-141 | the defaults (banner "A", fill "a", 40 columns) print 45 lines of 40 units |

## Left out

- Glyph drawing with the TrueType font (zh2emoji.py:27-30). It is the imaging library's rasterizer. `Banner.Draws` only fixes the size of the canvas it returns, not which pixels are dark.
- Nearest-neighbour sampling inside `Image.resize` (zh2emoji.py:33, zh2emoji.py:59). `Raster.Resizes` only fixes the output size. A resize to zero or negative size is modelled as a failure (`InvalidSize`), because the library's behaviour there is not visible from this file.
- Floating point in the height computation (zh2emoji.py:32, zh2emoji.py:58). The model uses the exact quotient truncated toward zero. The double-precision product can differ from it when width·old_height is an exact multiple of old_width and rounding lands just below.
- The `debug` flag and `img.save('test.png')` (zh2emoji.py:34-35), and the final `print` (zh2emoji.py:141). These are I/O. `Banner.Render` returns the text that would be printed.
- Option parsing with `getopt`, `usage()` and `sys.exit(2)`, including `int(arg)` for `-w` (zh2emoji.py:80-138). This is command-line plumbing. `Banner.Request` holds the parsed values.
- The Python 2 shims (zh2emoji.py:9-11) and the `str(s)` coercion in `widen`. The model follows Python 3 over code points.
- `image2print` and `word2image` called with a non-default width from other code. `Banner.WordToImage` uses the default preview width of 400, the only one the script uses. `AsciiArt.ImageToText` takes any width.
