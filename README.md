# image-to-ascii, modelled in Dafny

`image-to-ascii` is a small command-line program. It decodes an image and
asks the image library to shrink it by a fixed factor of 4 on each side. It
then turns every pixel of the result into one glyph of a character palette
and prints the text. This project models the part that does the turning:

- **Brightness** (`brightness.dfy`). The mean of a pixel's red, green and
  blue channels is truncated to an integer. It is quantised to a palette
  index by rounding `mean / 255 * (len - 1)` to the nearest integer.
- **Palettes** (`palettes.dfy`). There are three literal palettes: short
  with 11 glyphs, long with 95, and shade with 5. The second command-line
  argument selects one of them, and shade is the fallback.
- **Dimensions** (`dimensions.dfy`). The size requested from the image
  library is each side of the decoded image divided by the scale, which is
  fixed at 4.
- **AsciiArt** (`art.dfy`). This is `generate_ascii_art`, modelled as a
  loop. It walks the row-major pixel stream with a row tracker that starts
  at 0. Whenever a pixel's row differs from the tracker, it appends a line
  break. Then it appends the pixel's glyph.
  - The loop is proved equal to a stream function, `Art`.
  - `Art` is then related to the image's grid of rows. The result is the
    row texts joined by single line breaks, with `h - 1` breaks for `h`
    rows.
  - The glyph of pixel `(x, y)` sits at position `y * (w + 1) + x`.
  - The text never starts or ends with a line break.
- **Program** (`program.dfy`). This is the selector `match` of `main`,
  together with the layout guarantee for every selector and worked
  scenarios.

Two choices of the model:

- **Rounding.** The source computes the index in `f64`. The model computes
  it exactly on integers, as `(2*b*(n-1) + 255) / 510`.
  - `Brightness.IndexIsRoundedProportion` proves that this is the
    half-away-from-zero rounding of the exact real `b / 255 * (n - 1)`,
    which is what `f64::round` does.
  - It also proves that this real number always lies at least 1/510 away
    from a half-way point.
  - Taking the integer formula to stand for the floating-point one
    therefore assumes only that the `f64` error stays below 1/510. For
    numbers this small it is many orders of magnitude below that.
- **The long palette.** The literal at `src/main.rs:58-65` holds 95
  glyphs: every printable ASCII character from space to `~`
  (`Palettes.LongIsPrintableAscii`).

## Model

| member | source | states |
|---|---|---|
| Brightness.Mean | src/main.rs:35 | The truncated mean `m` of the three channels lies in 0..255. Their sum lies in `[3m, 3m+3)`. The `u64` sum cannot wrap, since it is at most 765. |
| Brightness.Index | src/main.rs:36 | The index lies within the palette (`0 <= i < n`). It is the integer strictly within one half of `b*(n-1)/255`, stated as `510i-255 < 2b(n-1) < 510i+255`. |
| Brightness.GlyphIndex | src/main.rs:34-36 | The index a pixel selects in a palette of `n >= 1` glyphs is always a valid index, so `characters[character_position]` never goes out of bounds. |
| Brightness.RoundHalfAwayFromZero | src/main.rs:36 | `f64::round` on a non-negative value gives an integer `k >= 0` with `k - 1/2 <= x < k + 1/2`, so ties go up. |
| Brightness.IndexUnique | src/main.rs:36 | At most one integer is within one half of `b*(n-1)/255`, so `Index`'s contract pins the rounded index down. |
| Brightness.Endpoints | src/main.rs:36 | Mean 0 selects index 0. Mean 255 selects the last index `n-1`. |
| Brightness.IndexMonotone | src/main.rs:36 | A larger mean never selects a smaller index. |
| Brightness.GlyphIndexMonotone | src/main.rs:34-36 | A pixel at least as bright in every channel never selects an earlier glyph. |
| Brightness.IndexIsRoundedProportion | src/main.rs:36 | The integer index equals round-half-away-from-zero of the real `(b/255)*(n-1)`. That real is at least 1/510 from any half-way point. |
| Palettes.Short | src/main.rs:57 | The short palette has 11 single-character glyphs, from space to `@`. |
| Palettes.Long | src/main.rs:58-65 | The long palette has 95 glyphs, built from the six source lines of the literal. |
| Palettes.LongIsPrintableAscii | src/main.rs:58-65 | Glyph `i` of the long palette is the single character with code point `32 + i`, for all 95 glyphs. So it is every printable ASCII character in order, and none is a line break. |
| Palettes.Shade | src/main.rs:66 | The shade palette has 5 single-character glyphs, from space to the upper half block U+2580. |
| Palettes.Select | src/main.rs:73-78 | The selected palette has single-character glyphs. It has 11 glyphs for "short", 95 for "long" and 5 for anything else. |
| Palettes.UnknownSelectorIsShade | src/main.rs:76-77 | A selector other than the three names gives exactly the shade palette. |
| Dimensions.Requested | src/main.rs:9-12 | Each requested side is the floor of the original side divided by the scale: `t*s <= side < (t+1)*s`. |
| Dimensions.RequestedWithFixedScale | src/main.rs:11-12 | With the fixed scale, each side is a quarter of the original, rounded down. It is never larger than the original. It is 0 exactly when the original side is below 4. |
| Dimensions.RequestedMonotone | src/main.rs:11-12 | A larger original never requests a smaller target, side by side. |
| Dimensions.RequestedExactMultiple | src/main.rs:11-12 | A `4w x 4h` image requests exactly `w x h`. |
| AsciiArt.GlyphOf | src/main.rs:34-37 | The glyph a pixel pushes is a member of the palette. With single-character glyphs it is one character and not a line break. |
| AsciiArt.GlyphOfExtremes | src/main.rs:34-37 | Black pushes the first glyph of any palette. White pushes the last. |
| AsciiArt.Art | src/main.rs:26-39 | Defines the text of a pixel stream: for each sample in order, a line break if its row differs from the tracker (which starts at 0), then its glyph, after which the tracker moves to that row. With one-character glyphs, the text is empty exactly when the stream is empty. |
| AsciiArt.GenerateAsciiArt | src/main.rs:25-40 | The loop, with its `last_y` tracker starting at 0, returns exactly the stream text `Art(pixels, characters, 0)`. |
| AsciiArt.ArtAppend | src/main.rs:28-38 | The text of a concatenated stream is the text of the first part followed by the text of the second. The second part starts from the row the first left in the tracker. |
| AsciiArt.ArtIsPieces | src/main.rs:28-38 | The text is the concatenation, in stream order, of one piece per pixel. Each piece is a line break exactly when the pixel's row differs from the previous pixel's row (or from 0 for the first), followed by the pixel's own glyph. |
| AsciiArt.RowMajor | src/main.rs:28 | Defines the `Pixels` enumeration order: row 0 first, rows top to bottom, each row left to right. Every item is a pixel `(x, y)` of the image, carrying that pixel's colour. |
| AsciiArt.RowMajorAt | src/main.rs:28 | The pixel stream of an `h x w` image has `h*w` items. Item `y*w + x` is pixel `(x, y)` with its colour. |
| AsciiArt.ArtOfRow | src/main.rs:29-37 | One row of pixels contributes a line break if the tracker holds another row, then the row's glyphs. The tracker then holds that row. |
| AsciiArt.ArtOfEmptyGrid | src/main.rs:28-39 | An image with zero-width rows has an empty stream and yields empty text. |
| AsciiArt.ArtOfGrid | src/main.rs:28-39 | For rows of `w >= 1` pixels, the text is the row texts joined by single line breaks, and the tracker ends on the last row. |
| AsciiArt.LineBreakCount | src/main.rs:29-31 | An image of `h >= 1` rows yields exactly `h - 1` line breaks when its width is positive, and none when its width is 0. |
| AsciiArt.RowTextAt | src/main.rs:37 | With single-character glyphs, the text of a row has one character per pixel. Character `x` is pixel `x`'s glyph. |
| AsciiArt.JoinLinesAt | src/main.rs:29-37 | Lines of `w` characters joined by line breaks place character `x` of line `y` at `y*(w+1)+x`. They place a line break at `y*(w+1)+w` after every line but the last. |
| AsciiArt.ArtLayout | src/main.rs:25-40 | For an `h x w` image with single-character glyphs, the text has length `h*(w+1)-1`. The glyph of pixel `(x, y)` is at `y*(w+1)+x`, and a line break ends every line but the last. |
| AsciiArt.ArtEnds | src/main.rs:25-40 | The text of a non-empty image with single-character glyphs neither starts nor ends with a line break. |
| Program.Render | src/main.rs:73-78 | Running the assembler over the downscaled image yields the stream text with the selected palette. An unknown selector yields the shade text. |
| Program.RenderLayout | src/main.rs:73-80 | For every selector, an `h x w` image with `h, w >= 1` prints `h` lines of `w` glyphs. There are exactly `h-1` line breaks, one after each line but the last, and the glyph of pixel `(x, y)` is at `y*(w+1)+x`. |
| Program.PaletteEnds | src/main.rs:57-66 | Black is a space in all three palettes. White is U+2580 in shade, `@` in short and `~` in long. |
| Program.SolidPixelScenarios | src/main.rs:69-77 | A 4x4 image requests 1x1. One black pixel renders as a space with shade, and one white pixel as U+2580. |
| Program.BlackWhiteScenario | src/main.rs:69-74 | An 8x4 image requests 2x1. A black pixel left of a white one renders as `" @"` with short, with no line break. |
| Program.SingleRowScenario | src/main.rs:28-38 | A one-row image renders as its row text with no line break. |

## Left out

- Image decoding (`open_image`, `src/main.rs:5-7`) belongs to the image library and is not modelled.
- The `match`/`panic!` on a decoding error (`src/main.rs:52-55`) is process plumbing in `main` and is not modelled.
- The resampling inside `DynamicImage::resize` (`src/main.rs:10-14`) is not modelled. The library fits the image inside the requested box and keeps the aspect ratio, so one side can come out smaller than requested. For example, a 10x400 image asks for 2x100 and gets 2x80. The model does not relate the requested size (`Dimensions.Requested`) to the size of the downscaled grid. That grid is an input of `Program.Render`: any grid of rows.
- The `Pixels` iterator type is modelled as a row-major sequence of `(x, y, colour)` samples (`AsciiArt.RowMajor`). The alpha channel is never read, so it is not modelled.
- Command-line argument handling (`src/main.rs:46-48`) is not modelled. Neither are the `println!`/`print!` output calls. The selector string is a parameter, and the art is a result.
- Brightness.Index: uses exact integer arithmetic in place of the `f64` expression at `src/main.rs:36`. The equality with the source assumes that floating-point error stays below the 1/510 margin that `Brightness.IndexIsRoundedProportion` proves.
- Dimensions.Requested: requires a positive scale, because unsigned division by zero in the source aborts the program rather than yielding 0. The program itself always passes 4.
- The text is modelled as a sequence of Unicode characters, so the lengths and positions in `AsciiArt.ArtLayout`, `AsciiArt.JoinLinesAt` and `Program.RenderLayout` count characters. The Rust `String` counts UTF-8 bytes, in which each shade glyph other than the space takes 3 bytes. The printed text is the same.
- AsciiArt.ArtLayout: requires one-character glyphs, which holds for all three palettes (`Palettes.Select`). Multi-character glyphs are not part of the program.
