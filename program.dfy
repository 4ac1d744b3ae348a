/** The part of `main` after decoding and downscaling: the selector `match`
    that runs the assembler over the downscaled image's pixels with the chosen
    palette, and worked scenarios for 4x4 and 8x4 images. */
module Program {
  import opened Brightness
  import opened Palettes
  import opened Dimensions
  import opened AsciiArt

  /** Runs the assembler over the row-major pixels of the downscaled image
      with the palette the selector names; any other selector uses shade. */
  method Render(resized: Grid, selector: string) returns (art: string)
    ensures art == Art(RowMajor(resized), Select(selector), 0)
    ensures selector != "short" && selector != "long" ==> art == Art(RowMajor(resized), Shade(), 0)
  {
    var pixels := RowMajor(resized);
    match selector {
      case "short" => art := GenerateAsciiArt(pixels, Short());
      case "long" => art := GenerateAsciiArt(pixels, Long());
      case "shade" => art := GenerateAsciiArt(pixels, Shade());
      case _ => art := GenerateAsciiArt(pixels, Shade());
    }
  }

  /** Whatever the selector, a downscaled image of `h >= 1` rows of `w >= 1`
      pixels renders as `h` lines of `w` glyphs: exactly `h - 1` line
      breaks, one after every line but the last, the glyph of pixel `(x, y)`
      at `y * (w + 1) + x`, and no line break at either end. */
  lemma RenderLayout(resized: Grid, w: nat, selector: string)
    requires Rectangular(resized, w) && |resized| > 0 && w > 0
    ensures var p := Select(selector);
            var art := Art(RowMajor(resized), p, 0);
            && Count(art, '\n') == |resized| - 1
            && |art| + 1 == |resized| * (w + 1)
            && (forall y, x :: 0 <= y < |resized| && 0 <= x < w ==>
                  HasCharAt(art, TextPosition(w, y, x), GlyphOf(p, resized[y][x])[0]))
            && (forall y :: 0 <= y < |resized| - 1 ==> HasCharAt(art, TextPosition(w, y, w), '\n'))
            && |art| > 0 && art[0] != '\n' && art[|art| - 1] != '\n'
  {
    var p := Select(selector);
    assert NoLineBreaks(p) by {
      forall i | 0 <= i < |p| ensures '\n' !in p[i] {
        assert p[i] == [p[i][0]];
      }
    }
    LineBreakCount(resized, w, p);
    ArtLayout(resized, w, p);
    ArtEnds(resized, w, p);
  }

  /** The end glyphs of the three palettes: black is a space in all of them;
      white is the upper half block in shade, `@` in short and `~` in long. */
  lemma PaletteEnds()
    ensures GlyphOf(Shade(), Rgb(0, 0, 0)) == " "
    ensures GlyphOf(Shade(), Rgb(255, 255, 255)) == "\U{2580}"
    ensures GlyphOf(Short(), Rgb(0, 0, 0)) == " "
    ensures GlyphOf(Short(), Rgb(255, 255, 255)) == "@"
    ensures GlyphOf(Long(), Rgb(0, 0, 0)) == " "
    ensures GlyphOf(Long(), Rgb(255, 255, 255)) == "~"
  {
    GlyphOfExtremes(Shade());
    GlyphOfExtremes(Short());
    GlyphOfExtremes(Long());
    LongIsPrintableAscii();
    assert Long()[0] == [32 as char] && Long()[94] == [126 as char];
  }

  /** A 4x4 image is asked to shrink to 1x1; a solid black pixel then renders
      as a single space with shade, and a solid white one as the upper half
      block. */
  lemma SolidPixelScenarios()
    ensures Requested(Size(4, 4), Scale) == Size(1, 1)
    ensures Art(RowMajor([[Rgb(0, 0, 0)]]), Shade(), 0) == " "
    ensures Art(RowMajor([[Rgb(255, 255, 255)]]), Shade(), 0) == "\U{2580}"
  {
    GlyphOfExtremes(Shade());
    SingleRowScenario([Rgb(0, 0, 0)], Shade());
    SingleRowScenario([Rgb(255, 255, 255)], Shade());
  }

  /** An 8x4 image is asked to shrink to 2x1; with a black pixel left of a
      white one, short renders a space followed by `@`, with no line break. */
  lemma BlackWhiteScenario()
    ensures Requested(Size(8, 4), Scale) == Size(2, 1)
    ensures Art(RowMajor([[Rgb(0, 0, 0), Rgb(255, 255, 255)]]), Short(), 0) == " @"
  {
    var black, white := Rgb(0, 0, 0), Rgb(255, 255, 255);
    var row := [black, white];
    GlyphOfExtremes(Short());
    SingleRowScenario(row, Short());
    assert row[..1] == [black] && [black][..0] == [];
    calc {
      RowText(row, Short());
      RowText([black], Short()) + GlyphOf(Short(), white);
      RowText([], Short()) + GlyphOf(Short(), black) + GlyphOf(Short(), white);
      "" + " " + "@";
    }
  }

  lemma SingleRowScenario(row: seq<Rgb>, p: Palette)
    requires |row| > 0
    ensures Art(RowMajor([row]), p, 0) == RowText(row, p)
  {
    ArtOfGrid([row], |row|, p);
  }
}
