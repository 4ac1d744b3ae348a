/** The three literal glyph palettes of `main`, ordered from the glyph used for
    the darkest mean (index 0) to the one used for the brightest, and the
    selector that picks one of them. */
module Palettes {

  /** A glyph is the text appended for one pixel. */
  type Glyph = string

  /** A palette is never empty: every palette of the program is a non-empty
      literal, and the index arithmetic subtracts one from its length. */
  type Palette = p: seq<Glyph> | |p| > 0 witness [" "]

  /** Every glyph is exactly one character and none is a line break, so the
      text of the art can be read back position by position. */
  predicate SingleCharGlyphs(p: seq<Glyph>)
  {
    forall i :: 0 <= i < |p| ==> |p[i]| == 1 && p[i][0] != '\n'
  }

  /** `glyphs` are the one-character strings of consecutive code points
      starting at `first`. */
  predicate CodePointsFrom(first: int, glyphs: seq<Glyph>)
  {
    && 0 <= first
    && first + |glyphs| <= 0xD800
    && forall i :: 0 <= i < |glyphs| ==> glyphs[i] == [(first + i) as char]
  }

  /** The 11-glyph "short" palette. */
  function Short(): (p: Palette)
    ensures |p| == 11
    ensures SingleCharGlyphs(p)
    ensures p[0] == " " && p[10] == "@"
  {
    [" ", "'", ",", ".", ":", ";", "L", "O", "0", "#", "@"]
  }

  /** The "long" literal, one source line at a time. */
  function LongLine(j: nat): (line: seq<Glyph>)
    requires j < 6
  {
    match j
    case 0 => [" ", "!", "\"", "#", "$", "%", "&", "'", "(", ")", "*", "+", ",", "-", ".", "/", "0", "1"]
    case 1 => ["2", "3", "4", "5", "6", "7", "8", "9", ":", ";", "<", "=", ">", "?", "@", "A", "B", "C"]
    case 2 => ["D", "E", "F", "G", "H", "I", "J", "K", "L", "M", "N", "O", "P", "Q", "R", "S", "T", "U"]
    case 3 => ["V", "W", "X", "Y", "Z", "[", "\\", "]", "^", "_", "`", "a", "b", "c", "d", "e", "f", "g"]
    case 4 => ["h", "i", "j", "k", "l", "m", "n", "o", "p", "q", "r", "s", "t", "u", "v", "w", "x", "y"]
    case 5 => ["z", "{", "|", "}", "~"]
  }

  /** The "long" palette: 95 glyphs. */
  function Long(): (p: Palette)
    ensures |p| == 95
  {
    LongLine(0) + LongLine(1) + LongLine(2) + LongLine(3) + LongLine(4) + LongLine(5)
  }

  /** The 5-glyph "shade" palette: space, light shade (U+2591), full block
      (U+2588), lower half block (U+2584), upper half block (U+2580). */
  function Shade(): (p: Palette)
    ensures |p| == 5
    ensures SingleCharGlyphs(p)
    ensures p[0] == " " && p[4] == "\U{2580}"
  {
    [" ", "\U{2591}", "\U{2588}", "\U{2584}", "\U{2580}"]
  }

  lemma LongLine0CodePoints()
    ensures CodePointsFrom(32, LongLine(0))
  {
  }

  lemma LongLine1CodePoints()
    ensures CodePointsFrom(50, LongLine(1))
  {
  }

  lemma LongLine2CodePoints()
    ensures CodePointsFrom(68, LongLine(2))
  {
  }

  lemma LongLine3CodePoints()
    ensures CodePointsFrom(86, LongLine(3))
  {
  }

  lemma LongLine4CodePoints()
    ensures CodePointsFrom(104, LongLine(4))
  {
  }

  lemma LongLine5CodePoints()
    ensures CodePointsFrom(122, LongLine(5))
  {
  }

  lemma {:induction false} CodePointsAppend(first: int, a: seq<Glyph>, b: seq<Glyph>)
    requires CodePointsFrom(first, a) && CodePointsFrom(first + |a|, b)
    ensures CodePointsFrom(first, a + b)
  {
    forall i | 0 <= i < |a + b| ensures (a + b)[i] == [(first + i) as char] {
      if i >= |a| {
        assert (a + b)[i] == b[i - |a|];
      }
    }
  }

  /** The "long" palette is every printable ASCII character, space (32)
      through `~` (126), in ascending code-point order. */
  lemma LongIsPrintableAscii()
    ensures |Long()| == 95
    ensures forall i :: 0 <= i < |Long()| ==> Long()[i] == [(32 + i) as char]
    ensures SingleCharGlyphs(Long())
  {
    LongLine0CodePoints();
    LongLine1CodePoints();
    LongLine2CodePoints();
    LongLine3CodePoints();
    LongLine4CodePoints();
    LongLine5CodePoints();
    var p := LongLine(0);
    CodePointsAppend(32, p, LongLine(1));
    p := p + LongLine(1);
    CodePointsAppend(32, p, LongLine(2));
    p := p + LongLine(2);
    CodePointsAppend(32, p, LongLine(3));
    p := p + LongLine(3);
    CodePointsAppend(32, p, LongLine(4));
    p := p + LongLine(4);
    CodePointsAppend(32, p, LongLine(5));
    p := p + LongLine(5);
    assert p == Long();
  }

  /** The palette chosen by the second command-line argument: "short", "long"
      and "shade" name their palettes, and anything else falls back to shade. */
  function Select(selector: string): (p: Palette)
    ensures SingleCharGlyphs(p)
    ensures |p| == (if selector == "short" then 11 else if selector == "long" then 95 else 5)
  {
    LongIsPrintableAscii();
    match selector
    case "short" => Short()
    case "long" => Long()
    case "shade" => Shade()
    case _ => Shade()
  }

  /** Any selector other than the three names yields the same palette as "shade". */
  lemma UnknownSelectorIsShade(selector: string)
    requires selector != "short" && selector != "long" && selector != "shade"
    ensures Select(selector) == Select("shade") == Shade()
  {
  }
}
