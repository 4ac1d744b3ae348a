/** The art assembler, `generate_ascii_art`: one pass over the row-major pixel
    stream that appends a line break whenever the row changes and then the
    glyph the pixel's brightness selects. */
module AsciiArt {
  import opened Brightness
  import opened Palettes

  /** One item of the pixel stream: column, row and colour of a pixel. */
  datatype Sample = Sample(x: nat, y: nat, colour: Rgb)

  /** The glyph a pixel selects from a palette. */
  function GlyphOf(p: Palette, colour: Rgb): (g: Glyph)
    ensures g in p
    ensures SingleCharGlyphs(p) ==> |g| == 1 && g[0] != '\n'
  {
    p[GlyphIndex(colour, |p|)]
  }

  /** Black selects the first glyph of any palette and white the last. */
  lemma GlyphOfExtremes(p: Palette)
    ensures GlyphOf(p, Rgb(0, 0, 0)) == p[0]
    ensures GlyphOf(p, Rgb(255, 255, 255)) == p[|p| - 1]
  {
    Endpoints(|p|);
  }

  /** The text appended for `samples` when the row tracker starts at `lastY`:
      a line break before a sample whose row differs from the tracker, then
      the sample's glyph; the tracker then holds the sample's row. */
  function Art(samples: seq<Sample>, p: Palette, lastY: nat): (a: string)
    ensures SingleCharGlyphs(p) ==> (a == "" <==> samples == [])
  {
    if samples == [] then ""
    else
      var s := samples[0];
      (if s.y != lastY then "\n" else "") + GlyphOf(p, s.colour) + Art(samples[1..], p, s.y)
  }

  /** The row tracker after `samples`: the row of the last sample, or the
      initial value when there is none. */
  function TrackedRow(samples: seq<Sample>, lastY: nat): nat
  {
    if samples == [] then lastY else samples[|samples| - 1].y
  }

  /** Assembling a stream in two parts: the second part starts from the
      tracker the first part left behind. */
  lemma {:induction false} ArtAppend(s: seq<Sample>, t: seq<Sample>, p: Palette, lastY: nat)
    ensures Art(s + t, p, lastY) == Art(s, p, lastY) + Art(t, p, TrackedRow(s, lastY))
    decreases |s|
  {
    if s == [] {
      assert s + t == t;
    } else {
      var head := (if s[0].y != lastY then "\n" else "") + GlyphOf(p, s[0].colour);
      assert (s + t)[0] == s[0] && (s + t)[1..] == s[1..] + t;
      ArtAppend(s[1..], t, p, s[0].y);
      assert TrackedRow(s[1..], s[0].y) == TrackedRow(s, lastY);
      calc {
        Art(s + t, p, lastY);
        head + Art(s[1..] + t, p, s[0].y);
        head + (Art(s[1..], p, s[0].y) + Art(t, p, TrackedRow(s, lastY)));
        (head + Art(s[1..], p, s[0].y)) + Art(t, p, TrackedRow(s, lastY));
        Art(s, p, lastY) + Art(t, p, TrackedRow(s, lastY));
      }
    }
  }

  /** `generate_ascii_art`: walks the stream once, keeping the row of the
      previous sample in `lastY` (initially 0). */
  method GenerateAsciiArt(pixels: seq<Sample>, characters: Palette) returns (art: string)
    ensures art == Art(pixels, characters, 0)
  {
    art := "";
    var lastY: nat := 0;
    for i := 0 to |pixels|
      invariant art == Art(pixels[..i], characters, 0)
      invariant lastY == TrackedRow(pixels[..i], 0)
    {
      var pixel := pixels[i];
      ArtAppend(pixels[..i], [pixel], characters, 0);
      assert pixels[..i + 1] == pixels[..i] + [pixel];
      if lastY != pixel.y {
        art := art + "\n";
        lastY := pixel.y;
      }
      var characterPosition := GlyphIndex(pixel.colour, |characters|);
      art := art + characters[characterPosition];
    }
    assert pixels[..|pixels|] == pixels;
  }

  // ---------------------------------------------------------------------
  // Laws of the stream

  /** Concatenation of a sequence of strings. */
  function Concat(parts: seq<string>): string
  {
    if parts == [] then "" else Concat(parts[..|parts| - 1]) + parts[|parts| - 1]
  }

  /** The row of the sample before sample `i`, or the initial tracker for the first. */
  function PreviousRow(samples: seq<Sample>, lastY: nat, i: nat): nat
    requires i < |samples|
  {
    if i == 0 then lastY else samples[i - 1].y
  }

  /** What sample `i` contributes: a line break exactly when its row differs
      from the previous sample's row, then exactly one glyph, its own. */
  function Piece(samples: seq<Sample>, p: Palette, lastY: nat, i: nat): string
    requires i < |samples|
  {
    (if samples[i].y != PreviousRow(samples, lastY, i) then "\n" else "")
    + GlyphOf(p, samples[i].colour)
  }

  function Pieces(samples: seq<Sample>, p: Palette, lastY: nat): seq<string>
  {
    seq(|samples|, i requires 0 <= i < |samples| => Piece(samples, p, lastY, i))
  }

  /** The assembled text is the pieces of the samples, in stream order: every
      sample contributes exactly its own glyph, preceded by a line break
      exactly when its row differs from the row before it. */
  lemma {:induction false} ArtIsPieces(samples: seq<Sample>, p: Palette, lastY: nat)
    ensures Art(samples, p, lastY) == Concat(Pieces(samples, p, lastY))
    decreases |samples|
  {
    if samples != [] {
      var n := |samples|;
      var front, final := samples[..n - 1], samples[n - 1];
      var pieces := Pieces(samples, p, lastY);
      ArtIsPieces(front, p, lastY);
      assert samples == front + [final];
      ArtAppend(front, [final], p, lastY);
      assert TrackedRow(front, lastY) == PreviousRow(samples, lastY, n - 1);
      assert Art([final], p, TrackedRow(front, lastY)) == pieces[n - 1] by {
        assert [final][1..] == [];
      }
      forall i | 0 <= i < n - 1 ensures pieces[i] == Pieces(front, p, lastY)[i] {
        assert PreviousRow(samples, lastY, i) == PreviousRow(front, lastY, i);
      }
      assert pieces[..n - 1] == Pieces(front, p, lastY);
    }
  }

  // ---------------------------------------------------------------------
  // Row-major grids

  /** A downscaled image: rows of pixels, top to bottom. */
  type Grid = seq<seq<Rgb>>

  /** Every row holds `w` pixels. */
  predicate Rectangular(grid: Grid, w: nat)
  {
    forall y :: 0 <= y < |grid| ==> |grid[y]| == w
  }

  /** The samples of one row, left to right. */
  function RowSamples(row: seq<Rgb>, y: nat): seq<Sample>
  {
    seq(|row|, x requires 0 <= x < |row| => Sample(x, y, row[x]))
  }

  /** Every sample of `s` is a pixel of `grid`, with that pixel's colour. */
  predicate SamplesOf(grid: Grid, s: seq<Sample>)
  {
    forall k :: 0 <= k < |s| ==>
      s[k].y < |grid| && s[k].x < |grid[s[k].y]| && s[k].colour == grid[s[k].y][s[k].x]
  }

  /** The pixel stream of an image: row 0 first, each row left to right. */
  function RowMajor(grid: Grid): (s: seq<Sample>)
    ensures SamplesOf(grid, s)
  {
    if grid == [] then []
    else RowMajor(grid[..|grid| - 1]) + RowSamples(grid[|grid| - 1], |grid| - 1)
  }

  /** Position of column `x` of row `y` when every row takes `width` places. */
  function Position(width: nat, y: nat, x: nat): nat
  {
    y * width + x
  }

  /** Position in the text of column `x` of line `y` when every line holds
      `width` glyphs followed by a line break. */
  function TextPosition(width: nat, y: nat, x: nat): nat
  {
    Position(width + 1, y, x)
  }

  lemma MulSucc(a: nat, w: nat)
    ensures (a + 1) * w == a * w + w
  {
  }

  /** A place of an earlier row comes before row `k` starts. */
  lemma PositionBefore(width: nat, y: nat, x: nat, k: nat)
    requires y < k && x < width
    ensures Position(width, y, x) < k * width
  {
    MulSucc(y, width);
    assert (y + 1) * width <= k * width;
  }

  /** One place past the end of row `y` is the start of row `y + 1`. */
  lemma PositionNext(width: nat, y: nat)
    ensures Position(width, y, width) == Position(width, y + 1, 0)
  {
    MulSucc(y, width);
  }

  /** The stream visits pixel `(x, y)` at position `y * w + x`. */
  lemma {:induction false} RowMajorAt(grid: Grid, w: nat)
    requires Rectangular(grid, w)
    ensures |RowMajor(grid)| == |grid| * w
    ensures forall y, x :: 0 <= y < |grid| && 0 <= x < w ==>
              Position(w, y, x) < |RowMajor(grid)| &&
              RowMajor(grid)[Position(w, y, x)] == Sample(x, y, grid[y][x])
    decreases |grid|
  {
    if grid != [] {
      var h := |grid|;
      var front := grid[..h - 1];
      var last := RowSamples(grid[h - 1], h - 1);
      RowMajorAt(front, w);
      var s := RowMajor(grid);
      assert s == RowMajor(front) + last;
      MulSucc(h - 1, w);
      forall y, x | 0 <= y < h && 0 <= x < w
        ensures Position(w, y, x) < |s| && s[Position(w, y, x)] == Sample(x, y, grid[y][x])
      {
        if y < h - 1 {
          PositionBefore(w, y, x, h - 1);
          assert front[y] == grid[y];
          assert s[Position(w, y, x)] == RowMajor(front)[Position(w, y, x)];
        } else {
          assert s[Position(w, y, x)] == last[x];
        }
      }
    }
  }

  /** The text of one row: its glyphs side by side. */
  function RowText(row: seq<Rgb>, p: Palette): string
  {
    if row == [] then "" else RowText(row[..|row| - 1], p) + GlyphOf(p, row[|row| - 1])
  }

  /** Lines joined by single line breaks, with none before the first line or
      after the last. */
  function JoinLines(lines: seq<string>): string
  {
    if |lines| == 0 then ""
    else if |lines| == 1 then lines[0]
    else JoinLines(lines[..|lines| - 1]) + "\n" + lines[|lines| - 1]
  }

  /** The text lines of an image, one per row. */
  function Lines(grid: Grid, p: Palette): seq<string>
  {
    seq(|grid|, y requires 0 <= y < |grid| => RowText(grid[y], p))
  }

  /** Assembling a non-empty row: a line break if the tracker is on another
      row, then the row's text; afterwards the tracker holds the row. */
  lemma {:induction false} ArtOfRow(row: seq<Rgb>, y: nat, p: Palette, lastY: nat)
    requires |row| > 0
    ensures Art(RowSamples(row, y), p, lastY) == (if y != lastY then "\n" else "") + RowText(row, p)
    ensures TrackedRow(RowSamples(row, y), lastY) == y
    decreases |row|
  {
    var n := |row|;
    var front := row[..n - 1];
    assert RowSamples(row, y) == RowSamples(front, y) + [Sample(n - 1, y, row[n - 1])];
    ArtAppend(RowSamples(front, y), [Sample(n - 1, y, row[n - 1])], p, lastY);
    if n > 1 {
      ArtOfRow(front, y, p, lastY);
    }
  }

  /** An image with no rows or with empty rows yields no text. */
  lemma {:induction false} ArtOfEmptyGrid(grid: Grid, p: Palette)
    requires Rectangular(grid, 0)
    ensures RowMajor(grid) == []
    ensures Art(RowMajor(grid), p, 0) == ""
    decreases |grid|
  {
    if grid != [] {
      ArtOfEmptyGrid(grid[..|grid| - 1], p);
    }
  }

  /** The text of an image with rows of `w >= 1` pixels is its row texts
      joined by line breaks; the tracker ends on the last row. */
  lemma {:induction false} ArtOfGrid(grid: Grid, w: nat, p: Palette)
    requires Rectangular(grid, w) && w > 0
    ensures Art(RowMajor(grid), p, 0) == JoinLines(Lines(grid, p))
    ensures |grid| > 0 ==> TrackedRow(RowMajor(grid), 0) == |grid| - 1
    decreases |grid|
  {
    if grid != [] {
      var h := |grid|;
      var front := grid[..h - 1];
      var before, last := RowMajor(front), RowSamples(grid[h - 1], h - 1);
      var lines := Lines(grid, p);
      assert RowMajor(grid) == before + last;
      ArtOfGrid(front, w, p);
      ArtAppend(before, last, p, 0);
      ArtOfRow(grid[h - 1], h - 1, p, TrackedRow(before, 0));
      TrackedRowAppend(before, last, 0);
      assert lines[h - 1] == RowText(grid[h - 1], p);
      if h == 1 {
        assert before == [];
        assert JoinLines(lines) == lines[0];
      } else {
        assert TrackedRow(before, 0) == h - 2;
        assert lines[..h - 1] == Lines(front, p);
        assert JoinLines(lines) == JoinLines(Lines(front, p)) + "\n" + lines[h - 1];
      }
    }
  }

  lemma TrackedRowAppend(s: seq<Sample>, t: seq<Sample>, lastY: nat)
    requires t != []
    ensures TrackedRow(s + t, lastY) == TrackedRow(t, lastY)
  {
  }

  // ---------------------------------------------------------------------
  // Line breaks and glyphs per line

  /** Number of occurrences of `c` in `s`. */
  function Count(s: string, c: char): nat
  {
    if s == [] then 0 else Count(s[..|s| - 1], c) + (if s[|s| - 1] == c then 1 else 0)
  }

  lemma {:induction false} CountAppend(a: string, b: string, c: char)
    ensures Count(a + b, c) == Count(a, c) + Count(b, c)
    decreases |b|
  {
    if b == [] {
      assert a + b == a;
    } else {
      assert (a + b)[..|a + b| - 1] == a + b[..|b| - 1];
      CountAppend(a, b[..|b| - 1], c);
    }
  }

  lemma {:induction false} CountAbsent(s: string, c: char)
    requires c !in s
    ensures Count(s, c) == 0
    decreases |s|
  {
    if s != [] {
      CountAbsent(s[..|s| - 1], c);
    }
  }

  /** No glyph of the palette holds a line break. */
  predicate NoLineBreaks(p: Palette)
  {
    forall i :: 0 <= i < |p| ==> '\n' !in p[i]
  }

  lemma {:induction false} RowTextHasNoLineBreak(row: seq<Rgb>, p: Palette)
    requires NoLineBreaks(p)
    ensures '\n' !in RowText(row, p)
    decreases |row|
  {
    if row != [] {
      RowTextHasNoLineBreak(row[..|row| - 1], p);
    }
  }

  lemma {:induction false} JoinLinesCount(lines: seq<string>)
    requires |lines| > 0
    requires forall y :: 0 <= y < |lines| ==> '\n' !in lines[y]
    ensures Count(JoinLines(lines), '\n') == |lines| - 1
    decreases |lines|
  {
    var n := |lines|;
    if n == 1 {
      CountAbsent(lines[0], '\n');
    } else {
      JoinLinesCount(lines[..n - 1]);
      CountAppend(JoinLines(lines[..n - 1]) + "\n", lines[n - 1], '\n');
      CountAppend(JoinLines(lines[..n - 1]), "\n", '\n');
      assert Count("\n", '\n') == 1 by {
        assert "\n"[..0] == "";
      }
      CountAbsent(lines[n - 1], '\n');
    }
  }

  /** An image of `h >= 1` rows yields exactly `h - 1` line breaks, whatever
      the width, when no glyph holds a line break. */
  lemma LineBreakCount(grid: Grid, w: nat, p: Palette)
    requires Rectangular(grid, w) && |grid| > 0
    requires NoLineBreaks(p)
    ensures Count(Art(RowMajor(grid), p, 0), '\n') == if w == 0 then 0 else |grid| - 1
  {
    if w == 0 {
      ArtOfEmptyGrid(grid, p);
    } else {
      ArtOfGrid(grid, w, p);
      forall y | 0 <= y < |grid| ensures '\n' !in Lines(grid, p)[y] {
        RowTextHasNoLineBreak(grid[y], p);
      }
      JoinLinesCount(Lines(grid, p));
    }
  }

  /** `text` holds `c` at position `i`. */
  predicate HasCharAt(text: string, i: int, c: char)
  {
    0 <= i < |text| && text[i] == c
  }

  lemma {:induction false} RowTextAt(row: seq<Rgb>, p: Palette)
    requires SingleCharGlyphs(p)
    ensures |RowText(row, p)| == |row|
    ensures forall x :: 0 <= x < |row| ==> RowText(row, p)[x] == GlyphOf(p, row[x])[0]
    decreases |row|
  {
    if row != [] {
      var n := |row|;
      var front := row[..n - 1];
      var g := GlyphOf(p, row[n - 1]);
      RowTextAt(front, p);
      assert g == p[GlyphIndex(row[n - 1], |p|)] && |g| == 1;
      assert RowText(row, p) == RowText(front, p) + g;
      forall x | 0 <= x < n ensures RowText(row, p)[x] == GlyphOf(p, row[x])[0] {
        if x < n - 1 {
          assert front[x] == row[x];
        }
      }
    }
  }

  lemma {:induction false} JoinLinesLength(lines: seq<string>, w: nat)
    requires |lines| > 0
    requires forall y :: 0 <= y < |lines| ==> |lines[y]| == w
    ensures |JoinLines(lines)| + 1 == |lines| * (w + 1)
    decreases |lines|
  {
    var n := |lines|;
    if n > 1 {
      JoinLinesLength(lines[..n - 1], w);
      MulSucc(n - 1, w + 1);
    }
  }

  lemma {:induction false} JoinLinesAt(lines: seq<string>, w: nat)
    requires |lines| > 0
    requires forall y :: 0 <= y < |lines| ==> |lines[y]| == w
    ensures |JoinLines(lines)| + 1 == |lines| * (w + 1)
    ensures forall y, x :: 0 <= y < |lines| && 0 <= x < w ==>
              HasCharAt(JoinLines(lines), TextPosition(w, y, x), lines[y][x])
    ensures forall y :: 0 <= y < |lines| - 1 ==> HasCharAt(JoinLines(lines), TextPosition(w, y, w), '\n')
    decreases |lines|
  {
    var n := |lines|;
    JoinLinesLength(lines, w);
    if n > 1 {
      var front := lines[..n - 1];
      var head := JoinLines(front);
      var text := JoinLines(lines);
      JoinLinesAt(front, w);
      assert text == head + "\n" + lines[n - 1];
      forall y, x | 0 <= y < n && 0 <= x < w ensures HasCharAt(text, TextPosition(w, y, x), lines[y][x]) {
        if y < n - 1 {
          PositionBefore(w + 1, y, x + 1, n - 1);
          assert front[y] == lines[y];
        }
      }
      forall y | 0 <= y < n - 1 ensures HasCharAt(text, TextPosition(w, y, w), '\n') {
        PositionNext(w + 1, y);
        if y < n - 2 {
          PositionBefore(w + 1, y + 1, 0, n - 1);
        }
      }
    }
  }

  /** With one-character glyphs, an image of `h >= 1` rows of `w >= 1` pixels
      yields `h` lines of exactly `w` glyphs separated by single line breaks:
      the glyph of pixel `(x, y)` stands at `y * (w + 1) + x` and a line
      break ends every line but the last. */
  lemma ArtLayout(grid: Grid, w: nat, p: Palette)
    requires Rectangular(grid, w) && |grid| > 0 && w > 0
    requires SingleCharGlyphs(p)
    ensures var art := Art(RowMajor(grid), p, 0);
            && |art| + 1 == |grid| * (w + 1)
            && (forall y, x :: 0 <= y < |grid| && 0 <= x < w ==>
                  HasCharAt(art, TextPosition(w, y, x), GlyphOf(p, grid[y][x])[0]))
            && (forall y :: 0 <= y < |grid| - 1 ==> HasCharAt(art, TextPosition(w, y, w), '\n'))
  {
    var lines := Lines(grid, p);
    var art := Art(RowMajor(grid), p, 0);
    var h := |grid|;
    ArtOfGrid(grid, w, p);
    assert art == JoinLines(lines);
    forall y | 0 <= y < h
      ensures |lines[y]| == w
      ensures forall x :: 0 <= x < w ==> lines[y][x] == GlyphOf(p, grid[y][x])[0]
    {
      RowTextAt(grid[y], p);
    }
    JoinLinesAt(lines, w);
    forall y, x | 0 <= y < h && 0 <= x < w
      ensures HasCharAt(art, TextPosition(w, y, x), GlyphOf(p, grid[y][x])[0])
    {
      assert HasCharAt(art, TextPosition(w, y, x), lines[y][x]);
    }
  }

  /** With one-character glyphs, the text of a non-empty image neither starts
      nor ends with a line break. */
  lemma ArtEnds(grid: Grid, w: nat, p: Palette)
    requires Rectangular(grid, w) && |grid| > 0 && w > 0
    requires SingleCharGlyphs(p)
    ensures var art := Art(RowMajor(grid), p, 0);
            |art| > 0 && art[0] != '\n' && art[|art| - 1] != '\n'
  {
    var art := Art(RowMajor(grid), p, 0);
    var h := |grid|;
    ArtLayout(grid, w, p);
    var first, last := GlyphOf(p, grid[0][0]), GlyphOf(p, grid[h - 1][w - 1]);
    assert HasCharAt(art, TextPosition(w, 0, 0), first[0]);
    assert HasCharAt(art, TextPosition(w, h - 1, w - 1), last[0]);
    LastTextPosition(|art|, h, w);
  }

  /** In a text of `h` lines of `w >= 1` glyphs, the last glyph of the last
      line is the last character. */
  lemma LastTextPosition(length: nat, h: nat, w: nat)
    requires h > 0 && w > 0 && length + 1 == h * (w + 1)
    ensures TextPosition(w, h - 1, w - 1) == length - 1
  {
    MulSucc(h - 1, w + 1);
  }
}
