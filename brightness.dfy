/** Brightness of one sampled pixel and its quantisation to a palette index
    (the two expressions at the heart of `generate_ascii_art`). */
module Brightness {

  /** One 8-bit colour channel, as in the `u8` channels of an RGBA pixel. */
  type Channel = c: int | 0 <= c <= 255

  /** The colour channels of a pixel that the mapping reads (alpha is never read). */
  datatype Rgb = Rgb(r: Channel, g: Channel, b: Channel)

  /** Largest value the channel sum can take; far below 2^64, so the `u64` sum never wraps. */
  const MaxChannelSum: int := 3 * 255

  /** Integer mean of the three channels, truncating: the sum is taken in a wide
      integer and divided by 3. */
  function Mean(p: Rgb): (m: int)
    ensures 0 <= m <= 255
    ensures 3 * m <= p.r + p.g + p.b < 3 * m + 3
    ensures p.r + p.g + p.b <= MaxChannelSum < 0x1_0000_0000_0000_0000
  {
    (p.r + p.g + p.b) / 3
  }

  /** Proportional index of brightness `b` into a palette of `n` glyphs: the
      nearest integer to b * (n - 1) / 255, computed exactly on integers. The
      result is characterised by `2*b*(n-1)` lying strictly within 255 of
      `510*i`, i.e. `b*(n-1)/255` lies strictly within one half of `i`. */
  function Index(b: int, n: int): (i: int)
    requires 0 <= b <= 255
    requires n >= 1
    ensures 0 <= i < n
    ensures 510 * i - 255 < 2 * b * (n - 1) < 510 * i + 255
  {
    var x := 2 * b * (n - 1);
    assert 0 <= x <= 510 * (n - 1) by { ScaleBound(b, n - 1); }
    var i := (x + 255) / 510;
    // x is even and 510 * i - 255 is odd, so the lower bound is strict.
    assert x != 510 * i - 255 by { Parity(b * (n - 1), i); }
    i
  }

  /** Index of the glyph that a pixel selects in a palette of `n` glyphs. */
  function GlyphIndex(p: Rgb, n: int): (i: int)
    requires n >= 1
    ensures 0 <= i < n
  {
    Index(Mean(p), n)
  }

  /** Rust's `f64::round` applied to a non-negative real: half-way cases go up
      (away from zero). */
  function RoundHalfAwayFromZero(x: real): (k: int)
    requires x >= 0.0
    ensures k >= 0
    ensures k as real - 0.5 <= x < k as real + 0.5
  {
    (x + 0.5).Floor
  }

  // ---------------------------------------------------------------------
  // Arithmetic helpers

  lemma ScaleBound(b: int, m: int)
    requires 0 <= b <= 255 && m >= 0
    ensures 0 <= 2 * b * m <= 510 * m
  {
    assert b * m <= 255 * m;
  }

  lemma Parity(a: int, i: int)
    ensures 2 * a != 510 * i - 255
    ensures 2 * a != 510 * i + 255
  {
  }

  lemma MulMonotone(a: int, b: int, m: int)
    requires a <= b && m >= 0
    ensures a * m <= b * m
  {
  }

  // ---------------------------------------------------------------------
  // Properties of the quantisation

  /** The integer characterisation in `Index`'s contract pins the index down:
      no other integer lies within one half of b * (n - 1) / 255. */
  lemma IndexUnique(b: int, n: int, j: int)
    requires 0 <= b <= 255 && n >= 1
    requires 510 * j - 255 < 2 * b * (n - 1) < 510 * j + 255
    ensures j == Index(b, n)
  {
    var i := Index(b, n);
    assert 510 * (j - i) < 510 && 510 * (i - j) < 510;
  }

  /** Black maps to the first glyph, full brightness to the last. */
  lemma Endpoints(n: int)
    requires n >= 1
    ensures Index(0, n) == 0
    ensures Index(255, n) == n - 1
  {
    IndexUnique(0, n, 0);
    IndexUnique(255, n, n - 1);
  }

  /** A brighter mean never selects an earlier glyph. */
  lemma IndexMonotone(b1: int, b2: int, n: int)
    requires 0 <= b1 <= b2 <= 255 && n >= 1
    ensures Index(b1, n) <= Index(b2, n)
  {
    MulMonotone(b1, b2, n - 1);
  }

  /** Brightening every channel never selects an earlier glyph. */
  lemma GlyphIndexMonotone(p: Rgb, q: Rgb, n: int)
    requires n >= 1
    requires p.r <= q.r && p.g <= q.g && p.b <= q.b
    ensures GlyphIndex(p, n) <= GlyphIndex(q, n)
  {
    IndexMonotone(Mean(p), Mean(q), n);
  }

  /** The exact integer index agrees with rounding the real number
      `(b / 255.0) * (n - 1)` half away from zero, as `f64::round` does, and
      that real number is never closer than 1/510 to a half-way point. The
      gap is what lets the integer formula stand for the floating-point one:
      any floating-point error smaller than 1/510 rounds the same way. */
  lemma IndexIsRoundedProportion(b: int, n: int)
    requires 0 <= b <= 255 && n >= 1
    ensures var x := (b as real / 255.0) * ((n - 1) as real);
            var i := Index(b, n);
            && x >= 0.0
            && RoundHalfAwayFromZero(x) == i
            && i as real - 0.5 + 1.0 / 510.0 <= x <= i as real + 0.5 - 1.0 / 510.0
  {
    var i := Index(b, n);
    var m := b * (n - 1);
    assert 510 * i - 254 <= 2 * m <= 510 * i + 254;
    var x := (b as real / 255.0) * ((n - 1) as real);
    assert x == (m as real) / 255.0 by {
      assert (m as real) == (b as real) * ((n - 1) as real);
    }
    assert (510 * i - 254) as real <= 2.0 * (m as real) <= (510 * i + 254) as real;
    assert x >= 0.0;
    var k := RoundHalfAwayFromZero(x);
    assert i as real - 0.5 < x < i as real + 0.5;
    assert (k - i) as real < 1.0 && (i - k) as real < 1.0;
  }
}
