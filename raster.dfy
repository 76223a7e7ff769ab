/**
  The software rasteriser that both programs use: a fixed-size window buffer
  of pixels, an 8x8 bitmap font stamped at power-of-two scales, and solid
  rectangles.  The buffer is addressed by (x, y); its dimensions stand for the
  program's WINDOW_DIMENSIONS_X and WINDOW_DIMENSIONS_Y, and every write is
  clipped against them.
*/
module Raster {

  /** One window pixel, in the byte order of the window bitmap. */
  datatype Pixel = Pixel(b: bv8, g: bv8, r: bv8, x: bv8)

  datatype Point = Point(x: int, y: int)

  /** The bitmap font: `font(c, row)` is row `row` (0 at the top) of the glyph
      of `c`, and bit k of a row is column k of the glyph. */
  type Font = (char, int) -> bv8

  const FONT_SIZE: nat := 8

  function Max(a: int, b: int): int { if a < b then b else a }

  function Pow2(n: nat): (r: nat)
    ensures r >= 1
  {
    if n == 0 then 1 else 2 * Pow2(n - 1)
  }

  /** `FONT_SIZE << scale`: the side of one glyph cell in pixels. */
  function CellSize(scale: nat): nat { FONT_SIZE * Pow2(scale) }

  /** Characters the font table can be indexed with. */
  predicate IsAscii(s: string) { forall i | 0 <= i < |s| :: s[i] as int < 128 }

  predicate InWindow(pixels: array2<Pixel>, x: int, y: int) {
    0 <= x < pixels.Length0 && 0 <= y < pixels.Length1
  }

  /** `row & (1 << k)`, for the column numbers 0..7 a glyph row has. */
  predicate Bit(row: bv8, k: int) {
    0 <= k < 8 && (row & (1 << k)) != 0
  }

  // ---------------------------------------------------------------------------
  // The text cursor shared by MeasureString and DrawString

  /** The cursor after character `c`: a line feed returns to the row start one
      cell lower, anything else moves one cell to the right. */
  function Advance(c: char, pen: Point, rowStart: int, scale: nat): Point {
    if c == '\n' then Point(rowStart, pen.y + CellSize(scale))
    else Point(pen.x + CellSize(scale), pen.y)
  }

  /** The cursor before character k of `s`, starting at (x, y). */
  function Pen(s: string, k: nat, x: int, y: int, scale: nat): Point
    requires k <= |s|
  {
    if k == 0 then Point(x, y) else Advance(s[k - 1], Pen(s, k - 1, x, y, scale), x, scale)
  }

  /** The number of line feeds in `s`. */
  function Newlines(s: string): nat {
    if s == [] then 0 else Newlines(s[..|s| - 1]) + (if s[|s| - 1] == '\n' then 1 else 0)
  }

  /** The number of characters after the last line feed of `s`. */
  function CurrentRow(s: string): nat {
    if s == [] then 0 else if s[|s| - 1] == '\n' then 0 else CurrentRow(s[..|s| - 1]) + 1
  }

  /** The number of characters in the longest row of `s`. */
  function LongestRow(s: string): nat {
    if s == [] then 0 else Max(LongestRow(s[..|s| - 1]), CurrentRow(s))
  }

  // ---------------------------------------------------------------------------
  // What DrawString paints

  /** Pixel (px, py) is a set pixel of the glyph of `c` whose cell has its top
      left corner at (cx, cy). */
  predicate GlyphCovers(font: Font, c: char, scale: nat, cx: int, cy: int, px: int, py: int) {
    cx <= px < cx + CellSize(scale) && cy <= py < cy + CellSize(scale) &&
    Bit(font(c, (py - cy) / Pow2(scale)), (px - cx) / Pow2(scale))
  }

  /** Character k of `s` paints pixel (px, py). */
  predicate PaintedBy(font: Font, s: string, k: nat, x: int, y: int, scale: nat, px: int, py: int)
    requires k < |s|
  {
    var pen := Pen(s, k, x, y, scale);
    s[k] != '\n' && GlyphCovers(font, s[k], scale, pen.x, pen.y, px, py)
  }

  /** One of the first n characters of `s` paints pixel (px, py). */
  predicate PaintedUpTo(font: Font, s: string, n: nat, x: int, y: int, scale: nat, px: int, py: int)
    requires n <= |s|
  {
    n > 0 && (PaintedUpTo(font, s, n - 1, x, y, scale, px, py) || PaintedBy(font, s, n - 1, x, y, scale, px, py))
  }

  predicate Painted(font: Font, s: string, x: int, y: int, scale: nat, px: int, py: int) {
    PaintedUpTo(font, s, |s|, x, y, scale, px, py)
  }

  /** The part of the glyph at (cx, cy) that the two inner loops of DrawString
      have visited: all rows above `gy`, and row `gy` left of column `gx`. */
  predicate CoveredSoFar(font: Font, c: char, scale: nat, cx: int, cy: int, gy: int, gx: int, px: int, py: int) {
    GlyphCovers(font, c, scale, cx, cy, px, py) && (py - cy < gy || (py - cy == gy && px - cx < gx))
  }

  // ---------------------------------------------------------------------------
  // Operations

  /** Fills the half-open box [min, max) with `col`, clipped to the window. */
  method DrawRectangleFill(pixels: array2<Pixel>, col: Pixel, min: Point, max: Point)
    modifies pixels
    ensures forall px, py | InWindow(pixels, px, py) ::
      pixels[px, py] == if min.x <= px < max.x && min.y <= py < max.y then col else old(pixels[px, py])
  {
    var y := min.y;
    while y < max.y
      invariant min.y <= y && (y <= max.y || y == min.y)
      invariant forall px, py | InWindow(pixels, px, py) ::
        pixels[px, py] == if min.x <= px < max.x && min.y <= py < y then col else old(pixels[px, py])
    {
      var x := min.x;
      while x < max.x
        invariant min.x <= x && (x <= max.x || x == min.x)
        invariant forall px, py | InWindow(pixels, px, py) ::
          pixels[px, py] == if min.x <= px < max.x && (min.y <= py < y || (py == y && px < x)) then col else old(pixels[px, py])
      {
        if x >= 0 && x < pixels.Length0 && y >= 0 && y < pixels.Length1 {
          pixels[x, y] := col;
        }
        x := x + 1;
      }
      y := y + 1;
    }
  }

  /** Stamps the glyphs of `s` with their top left corner at (x, y), clipped to
      the window.  A line feed starts a new row one cell lower.  `s` is the
      content of the C string drawn (the characters before its terminator),
      so the loop runs over all of it. */
  method DrawString(pixels: array2<Pixel>, font: Font, s: string, x: int, y: int, scale: nat, colour: Pixel)
    requires IsAscii(s)
    modifies pixels
    ensures forall px, py | InWindow(pixels, px, py) ::
      pixels[px, py] == if Painted(font, s, x, y, scale, px, py) then colour else old(pixels[px, py])
  {
    var cell := CellSize(scale);
    var p := Pow2(scale);
    var penX, penY := x, y;
    var k := 0;
    while k < |s|
      invariant 0 <= k <= |s|
      invariant Point(penX, penY) == Pen(s, k, x, y, scale)
      invariant forall px, py | InWindow(pixels, px, py) ::
        pixels[px, py] == if PaintedUpTo(font, s, k, x, y, scale, px, py) then colour else old(pixels[px, py])
    {
      var c := s[k];
      if c == '\n' {
        penY := penY + cell;
        penX := x;
      } else {
        var gy := 0;
        while gy < cell
          invariant 0 <= gy <= cell
          invariant forall px, py | InWindow(pixels, px, py) ::
            pixels[px, py] ==
              if PaintedUpTo(font, s, k, x, y, scale, px, py) || CoveredSoFar(font, c, scale, penX, penY, gy, 0, px, py)
              then colour else old(pixels[px, py])
        {
          var row := font(c, gy / p);
          var gx := 0;
          while gx < cell
            invariant 0 <= gx <= cell
            invariant forall px, py | InWindow(pixels, px, py) ::
              pixels[px, py] ==
                if PaintedUpTo(font, s, k, x, y, scale, px, py) || CoveredSoFar(font, c, scale, penX, penY, gy, gx, px, py)
                then colour else old(pixels[px, py])
          {
            if Bit(row, gx / p) {
              var wx, wy := penX + gx, penY + gy;
              if 0 <= wx < pixels.Length0 && 0 <= wy < pixels.Length1 {
                pixels[wx, wy] := colour;
              }
            }
            gx := gx + 1;
          }
          gy := gy + 1;
        }
        penX := penX + cell;
      }
      k := k + 1;
    }
  }

  /** The box MeasureString reports for `s` drawn at (x, y). */
  function MeasuredBox(s: string, x: int, y: int, scale: nat, padding: int): (Point, Point) {
    (Point(x - padding, y - padding),
     Point(x + CellSize(scale) * LongestRow(s) + padding,
           y + CellSize(scale) * Max(1, Newlines(s)) + padding))
  }

  /** The pen position a string is measured from lies inside its box (edges
      included) whenever the padding is not negative, whatever the string. */
  lemma PenInsideMeasuredBox(s: string, x: int, y: int, scale: nat, padding: int)
    requires padding >= 0
    ensures var box := MeasuredBox(s, x, y, scale, padding);
      box.0.x <= x <= box.1.x && box.0.y <= y <= box.1.y
  {
  }

  /** Computes the box of `s` drawn at (x, y), grown by `padding` on every side:
      as wide as its longest row, and as tall as one row or as many rows as it
      has line feeds, whichever is more.  `s` is the content of the C string
      measured (the characters before its terminator). */
  method MeasureString(s: string, x: int, y: int, scale: nat, padding: int) returns (min: Point, max: Point)
    ensures min == Point(x - padding, y - padding)
    ensures max == Point(x + CellSize(scale) * LongestRow(s) + padding,
                         y + CellSize(scale) * Max(1, Newlines(s)) + padding)
  {
    var cell := CellSize(scale);
    var penX, penY := x, y;
    min := Point(x - padding, y - padding);
    var maxX, maxY := x, y + cell;
    ghost var row, lines, longest := 0, 0, 0;
    var i := 0;
    while i < |s|
      invariant 0 <= i <= |s|
      invariant row == CurrentRow(s[..i]) && lines == Newlines(s[..i]) && longest == LongestRow(s[..i])
      invariant penX == x + cell * row && penY == y + cell * lines
      invariant maxX == x + cell * longest && maxY == y + cell * Max(1, lines)
    {
      var c := s[i];
      PrefixStep(s, i);
      if c == '\n' {
        penY := penY + cell;
        penX := x;
        MulSucc(cell, lines);
        row, lines := 0, lines + 1;
      } else {
        penX := penX + cell;
        MulSucc(cell, row);
        row := row + 1;
      }
      longest := Max(longest, row);
      ScaleMonotone(cell, row, LongestRow(s[..i]));
      if penX > maxX {
        maxX := penX;
      }
      ScaleMonotone(cell, lines, Max(1, Newlines(s[..i])));
      if penY > maxY {
        maxY := penY;
      }
      i := i + 1;
    }
    assert s[..|s|] == s;
    max := Point(maxX + padding, maxY + padding);
  }

  // ---------------------------------------------------------------------------
  // Lemmas

  lemma MulSucc(c: nat, n: int)
    ensures c * (n + 1) == c * n + c
  {}

  /** How the row counters change when one more character of `s` is read. */
  lemma PrefixStep(s: string, i: nat)
    requires i < |s|
    ensures CurrentRow(s[..i + 1]) == if s[i] == '\n' then 0 else CurrentRow(s[..i]) + 1
    ensures Newlines(s[..i + 1]) == Newlines(s[..i]) + if s[i] == '\n' then 1 else 0
    ensures LongestRow(s[..i + 1]) == Max(LongestRow(s[..i]), CurrentRow(s[..i + 1]))
  {
    assert s[..i + 1][..i] == s[..i];
  }

  lemma ScaleMonotone(c: nat, a: int, b: int)
    requires c > 0
    ensures c * a > c * b <==> a > b
    ensures c * Max(a, b) == Max(c * a, c * b)
  {
    if a > b {
      assert c * a - c * b == c * (a - b);
    } else {
      assert c * b - c * a == c * (b - a);
    }
  }

  /** The cursor before character k, in closed form. */
  lemma {:induction false} PenFormula(s: string, k: nat, x: int, y: int, scale: nat)
    requires k <= |s|
    ensures Pen(s, k, x, y, scale) ==
      Point(x + CellSize(scale) * CurrentRow(s[..k]), y + CellSize(scale) * Newlines(s[..k]))
  {
    if k > 0 {
      PenFormula(s, k - 1, x, y, scale);
      PrefixStep(s, k - 1);
      MulSucc(CellSize(scale), CurrentRow(s[..k - 1]));
      MulSucc(CellSize(scale), Newlines(s[..k - 1]));
    }
  }

  /** No row of a prefix is longer than the longest row of the whole string,
      and a prefix has no more line feeds. */
  lemma {:induction false} PrefixRows(s: string, k: nat)
    requires k <= |s|
    ensures LongestRow(s[..k]) <= LongestRow(s)
    ensures Newlines(s[..k]) <= Newlines(s)
  {
    assert s[..|s|] == s;
    if k < |s| {
      var init := s[..|s| - 1];
      PrefixRows(init, k);
      assert init[..k] == s[..k];
    }
  }

  lemma {:induction false} PaintedUpToWitness(font: Font, s: string, n: nat, x: int, y: int, scale: nat, px: int, py: int)
      returns (k: nat)
    requires n <= |s| && PaintedUpTo(font, s, n, x, y, scale, px, py)
    ensures k < n && PaintedBy(font, s, k, x, y, scale, px, py)
  {
    if PaintedBy(font, s, n - 1, x, y, scale, px, py) {
      k := n - 1;
    } else {
      k := PaintedUpToWitness(font, s, n - 1, x, y, scale, px, py);
    }
  }

  /** Every pixel DrawString paints lies between the left and right edges that
      MeasureString reports (padding 0), below its top edge, and above the
      bottom of the row after the last line feed. */
  lemma PaintedExtent(font: Font, s: string, x: int, y: int, scale: nat, px: int, py: int)
    requires Painted(font, s, x, y, scale, px, py)
    ensures x <= px < x + CellSize(scale) * LongestRow(s)
    ensures y <= py < y + CellSize(scale) * (Newlines(s) + 1)
  {
    var cell := CellSize(scale);
    var k := PaintedUpToWitness(font, s, |s|, x, y, scale, px, py);
    PenFormula(s, k, x, y, scale);
    PrefixStep(s, k);
    PrefixRows(s, k + 1);
    PrefixRows(s, k);
    MulSucc(cell, CurrentRow(s[..k]));
    MulSucc(cell, Newlines(s[..k]));
    ScaleMonotone(cell, CurrentRow(s[..k + 1]), LongestRow(s));
    ScaleMonotone(cell, Newlines(s[..k]) + 1, Newlines(s) + 1);
    ScaleMonotone(cell, CurrentRow(s[..k]), 0);
    ScaleMonotone(cell, Newlines(s[..k]), 0);
  }

  /** For a string without line feeds, every painted pixel lies inside the box
      MeasureString reports with padding 0 (half-open on its far edges). */
  lemma SingleLinePaintInsideMeasure(font: Font, s: string, x: int, y: int, scale: nat, px: int, py: int)
    requires forall i | 0 <= i < |s| :: s[i] != '\n'
    requires Painted(font, s, x, y, scale, px, py)
    ensures MeasuredBox(s, x, y, scale, 0).0.x <= px < MeasuredBox(s, x, y, scale, 0).1.x
    ensures MeasuredBox(s, x, y, scale, 0).0.y <= py < MeasuredBox(s, x, y, scale, 0).1.y
  {
    NoNewlines(s);
    PaintedExtent(font, s, x, y, scale, px, py);
  }

  lemma {:induction false} NoNewlines(s: string)
    requires forall i | 0 <= i < |s| :: s[i] != '\n'
    ensures Newlines(s) == 0
  {
    if s != [] {
      NoNewlines(s[..|s| - 1]);
    }
  }

  /** MeasureString's bottom edge is the top of the last row once `s` has a
      line feed: what the characters after the last line feed paint lies
      entirely below the measured box. */
  lemma MeasuredBoxOmitsLastRow(font: Font, s: string, x: int, y: int, scale: nat, k: nat, px: int, py: int)
    requires Newlines(s) >= 1
    requires k < |s| && Newlines(s[..k]) == Newlines(s)
    requires PaintedBy(font, s, k, x, y, scale, px, py)
    ensures py >= MeasuredBox(s, x, y, scale, 0).1.y
  {
    PenFormula(s, k, x, y, scale);
  }
}
