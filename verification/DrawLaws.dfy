/** Drawn text cell by cell: which pixels of a surface a glyph and a text blend, by the font's own bits. */
module DrawLaws {
  import opened CTypes
  import opened Raster
  import opened Font
  import opened Draw

  // ---- One glyph ---------------------------------------------------------

  /** A bit of a glyph: Latin bitmaps are 5 wide and 7 high, Hangul ones 18 by 18, and a blank has none. */
  predicate Lit(f: Face, g: Shape, row: int, col: int) {
    match g
    case Latin(c) => 0 <= row < 7 && 0 <= col < 5 && f.latin(c, row, col)
    case Hangul(cp) => 0 <= row < 18 && 0 <= col < 18 && f.hangul(cp, row, col)
    case _ => false
  }

  /** The glyph at (cx, y) has a bit in the cell (a, b): every bit is a square of the scale. */
  predicate Inks(f: Face, g: Shape, scale: int, cx: int, y: int, a: int, b: int)
    requires scale >= 1
  {
    cx <= a && y <= b && Lit(f, g, (b - y) / scale, (a - cx) / scale)
  }

  predicate OnSurface(pen: Pen, k: int)
    requires ValidPen(pen)
  {
    Column(pen.stride, k) < pen.w && Row(pen.stride, k) < pen.h
  }

  lemma Quotient(a: int, c: nat, scale: int)
    requires scale >= 1
    ensures c * scale <= a < c * scale + scale <==> a >= 0 && a / scale == c
  {
    if c * scale <= a < c * scale + scale {
      MulMono(0, c, scale);
      DivUnique(a, scale, c, a - c * scale);
    } else if a >= 0 {
      assert a == a / scale * scale + a % scale;
    }
  }

  /** A bit's square holds exactly the cells that divide to its row and column. */
  lemma SquareOfBit(pen: Pen, cx: int, y: int, row: nat, col: nat, a: int, b: int)
    requires ValidPen(pen)
    ensures Inside(BitRect(pen, cx, y, row, col), a, b) <==>
      cx <= a && y <= b && (b - y) / pen.scale == row && (a - cx) / pen.scale == col
  {
    Quotient(a - cx, col, pen.scale);
    Quotient(b - y, row, pen.scale);
  }

  /** The cell's bit comes at or after (row, col) in the drawing's order. */
  predicate ToCome(scale: int, cx: int, y: int, a: int, b: int, row: nat, col: nat)
    requires scale >= 1
  {
    var (r, c) := ((b - y) / scale, (a - cx) / scale);
    r > row || (r == row && c >= col)
  }

  lemma {:induction false} BitsCells(f: Face, pen: Pen, px: seq<Pixel>, cx: int, y: int, g: Shape, row: nat, col: nat,
                                     k: nat)
    requires ValidPen(pen) && k < |px|
    ensures
      var (a, b) := (Column(pen.stride, k), Row(pen.stride, k));
      DrawBits(f, pen, px, cx, y, g, row, col)[k] ==
        if OnSurface(pen, k) && Inks(f, g, pen.scale, cx, y, a, b) && ToCome(pen.scale, cx, y, a, b, row, col)
        then BlendOver(px[k], pen.color) else px[k]
    decreases Rows(g) - row, Columns(g) - col
  {
    hide Column, Row, BlendOver, BitRect;
    var (a, b) := (Column(pen.stride, k), Row(pen.stride, k));
    if row >= Rows(g) {
    } else if col >= Columns(g) {
      BitsCells(f, pen, px, cx, y, g, row + 1, 0, k);
      if cx <= a {
        NotNegative(a - cx, pen.scale);
      }
    } else {
      SquareOfBit(pen, cx, y, row, col, a, b);
      var px' := if Bit(f, g, row, col)
        then BlendCells(px, pen.w, pen.h, pen.stride, BitRect(pen, cx, y, row, col), pen.color) else px;
      BitsCells(f, pen, px', cx, y, g, row, col + 1, k);
    }
  }

  lemma NotNegative(a: int, scale: int)
    requires a >= 0 && scale >= 1
    ensures a / scale >= 0
  {
  }

  /** After a glyph a cell on the surface is blended once with the color if one of the glyph's bits is there, and as it
      was otherwise. */
  lemma GlyphCells(f: Face, pen: Pen, px: seq<Pixel>, cx: int, y: int, g: Shape, k: nat)
    requires ValidPen(pen) && k < |px|
    ensures
      DrawBits(f, pen, px, cx, y, g, 0, 0)[k] ==
        if OnSurface(pen, k) && Inks(f, g, pen.scale, cx, y, Column(pen.stride, k), Row(pen.stride, k))
        then BlendOver(px[k], pen.color) else px[k]
  {
    hide Column, Row, BlendOver, DrawBits;
    BitsCells(f, pen, px, cx, y, g, 0, 0, k);
    var (a, b) := (Column(pen.stride, k), Row(pen.stride, k));
    if cx <= a && y <= b {
      NotNegative(a - cx, pen.scale);
      NotNegative(b - y, pen.scale);
    }
  }

  // ---- A text ------------------------------------------------------------

  /** Where the i-th glyph of a text goes from its start, at scale 1: right of the glyph before it, or at the start of a
      line eight rows down after a newline. */
  function Place(gs: seq<Glyph>, i: nat): (p: (nat, nat))
    requires i <= |gs|
    decreases i
  {
    if i == 0 then (0, 0)
    else
      var (x, y) := Place(gs, i - 1);
      if gs[i - 1].shape.Newline? then (0, y + 8) else (x + if gs[i - 1].shape.Hangul? then 19 else 6, y)
  }

  /** The i-th glyph of a text that starts at (x, y) has a bit in the cell (a, b). */
  predicate GlyphInks(f: Face, gs: seq<Glyph>, i: nat, scale: int, x: int, y: int, a: int, b: int)
    requires scale >= 1 && i < |gs|
  {
    Inks(f, gs[i].shape, scale, x + Place(gs, i).0 * scale, y + Place(gs, i).1 * scale, a, b)
  }

  ghost predicate TextInks(f: Face, gs: seq<Glyph>, from: nat, scale: int, x: int, y: int, a: int, b: int)
    requires scale >= 1
  {
    exists i :: from <= i < |gs| && GlyphInks(f, gs, i, scale, x, y, a, b)
  }

  lemma InksMore(f: Face, gs: seq<Glyph>, k: nat, scale: int, x: int, y: int, a: int, b: int)
    requires scale >= 1 && k < |gs|
    ensures TextInks(f, gs, k, scale, x, y, a, b) <==>
      GlyphInks(f, gs, k, scale, x, y, a, b) || TextInks(f, gs, k + 1, scale, x, y, a, b)
  {
    hide GlyphInks;
  }

  /** The cursor before the next glyph. */
  lemma NextPlace(gs: seq<Glyph>, k: nat, scale: int)
    requires k < |gs| && scale >= 1
    ensures
      var ((x, y), (x', y')) := (Place(gs, k), Place(gs, k + 1));
      if gs[k].shape.Newline? then x' == 0 && y' * scale == y * scale + FONT_LINE * scale
      else x' * scale == x * scale + Advance(gs[k]) * scale && y' == y
  {
    var (x, y) := Place(gs, k);
    var n: int := if gs[k].shape.Hangul? then 19 else 6;
    assert (x + n) * scale == x * scale + n * scale && (y + 8) * scale == y * scale + 8 * scale;
  }

  lemma {:induction false} TextFrom(f: Face, pen: Pen, px: seq<Pixel>, x: int, y: int, gs: seq<Glyph>, i: nat, k: nat)
    requires ValidPen(pen) && pen.color.a == 255 && k < |px| && i <= |gs|
    ensures
      var (p, s) := (Place(gs, i), pen.scale);
      DrawText(f, pen, px, x, x + p.0 * s, y + p.1 * s, gs[i..]).0[k] ==
        if OnSurface(pen, k) && TextInks(f, gs, i, s, x, y, Column(pen.stride, k), Row(pen.stride, k))
        then pen.color else px[k]
    decreases |gs| - i
  {
    hide Column, Row, DrawBits, Inks, Place, TextInks, Advance;
    var (p, s, a, b) := (Place(gs, i), pen.scale, Column(pen.stride, k), Row(pen.stride, k));
    if i == |gs| {
      NoneInks(f, gs, s, x, y, a, b);
    } else {
      assert gs[i..][0] == gs[i] && gs[i..][1..] == gs[i + 1..];
      NextPlace(gs, i, s);
      InksMore(f, gs, i, s, x, y, a, b);
      var px' := if gs[i].shape.Newline? then px else DrawBits(f, pen, px, x + p.0 * s, y + p.1 * s, gs[i].shape, 0, 0);
      GlyphCells(f, pen, px, x + p.0 * s, y + p.1 * s, gs[i].shape, k);
      if gs[i].shape.Newline? {
        NewlineInksNone(f, gs, i, s, x, y, a, b);
      }
      TextFrom(f, pen, px', x, y, gs, i + 1, k);
    }
  }

  lemma NoneInks(f: Face, gs: seq<Glyph>, scale: int, x: int, y: int, a: int, b: int)
    requires scale >= 1
    ensures !TextInks(f, gs, |gs|, scale, x, y, a, b)
  {
  }

  lemma NewlineInksNone(f: Face, gs: seq<Glyph>, i: nat, scale: int, x: int, y: int, a: int, b: int)
    requires scale >= 1 && i < |gs| && gs[i].shape.Newline?
    ensures !GlyphInks(f, gs, i, scale, x, y, a, b)
  {
  }

  /** A text in an opaque color, newlines and all: the cells with a bit of one of its glyphs take the color, and every
      other cell stays as it was. */
  lemma TextCells(f: Face, pen: Pen, px: seq<Pixel>, x: int, y: int, gs: seq<Glyph>, k: nat)
    requires ValidPen(pen) && pen.color.a == 255 && k < |px|
    ensures DrawText(f, pen, px, x, x, y, gs).0[k] ==
      if OnSurface(pen, k) && TextInks(f, gs, 0, pen.scale, x, y, Column(pen.stride, k), Row(pen.stride, k))
      then pen.color else px[k]
  {
    hide Column, Row, DrawText, TextInks;
    TextFrom(f, pen, px, x, y, gs, 0, k);
    assert gs[0..] == gs;
  }

  // ---- A line in any color -----------------------------------------------

  lemma {:induction false} PlacesGrow(gs: seq<Glyph>, i: nat, j: nat)
    requires i < j <= |gs| && NoNewline(gs, 0, |gs|)
    ensures Place(gs, i).0 + (if gs[i].shape.Hangul? then 19 else 6) <= Place(gs, j).0 && Place(gs, j).1 == 0
    ensures Place(gs, i).1 == 0
    decreases j
  {
    if i + 1 < j {
      PlacesGrow(gs, i, j - 1);
    } else if i > 0 {
      PlacesGrow(gs, i - 1, i);
    }
  }

  lemma InColumns(d: int, n: int, scale: int)
    requires scale >= 1 && d / scale < n
    ensures d < n * scale
  {
    var q := d / scale;
    assert d == q * scale + d % scale;
    MulMono(q + 1, n, scale);
    assert (q + 1) * scale == q * scale + scale;
  }

  /** A bit lies in the columns of its glyph, which are fewer than the glyph's advance. */
  lemma InksInside(f: Face, g: Shape, scale: int, cx: int, y: int, a: int, b: int)
    requires scale >= 1 && Inks(f, g, scale, cx, y, a, b)
    ensures cx <= a < cx + (if g.Hangul? then 18 else 5) * scale
  {
    InColumns(a - cx, if g.Hangul? then 18 else 5, scale);
  }

  /** On one line each cell belongs to at most one glyph. */
  lemma GlyphsApart(f: Face, gs: seq<Glyph>, i: nat, scale: int, x: int, y: int, a: int, b: int)
    requires scale >= 1 && i < |gs| && NoNewline(gs, 0, |gs|) && GlyphInks(f, gs, i, scale, x, y, a, b)
    ensures !TextInks(f, gs, i + 1, scale, x, y, a, b)
  {
    hide Inks, Place;
    var (p, n: int) := (Place(gs, i), if gs[i].shape.Hangul? then 18 else 5);
    InksInside(f, gs[i].shape, scale, x + p.0 * scale, y + p.1 * scale, a, b);
    assert (p.0 + n) * scale == p.0 * scale + n * scale;
    forall j | i + 1 <= j < |gs| ensures !GlyphInks(f, gs, j, scale, x, y, a, b) {
      var q := Place(gs, j);
      PlacesGrow(gs, i, j);
      MulMono(p.0 + n, q.0, scale);
      if GlyphInks(f, gs, j, scale, x, y, a, b) {
        InksInside(f, gs[j].shape, scale, x + q.0 * scale, y + q.1 * scale, a, b);
      }
    }
  }

  lemma {:induction false} LineFrom(f: Face, pen: Pen, px: seq<Pixel>, x: int, y: int, gs: seq<Glyph>, i: nat, k: nat)
    requires ValidPen(pen) && k < |px| && i <= |gs| && NoNewline(gs, 0, |gs|)
    ensures
      var (p, s) := (Place(gs, i), pen.scale);
      DrawText(f, pen, px, x, x + p.0 * s, y + p.1 * s, gs[i..]).0[k] ==
        if OnSurface(pen, k) && TextInks(f, gs, i, s, x, y, Column(pen.stride, k), Row(pen.stride, k))
        then BlendOver(px[k], pen.color) else px[k]
    decreases |gs| - i
  {
    hide Column, Row, DrawBits, Inks, Place, TextInks, Advance, BlendOver;
    var (p, s, a, b) := (Place(gs, i), pen.scale, Column(pen.stride, k), Row(pen.stride, k));
    if i == |gs| {
      NoneInks(f, gs, s, x, y, a, b);
    } else {
      assert gs[i..][0] == gs[i] && gs[i..][1..] == gs[i + 1..];
      NextPlace(gs, i, s);
      InksMore(f, gs, i, s, x, y, a, b);
      GlyphCells(f, pen, px, x + p.0 * s, y + p.1 * s, gs[i].shape, k);
      if GlyphInks(f, gs, i, s, x, y, a, b) {
        GlyphsApart(f, gs, i, s, x, y, a, b);
      }
      LineFrom(f, pen, DrawBits(f, pen, px, x + p.0 * s, y + p.1 * s, gs[i].shape, 0, 0), x, y, gs, i + 1, k);
    }
  }

  /** One line of text in any color, a translucent one too: the cells with a bit are blended with it once. */
  lemma LineCells(f: Face, pen: Pen, px: seq<Pixel>, x: int, y: int, gs: seq<Glyph>, k: nat)
    requires ValidPen(pen) && k < |px| && NoNewline(gs, 0, |gs|)
    ensures DrawText(f, pen, px, x, x, y, gs).0[k] ==
      if OnSurface(pen, k) && TextInks(f, gs, 0, pen.scale, x, y, Column(pen.stride, k), Row(pen.stride, k))
      then BlendOver(px[k], pen.color) else px[k]
  {
    hide Column, Row, DrawText, TextInks, BlendOver;
    LineFrom(f, pen, px, x, y, gs, 0, k);
    assert gs[0..] == gs;
  }
}
