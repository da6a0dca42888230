/** Drawing text with core/font.c: the cursor, and which pixels a string can touch. */
module Draw {
  import opened CTypes
  import opened Raster
  import opened Font

  /** A font: the Hangul it knows and its bitmaps, bit by (row, column). */
  datatype Face = Face(cs: Charset, latin: (byte, nat, nat) -> bool, hangul: (nat, nat, nat) -> bool)

  /** The fixed part of a drawing: the surface's sizes, the color and the scale. */
  datatype Pen = Pen(w: int, h: int, stride: int, color: Pixel, scale: int)

  predicate ValidPen(pen: Pen) {
    pen.stride >= pen.w > 0 && pen.scale >= 1
  }

  /** The bitmap's size; a blank glyph has none. */
  function Columns(g: Shape): (n: nat) {
    if g.Latin? then FONT_W else if g.Hangul? then HANGUL_W else 0
  }

  function Rows(g: Shape): (n: nat) {
    if g.Latin? then FONT_H else if g.Hangul? then HANGUL_H else 0
  }

  predicate Bit(f: Face, g: Shape, row: nat, col: nat) {
    if g.Latin? then f.latin(g.c, row, col) else g.Hangul? && f.hangul(g.cp, row, col)
  }

  function BitRect(pen: Pen, cx: int, y: int, row: nat, col: nat): (r: Rect) {
    Rect(cx + col * pen.scale, y + row * pen.scale, pen.scale, pen.scale)
  }

  /** The buffer after the glyph's bits from (row, col) on are blended in. */
  function DrawBits(f: Face, pen: Pen, px: seq<Pixel>, cx: int, y: int, g: Shape, row: nat, col: nat): (out: seq<Pixel>)
    requires ValidPen(pen)
    ensures |out| == |px|
    decreases Rows(g) - row, Columns(g) - col
  {
    if row >= Rows(g) then px
    else if col >= Columns(g) then DrawBits(f, pen, px, cx, y, g, row + 1, 0)
    else
      var px' := if Bit(f, g, row, col)
        then BlendCells(px, pen.w, pen.h, pen.stride, BitRect(pen, cx, y, row, col), pen.color) else px;
      DrawBits(f, pen, px', cx, y, g, row, col + 1)
  }

  /** The buffer and the cursor after a text; a newline returns to `x` one line down. */
  function DrawText(f: Face, pen: Pen, px: seq<Pixel>, x: int, cx: int, y: int, gs: seq<Glyph>): (r: (seq<Pixel>, int))
    requires ValidPen(pen)
    ensures |r.0| == |px|
    decreases |gs|
  {
    if gs == [] then (px, cx)
    else if gs[0].shape.Newline? then DrawText(f, pen, px, x, x, y + FONT_LINE * pen.scale, gs[1..])
    else
      DrawText(f, pen, DrawBits(f, pen, px, cx, y, gs[0].shape, 0, 0), x, cx + Advance(gs[0]) * pen.scale, y, gs[1..])
  }

  // ---- The loops ---------------------------------------------------------

  method DrawGlyph(f: Face, s: Surface, cx: int, y: int, g: Shape, color: Pixel, scale: int)
    requires s.Valid() && scale >= 1
    modifies s.pixels
    ensures s.pixels[..] == DrawBits(f, Pen(s.w, s.h, s.stride, color, scale), old(s.pixels[..]), cx, y, g, 0, 0)
  {
    hide BlendCells, Rows, Columns, Bit;
    var pen := Pen(s.w, s.h, s.stride, color, scale);
    ghost var goal := DrawBits(f, pen, s.pixels[..], cx, y, g, 0, 0);
    for row := 0 to Rows(g)
      invariant DrawBits(f, pen, s.pixels[..], cx, y, g, row, 0) == goal
    {
      for col := 0 to Columns(g)
        invariant DrawBits(f, pen, s.pixels[..], cx, y, g, row, col) == goal
      {
        if Bit(f, g, row, col) {
          BlendRect(s, BitRect(pen, cx, y, row, col), color);
        }
      }
    }
  }

  /** font_draw_scaled; returns the cursor it ends with. */
  method FontDrawScaled(f: Face, s: Surface, x: int, y: int, str: seq<byte>, color: Pixel, scale: int) returns (cx: int)
    requires s.Valid()
    modifies s.pixels
    ensures
      var pen := Pen(s.w, s.h, s.stride, color, if scale < 1 then 1 else scale);
      (s.pixels[..], cx) == DrawText(f, pen, old(s.pixels[..]), x, x, y, Glyphs(f.cs, str))
  {
    hide Glyphs, GlyphLen, ShapeOf, DrawBits, Advance;
    var scl := if scale < 1 then 1 else scale;
    ghost var pen := Pen(s.w, s.h, s.stride, color, scl);
    ghost var goal := DrawText(f, pen, s.pixels[..], x, x, y, Glyphs(f.cs, str));
    cx := x;
    var p, line := 0, y;
    assert str[0..] == str;
    while p < |str|
      invariant p <= |str|
      invariant DrawText(f, pen, s.pixels[..], x, cx, line, Glyphs(f.cs, str[p..])) == goal
      decreases |str| - p
    {
      ghost var rest := str[p..];
      GlyphsStep(f.cs, rest);
      assert rest[0] == str[p];
      if str[p] == NEWLINE {
        NewlineStep(f.cs, rest);
        assert rest[1..] == str[p + 1..];
        cx, line, p := x, line + FONT_LINE * scl, p + 1;
      } else {
        assert !ShapeOf(f.cs, rest).Newline? by { NewlineOnly(f.cs, rest); }
        var g, adv, n := ReadGlyph(f.cs, str[p..]);
        assert rest[n..] == str[p + n..];
        DrawGlyph(f, s, cx, line, g, color, scl);
        cx, p := cx + adv * scl, p + n;
      }
    }
    assert str[p..] == [];
    GlyphsOfNothing(f.cs);
  }

  lemma NewlineStep(cs: Charset, s: seq<byte>)
    requires s != [] && s[0] == NEWLINE
    ensures GlyphLen(s) == 1 && ShapeOf(cs, s).Newline?
  {
  }

  lemma NewlineOnly(cs: Charset, s: seq<byte>)
    requires s != [] && s[0] != NEWLINE
    ensures !ShapeOf(cs, s).Newline?
  {
  }

  /** The glyph at the cursor, as the drawing loop decodes it. */
  method ReadGlyph(cs: Charset, s: seq<byte>) returns (g: Shape, adv: nat, n: nat)
    requires s != [] && s[0] != NEWLINE
    ensures n == GlyphLen(s) && g == ShapeOf(cs, s) && adv == Advance(Glyph(n, g))
  {
    if 32 <= s[0] <= 126 {
      return Latin(s[0]), FONT_ADV, 1;
    }
    n := SeqLen(s[0]);
    if n > 1 {
      var valid := CheckSequence(s, n);
      if !valid {
        n := 1;
      }
    }
    g, adv := Blank, FONT_ADV;
    if n == 3 {
      var idx := HangulLookup(cs, CodePoint(s));
      if idx >= 0 {
        g, adv := Hangul(cs[idx]), HANGUL_ADV;
      }
    }
  }

  // ---- What a text can touch ---------------------------------------------

  /** Two buffers that differ only inside `box`. */
  ghost predicate SameOutside(px: seq<Pixel>, px': seq<Pixel>, stride: int, box: Rect) {
    && stride > 0 && |px| == |px'|
    && forall k :: 0 <= k < |px| && !Inside(box, Column(stride, k), Row(stride, k)) ==> px'[k] == px[k]
  }

  predicate Within(r: Rect, box: Rect) {
    box.x <= r.x && r.x + r.w <= box.x + box.w && box.y <= r.y && r.y + r.h <= box.y + box.h
  }

  lemma BlendStaysInside(pen: Pen, px: seq<Pixel>, r: Rect, box: Rect)
    requires ValidPen(pen) && Within(r, box)
    ensures SameOutside(px, BlendCells(px, pen.w, pen.h, pen.stride, r, pen.color), pen.stride, box)
  {
    hide Column, Row, BlendOver;
  }

  lemma SameTwice(a: seq<Pixel>, b: seq<Pixel>, c: seq<Pixel>, stride: int, box: Rect)
    requires SameOutside(a, b, stride, box) && SameOutside(b, c, stride, box)
    ensures SameOutside(a, c, stride, box)
  {
    hide Column, Row;
  }

  lemma SameWider(a: seq<Pixel>, b: seq<Pixel>, stride: int, box: Rect, wide: Rect)
    requires SameOutside(a, b, stride, box) && Within(box, wide)
    ensures SameOutside(a, b, stride, wide)
  {
    hide Column, Row;
  }

  lemma SameSelf(a: seq<Pixel>, stride: int, box: Rect)
    requires stride > 0
    ensures SameOutside(a, a, stride, box)
  {
    hide Column, Row;
  }

  /** The cells of a glyph's bitmap. */
  function GlyphBox(pen: Pen, cx: int, y: int, g: Shape): (r: Rect) {
    Rect(cx, y, Columns(g) * pen.scale, Rows(g) * pen.scale)
  }

  lemma BitInside(pen: Pen, cx: int, y: int, g: Shape, row: nat, col: nat)
    requires ValidPen(pen) && row < Rows(g) && col < Columns(g)
    ensures Within(BitRect(pen, cx, y, row, col), GlyphBox(pen, cx, y, g))
  {
    MulMono(0, col, pen.scale);
    MulMono(col + 1, Columns(g), pen.scale);
    MulMono(0, row, pen.scale);
    MulMono(row + 1, Rows(g), pen.scale);
    assert (col + 1) * pen.scale == col * pen.scale + pen.scale && (row + 1) * pen.scale == row * pen.scale + pen.scale;
  }

  lemma {:induction false} BitsStayInside(f: Face, pen: Pen, px: seq<Pixel>, cx: int, y: int, g: Shape, row: nat,
                                          col: nat)
    requires ValidPen(pen)
    ensures SameOutside(px, DrawBits(f, pen, px, cx, y, g, row, col), pen.stride, GlyphBox(pen, cx, y, g))
    decreases Rows(g) - row, Columns(g) - col
  {
    hide BlendCells, SameOutside, BitRect, Rows, Columns, Bit;
    var box := GlyphBox(pen, cx, y, g);
    SameSelf(px, pen.stride, box);
    if row < Rows(g) {
      if col >= Columns(g) {
        BitsStayInside(f, pen, px, cx, y, g, row + 1, 0);
      } else {
        var r := BitRect(pen, cx, y, row, col);
        var px' := if Bit(f, g, row, col) then BlendCells(px, pen.w, pen.h, pen.stride, r, pen.color) else px;
        BitInside(pen, cx, y, g, row, col);
        BlendStaysInside(pen, px, r, box);
        BitsStayInside(f, pen, px', cx, y, g, row, col + 1);
        SameTwice(px, px', DrawBits(f, pen, px', cx, y, g, row, col + 1), pen.stride, box);
      }
    }
  }

  /** The measured extent of a line of text at scale `scale`: its width by the tallest glyph. */
  function TextBox(gs: seq<Glyph>, x: int, y: int, scale: int): (r: Rect) {
    Rect(x, y, Width(gs, 0, |gs|) * scale, HANGUL_H * scale)
  }

  /** A line of text moves the cursor by its measured width and one more column, and changes no pixel outside its
      measured extent. */
  lemma {:induction false} DrawsWhatItMeasures(f: Face, pen: Pen, px: seq<Pixel>, x: int, y: int, gs: seq<Glyph>)
    requires ValidPen(pen) && gs != [] && NoNewline(gs, 0, |gs|)
    ensures DrawText(f, pen, px, x, x, y, gs).1 == x + (Width(gs, 0, |gs|) + 1) * pen.scale
    ensures SameOutside(px, DrawText(f, pen, px, x, x, y, gs).0, pen.stride, TextBox(gs, x, y, pen.scale))
  {
    RunStaysInside(f, pen, px, x, x, y, gs, 0);
    assert gs[0..] == gs;
    PosMonotone(gs, 0, |gs|);
  }

  /** The same from the k-th glyph on, with the cursor where the glyphs before it left it. */
  lemma {:induction false} RunStaysInside(f: Face, pen: Pen, px: seq<Pixel>, x: int, cx: int, y: int, gs: seq<Glyph>,
                                          k: nat)
    requires ValidPen(pen) && k <= |gs| && NoNewline(gs, 0, |gs|) && cx == x + Pos(gs, k) * pen.scale
    ensures DrawText(f, pen, px, x, cx, y, gs[k..]).1 == x + Pos(gs, |gs|) * pen.scale
    ensures SameOutside(px, DrawText(f, pen, px, x, cx, y, gs[k..]).0, pen.stride, TextBox(gs, x, y, pen.scale))
    decreases |gs| - k
  {
    hide SameOutside, DrawBits, TextBox;
    var box := TextBox(gs, x, y, pen.scale);
    SameSelf(px, pen.stride, box);
    if k < |gs| {
      var g := gs[k];
      assert gs[k..][0] == g && gs[k..][1..] == gs[k + 1..];
      var px' := DrawBits(f, pen, px, cx, y, g.shape, 0, 0);
      BitsStayInside(f, pen, px, cx, y, g.shape, 0, 0);
      GlyphInText(pen, x, cx, y, gs, k);
      SameWider(px, px', pen.stride, GlyphBox(pen, cx, y, g.shape), box);
      assert cx + Advance(g) * pen.scale == x + Pos(gs, k + 1) * pen.scale by {
        assert (Pos(gs, k) + Advance(g)) * pen.scale == Pos(gs, k) * pen.scale + Advance(g) * pen.scale;
      }
      RunStaysInside(f, pen, px', x, cx + Advance(g) * pen.scale, y, gs, k + 1);
      SameTwice(px, px', DrawText(f, pen, px', x, cx + Advance(g) * pen.scale, y, gs[k + 1..]).0, pen.stride, box);
    }
  }

  lemma PosSteps(gs: seq<Glyph>, k: nat)
    requires k < |gs|
    ensures Pos(gs, 0) == 0 && Pos(gs, k + 1) == Pos(gs, k) + Advance(gs[k])
  {
  }

  /** A glyph ends at least a column before the text does. */
  lemma GlyphEnds(gs: seq<Glyph>, k: nat)
    requires k < |gs|
    ensures 0 <= Pos(gs, k) && Pos(gs, k) + Columns(gs[k].shape) <= Width(gs, 0, |gs|)
    ensures 0 <= Columns(gs[k].shape) && 0 <= Rows(gs[k].shape) <= HANGUL_H
  {
    hide Pos;
    PosSteps(gs, k);
    PosMonotone(gs, 0, k);
    PosMonotone(gs, k + 1, |gs|);
  }

  /** Each glyph's bitmap lies in the text's measured extent. */
  lemma GlyphInText(pen: Pen, x: int, cx: int, y: int, gs: seq<Glyph>, k: nat)
    requires ValidPen(pen) && k < |gs| && cx == x + Pos(gs, k) * pen.scale
    ensures Within(GlyphBox(pen, cx, y, gs[k].shape), TextBox(gs, x, y, pen.scale))
  {
    GlyphEnds(gs, k);
    hide Pos, Columns, Rows, Width;
    ScaledWithin(Pos(gs, k), Columns(gs[k].shape), Width(gs, 0, |gs|), pen.scale);
    MulMono(Rows(gs[k].shape), HANGUL_H, pen.scale);
  }

  lemma ScaledWithin(a: int, b: int, n: int, k: int)
    requires 0 <= a && a + b <= n && k >= 1
    ensures 0 <= a * k && a * k + b * k <= n * k
  {
    MulMono(0, a, k);
    MulMono(a + b, n, k);
    assert (a + b) * k == a * k + b * k;
  }

  // ---- How far down a text reaches ---------------------------------------

  /** The rows of a text from its top to its lowest bitmap; newlines with nothing to draw after them do not count. */
  function Depth(gs: seq<Glyph>, scale: nat): (d: nat)
    decreases |gs|
  {
    if gs == [] then 0
    else
      var d := Depth(gs[1..], scale);
      if gs[0].shape.Newline? then (if d == 0 then 0 else FONT_LINE * scale + d)
      else if Rows(gs[0].shape) * scale > d then Rows(gs[0].shape) * scale else d
  }

  /** Two buffers that differ only in the rows from `top` up to `bottom`. */
  ghost predicate SameRows(px: seq<Pixel>, px': seq<Pixel>, stride: int, top: int, bottom: int) {
    && stride > 0 && |px| == |px'|
    && forall k :: 0 <= k < |px| && !(top <= Row(stride, k) < bottom) ==> px'[k] == px[k]
  }

  lemma SameRowsTwice(a: seq<Pixel>, b: seq<Pixel>, c: seq<Pixel>, stride: int, t: int, u: int, v: int, w: int,
                      top: int, bottom: int)
    requires SameRows(a, b, stride, t, u) && SameRows(b, c, stride, v, w)
    requires t < u ==> top <= t && u <= bottom
    requires v < w ==> top <= v && w <= bottom
    ensures SameRows(a, c, stride, top, bottom)
  {
    hide Row;
  }

  lemma BoxRows(px: seq<Pixel>, px': seq<Pixel>, stride: int, box: Rect)
    requires SameOutside(px, px', stride, box)
    ensures SameRows(px, px', stride, box.y, box.y + box.h)
  {
    hide Row, Column;
  }

  lemma RowsSelf(px: seq<Pixel>, stride: int, y: int)
    requires stride > 0
    ensures SameRows(px, px, stride, y, y)
  {
    hide Row;
  }

  /** No text changes a pixel above its top or below its depth, newlines included. */
  lemma {:induction false} TextInRows(f: Face, pen: Pen, px: seq<Pixel>, x: int, cx: int, y: int, gs: seq<Glyph>)
    requires ValidPen(pen)
    ensures SameRows(px, DrawText(f, pen, px, x, cx, y, gs).0, pen.stride, y, y + Depth(gs, pen.scale))
    decreases |gs|
  {
    hide SameRows, SameOutside, DrawBits, Rows, Columns;
    RowsSelf(px, pen.stride, y);
    if gs != [] {
      var (rest, d) := (gs[1..], Depth(gs[1..], pen.scale));
      var bottom := y + Depth(gs, pen.scale);
      if gs[0].shape.Newline? {
        var y' := y + FONT_LINE * pen.scale;
        TextInRows(f, pen, px, x, x, y', rest);
        SameRowsTwice(px, px, DrawText(f, pen, px, x, x, y', rest).0, pen.stride, y, y, y', y' + d, y, bottom);
      } else {
        var px' := DrawBits(f, pen, px, cx, y, gs[0].shape, 0, 0);
        var box := GlyphBox(pen, cx, y, gs[0].shape);
        BitsStayInside(f, pen, px, cx, y, gs[0].shape, 0, 0);
        BoxRows(px, px', pen.stride, box);
        TextInRows(f, pen, px', x, cx + Advance(gs[0]) * pen.scale, y, rest);
        SameRowsTwice(px, px', DrawText(f, pen, px', x, cx + Advance(gs[0]) * pen.scale, y, rest).0, pen.stride,
                      y, y + box.h, y, y + d, y, bottom);
      }
    }
  }

  // ---- Opaque text -------------------------------------------------------

  /** Cells that changed took the color. */
  ghost predicate Inked(px: seq<Pixel>, px': seq<Pixel>, color: Pixel) {
    |px| == |px'| && forall k :: 0 <= k < |px| ==> px'[k] == px[k] || px'[k] == color
  }

  lemma {:induction false} BitsInk(f: Face, pen: Pen, px: seq<Pixel>, cx: int, y: int, g: Shape, row: nat, col: nat)
    requires ValidPen(pen) && pen.color.a == 255
    ensures Inked(px, DrawBits(f, pen, px, cx, y, g, row, col), pen.color)
    decreases Rows(g) - row, Columns(g) - col
  {
    hide Column, Row, Bit, Rows, Columns, BitRect, Inside;
    if row < Rows(g) {
      if col >= Columns(g) {
        BitsInk(f, pen, px, cx, y, g, row + 1, 0);
      } else {
        var px' := if Bit(f, g, row, col)
          then BlendCells(px, pen.w, pen.h, pen.stride, BitRect(pen, cx, y, row, col), pen.color) else px;
        BitsInk(f, pen, px', cx, y, g, row, col + 1);
      }
    }
  }

  /** A text in an opaque color leaves no other color behind. */
  lemma {:induction false} TextInk(f: Face, pen: Pen, px: seq<Pixel>, x: int, cx: int, y: int, gs: seq<Glyph>)
    requires ValidPen(pen) && pen.color.a == 255
    ensures Inked(px, DrawText(f, pen, px, x, cx, y, gs).0, pen.color)
    decreases |gs|
  {
    hide DrawBits;
    if gs != [] && gs[0].shape.Newline? {
      TextInk(f, pen, px, x, x, y + FONT_LINE * pen.scale, gs[1..]);
    } else if gs != [] {
      BitsInk(f, pen, px, cx, y, gs[0].shape, 0, 0);
      TextInk(f, pen, DrawBits(f, pen, px, cx, y, gs[0].shape, 0, 0), x, cx + Advance(gs[0]) * pen.scale, y, gs[1..]);
    }
  }

  /** Every bit of every glyph is set. */
  ghost predicate Solid(f: Face) {
    && (forall c, row, col :: f.latin(c, row, col))
    && (forall cp, row, col :: f.hangul(cp, row, col))
  }

  /** A bit still to be drawn is inked in the end. */
  lemma {:induction false} BitReached(f: Face, pen: Pen, px: seq<Pixel>, cx: int, y: int, g: Shape, row: nat, col: nat,
                                      k: nat)
    requires ValidPen(pen) && pen.scale == 1 && pen.color.a == 255 && Solid(f)
    requires row < Rows(g) && col <= Columns(g) && (row == Rows(g) - 1 ==> col == 0)
    requires k < |px| && Column(pen.stride, k) == cx < pen.w && Row(pen.stride, k) == y + Rows(g) - 1 < pen.h
    ensures DrawBits(f, pen, px, cx, y, g, row, col)[k] == pen.color
    decreases Rows(g) - row, Columns(g) - col
  {
    hide Column, Row;
    if col >= Columns(g) {
      BitReached(f, pen, px, cx, y, g, row + 1, 0, k);
    } else {
      var px' := BlendCells(px, pen.w, pen.h, pen.stride, BitRect(pen, cx, y, row, col), pen.color);
      assert Bit(f, g, row, col);
      if row == Rows(g) - 1 {
        assert px'[k] == pen.color;
        BitsInk(f, pen, px', cx, y, g, row, col + 1);
      } else {
        BitReached(f, pen, px', cx, y, g, row, col + 1, k);
      }
    }
  }

  /** The depth is exact: on a surface with room for the text a solid font inks its last row. */
  lemma {:induction false} DepthReached(f: Face, pen: Pen, px: seq<Pixel>, x: int, cx: int, y: int, gs: seq<Glyph>)
    returns (k: nat)
    requires ValidPen(pen) && pen.scale == 1 && pen.color.a == 255 && Solid(f) && Depth(gs, 1) > 0
    requires 0 <= x <= cx && cx + HANGUL_ADV * |gs| <= pen.w && 0 <= y && y + Depth(gs, 1) <= pen.h
    requires |px| >= (pen.h - 1) * pen.stride + pen.w
    ensures k < |px| && Row(pen.stride, k) == y + Depth(gs, 1) - 1
    ensures DrawText(f, pen, px, x, cx, y, gs).0[k] == pen.color
    decreases |gs|
  {
    hide DrawBits, Row, Column, Solid;
    var g, rest := gs[0].shape, gs[1..];
    if g.Newline? {
      k := DepthReached(f, pen, px, x, x, y + FONT_LINE, rest);
    } else {
      var px' := DrawBits(f, pen, px, cx, y, g, 0, 0);
      if Rows(g) > Depth(rest, 1) {
        k := LastBit(f, pen, px, cx, y, g);
        TextInk(f, pen, px', x, cx + Advance(gs[0]), y, rest);
      } else {
        k := DepthReached(f, pen, px', x, cx + Advance(gs[0]), y, rest);
      }
    }
  }

  lemma LastBit(f: Face, pen: Pen, px: seq<Pixel>, cx: int, y: int, g: Shape) returns (k: nat)
    requires ValidPen(pen) && pen.scale == 1 && pen.color.a == 255 && Solid(f) && Rows(g) > 0
    requires 0 <= cx < pen.w && 0 <= y && y + Rows(g) <= pen.h && |px| >= (pen.h - 1) * pen.stride + pen.w
    ensures k < |px| && Row(pen.stride, k) == y + Rows(g) - 1
    ensures DrawBits(f, pen, px, cx, y, g, 0, 0)[k] == pen.color
  {
    hide DrawBits, Solid;
    CellInRange(pen.stride, pen.w, pen.h, cx, y + Rows(g) - 1);
    k := Cell(pen.stride, cx, y + Rows(g) - 1);
    CellAt(pen.stride, cx, y + Rows(g) - 1, k);
    BitReached(f, pen, px, cx, y, g, 0, 0, k);
  }

  /** Without a newline a text is no deeper than a Hangul glyph, and than a Latin one when all its glyphs are Latin. */
  lemma {:induction false} DepthOfLine(gs: seq<Glyph>, scale: nat)
    requires NoNewline(gs, 0, |gs|)
    ensures Depth(gs, scale) <= HANGUL_H * scale
    ensures (forall i :: 0 <= i < |gs| ==> gs[i].shape.Latin?) ==> Depth(gs, scale) <= FONT_H * scale
    decreases |gs|
  {
    if gs != [] {
      forall i | 0 <= i < |gs| - 1 ensures gs[1..][i] == gs[i + 1] {
      }
      DepthOfLine(gs[1..], scale);
      MulMono(Rows(gs[0].shape), HANGUL_H, scale);
    }
  }

  /** A text without a newline byte is one line of glyphs. */
  lemma {:induction false} OneLine(cs: Charset, t: seq<byte>)
    requires NEWLINE !in t
    ensures NoNewline(Glyphs(cs, t), 0, |Glyphs(cs, t)|)
    decreases |t|
  {
    hide Glyphs, GlyphLen;
    GlyphsOfNothing(cs);
    if t != [] {
      GlyphsStep(cs, t);
      NewlineOnly(cs, t);
      OneLine(cs, t[GlyphLen(t)..]);
      var g := Glyphs(cs, t);
      forall k | 0 <= k < |g| ensures !g[k].shape.Newline? {
        assert k > 0 ==> g[k] == g[1..][k - 1];
      }
    }
  }

  lemma {:induction false} AsciiIsLatin(cs: Charset, t: seq<byte>)
    requires forall j :: 0 <= j < |t| ==> 32 <= t[j] <= 126
    ensures forall i :: 0 <= i < |Glyphs(cs, t)| ==> Glyphs(cs, t)[i].shape.Latin?
    decreases |t|
  {
    hide Glyphs;
    GlyphsOfNothing(cs);
    if t != [] {
      GlyphsStep(cs, t);
      AsciiIsLatin(cs, t[GlyphLen(t)..]);
      var g := Glyphs(cs, t);
      forall i | 0 <= i < |g| ensures g[i].shape.Latin? {
        assert i > 0 ==> g[i] == g[1..][i - 1];
      }
    }
  }
}
