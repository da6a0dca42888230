/** What a card's drawing keeps, where it stays, when its texts run out of it, and that its rows depend on nothing
    else. */
module PaintLaws {
  import opened CTypes
  import opened Raster
  import opened Font
  import opened Caption
  import opened Draw
  import opened Feed
  import opened FeedLaws
  import opened Paint

  // the margin left of the cards
  const EDGE := 6

  // ---- Texts and their room ----------------------------------------------

  /**
   * Every text of the card ends within it: what likes, username and location need is the room from their tops to the
   * card's bottom, and a line of comments has its own eight rows and the padding. Captions always do.
   */
  predicate TextsFit(cs: Charset, w: int, v: View) {
    var room := BlockHeight(cs, w - 2 * POST_PAD, v.caption, v.comments.Some?, v.expanded) + POST_PAD;
    && TextDepth(cs, v.likes) <= room
    && FONT_LINE + 1 + TextDepth(cs, v.user) <= room
    && (v.loc.Some? ==> 21 + TextDepth(cs, v.loc.value) <= w + 50 + room)
    && (v.comments.Some? ==> TextDepth(cs, v.comments.value) <= FONT_LINE + POST_PAD)
  }

  /** The rows a text takes at scale 1. */
  function TextDepth(cs: Charset, t: seq<byte>): (d: nat) {
    Depth(Glyphs(cs, t), 1)
  }

  /** Texts without newlines fit, and comments without Hangul. */
  lemma PlainTextsFit(cs: Charset, w: int, v: View)
    requires w >= -2 * EDGE && NEWLINE !in v.likes && NEWLINE !in v.user && (v.loc.Some? ==> NEWLINE !in v.loc.value)
    requires v.comments.Some? ==> forall j :: 0 <= j < |v.comments.value| ==> 32 <= v.comments.value[j] <= 126
    ensures TextsFit(cs, w, v)
  {
    hide Glyphs, BlockHeight;
    LineDepth(cs, v.likes);
    LineDepth(cs, v.user);
    if v.loc.Some? {
      LineDepth(cs, v.loc.value);
    }
    if v.comments.Some? {
      AsciiIsLatin(cs, v.comments.value);
      OneLine(cs, v.comments.value);
      DepthOfLine(Glyphs(cs, v.comments.value), 1);
    }
  }

  lemma LineDepth(cs: Charset, t: seq<byte>)
    requires NEWLINE !in t
    ensures TextDepth(cs, t) <= HANGUL_H
  {
    hide Glyphs;
    OneLine(cs, t);
    DepthOfLine(Glyphs(cs, t), 1);
  }

  // ---- What drawing a card may change ------------------------------------

  /**
   * A card's place on a surface: its rows, and the column of its left edge. `plain` when its texts end in those rows,
   * `off` when all of it lies beside the surface.
   */
  datatype Place = Place(stride: int, rows: int, edge: int, top: int, height: int, plain: bool, off: bool)

  predicate InRows(b: Place, k: int)
    requires b.stride > 0
  {
    b.top <= Row(b.stride, k) < b.top + b.height
  }

  /**
   * On the edge only the card's rows change; there, and in all other rows, nothing turns back into background. Other
   * rows keep every pixel when all texts end in the card, those above it always; nothing at all changes beside the
   * surface.
   */
  predicate KeepsAt(px: seq<Pixel>, px': seq<Pixel>, b: Place, k: int)
    requires b.stride > 0 && |px| == |px'| && 0 <= k < |px|
  {
    && (Column(b.stride, k) == b.edge && !InRows(b, k) ==> px'[k] == px[k])
    && ((Column(b.stride, k) == b.edge || !InRows(b, k)) && px[k] != C_FACE ==> px'[k] != C_FACE)
    && (b.plain && !InRows(b, k) ==> px'[k] == px[k])
    && (Row(b.stride, k) < b.top ==> px'[k] == px[k])
    && (b.off ==> px'[k] == px[k])
  }

  ghost predicate Keeps(px: seq<Pixel>, px': seq<Pixel>, b: Place) {
    b.stride > 0 && |px| == |px'| && forall k :: 0 <= k < |px| ==> KeepsAt(px, px', b, k)
  }

  /** The card's left edge is drawn: none of its pixels on the surface is background. */
  ghost predicate Edged(px: seq<Pixel>, b: Place) {
    && b.stride > 0
    && forall k :: 0 <= k < |px| && Column(b.stride, k) == b.edge && InRows(b, k) && Row(b.stride, k) < b.rows ==>
      px[k] != C_FACE
  }

  /** Something other than background lies outside the card's rows. */
  ghost predicate Spilled(px: seq<Pixel>, b: Place) {
    b.stride > 0 && exists k :: 0 <= k < |px| && !InRows(b, k) && px[k] != C_FACE
  }

  lemma KeepsSelf(px: seq<Pixel>, b: Place)
    requires b.stride > 0
    ensures Keeps(px, px, b)
  {
    hide Column, Row;
  }

  lemma KeepsTwice(a: seq<Pixel>, m: seq<Pixel>, z: seq<Pixel>, b: Place)
    requires Keeps(a, m, b) && Keeps(m, z, b)
    ensures Keeps(a, z, b)
  {
    hide Column, Row;
    forall k | 0 <= k < |a| ensures KeepsAt(a, z, b, k) {
      assert KeepsAt(a, m, b, k) && KeepsAt(m, z, b, k);
    }
  }

  lemma KeepsEdge(px: seq<Pixel>, px': seq<Pixel>, b: Place)
    requires Keeps(px, px', b) && Edged(px, b)
    ensures Edged(px', b)
  {
    hide Column, Row;
    forall k | 0 <= k < |px| && Column(b.stride, k) == b.edge && InRows(b, k) && Row(b.stride, k) < b.rows
      ensures px'[k] != C_FACE
    {
      assert KeepsAt(px, px', b, k);
    }
  }

  lemma KeepsSpill(px: seq<Pixel>, px': seq<Pixel>, b: Place)
    requires Keeps(px, px', b) && Spilled(px, b)
    ensures Spilled(px', b)
  {
    hide Column, Row;
    var k :| 0 <= k < |px| && !InRows(b, k) && px[k] != C_FACE;
    assert KeepsAt(px, px', b, k);
  }

  predicate Empty(r: Rect) {
    r.w <= 0 || r.h <= 0
  }

  /** A rectangle of the card: within its rows, and beside the surface if the card is; clear of the edge unless
      `inked`. */
  predicate FitsPlace(r: Rect, b: Place, inked: bool) {
    || Empty(r)
    || (&& b.top <= r.y && r.y + r.h <= b.top + b.height
        && (inked || r.x > b.edge || r.x + r.w <= b.edge)
        && (b.off ==> r.x >= b.stride || r.x + r.w <= 0))
  }

  /** A text of the card: right of its edge, below its top, beside the surface if the card is, and in the card's rows if
      it is plain. */
  predicate FitsText(cs: Charset, r: TextRun, b: Place) {
    && r.color.a == 255 && r.color != C_FACE && r.x > b.edge && (b.off ==> r.x >= b.stride)
    && b.top <= r.y && (b.plain && TextDepth(cs, r.text) > 0 ==> r.y + TextDepth(cs, r.text) <= b.top + b.height)
  }

  predicate FitsOp(cs: Charset, op: Op, b: Place) {
    match op
    case FillOp(t) => FitsPlace(t.r, b, t.color != C_FACE)
    case TextOp(r) => FitsText(cs, r, b)
    case PhotoOp(dx, dy, _, w, h) => FitsPlace(Rect(dx, dy, w, h), b, false)
  }

  lemma KeepsInside(px: seq<Pixel>, px': seq<Pixel>, r: Rect, b: Place)
    requires SameOutside(px, px', b.stride, r) && FitsPlace(r, b, false)
    ensures Keeps(px, px', b)
  {
    forall k | 0 <= k < |px| ensures 0 <= Column(b.stride, k) < b.stride {
    }
    hide Column, Row;
  }

  lemma KeepsFill(px: seq<Pixel>, w: int, h: int, r: Rect, color: Pixel, b: Place)
    requires b.stride >= w > 0 && FitsPlace(r, b, color != C_FACE)
    ensures Keeps(px, FillCells(px, w, h, b.stride, r, color), b)
  {
    forall k | 0 <= k < |px| ensures 0 <= Column(b.stride, k) < b.stride {
    }
    hide Column, Row;
  }

  /** Nothing left of `x` changes. */
  ghost predicate LeftKept(px: seq<Pixel>, px': seq<Pixel>, stride: int, x: int) {
    stride > 0 && |px| == |px'| && forall k :: 0 <= k < |px| && Column(stride, k) < x ==> px'[k] == px[k]
  }

  lemma LeftOfBox(px: seq<Pixel>, px': seq<Pixel>, stride: int, x: int, box: Rect)
    requires SameOutside(px, px', stride, box) && x <= box.x
    ensures LeftKept(px, px', stride, x)
  {
    hide Column, Row;
  }

  lemma LeftTwice(a: seq<Pixel>, b: seq<Pixel>, c: seq<Pixel>, stride: int, x: int)
    requires LeftKept(a, b, stride, x) && LeftKept(b, c, stride, x)
    ensures LeftKept(a, c, stride, x)
  {
    hide Column, Row;
  }

  lemma LeftSelf(a: seq<Pixel>, stride: int, x: int)
    requires stride > 0
    ensures LeftKept(a, a, stride, x)
  {
    hide Column, Row;
  }

  /** However a text breaks its lines, nothing left of where they start changes. */
  lemma {:induction false} TextGoesRight(f: Face, pen: Pen, px: seq<Pixel>, x: int, cx: int, y: int, gs: seq<Glyph>)
    requires ValidPen(pen) && cx >= x
    ensures LeftKept(px, DrawText(f, pen, px, x, cx, y, gs).0, pen.stride, x)
    decreases |gs|
  {
    hide LeftKept, DrawBits, SameOutside, Advance;
    LeftSelf(px, pen.stride, x);
    if gs != [] && gs[0].shape.Newline? {
      TextGoesRight(f, pen, px, x, x, y + FONT_LINE * pen.scale, gs[1..]);
    } else if gs != [] {
      var px' := DrawBits(f, pen, px, cx, y, gs[0].shape, 0, 0);
      BitsStayInside(f, pen, px, cx, y, gs[0].shape, 0, 0);
      LeftOfBox(px, px', pen.stride, x, GlyphBox(pen, cx, y, gs[0].shape));
      MulMono(0, Advance(gs[0]), pen.scale);
      TextGoesRight(f, pen, px', x, cx + Advance(gs[0]) * pen.scale, y, gs[1..]);
      LeftTwice(px, px', DrawText(f, pen, px', x, cx + Advance(gs[0]) * pen.scale, y, gs[1..]).0, pen.stride, x);
    }
  }

  lemma KeepsText(f: Face, w: int, h: int, px: seq<Pixel>, r: TextRun, b: Place)
    requires b.stride >= w > 0 && FitsText(f.cs, r, b)
    ensures Keeps(px, DrawText(f, Pen(w, h, b.stride, r.color, 1), px, r.x, r.x, r.y, Glyphs(f.cs, r.text)).0, b)
  {
    hide Glyphs, DrawText;
    var pen := Pen(w, h, b.stride, r.color, 1);
    var gs := Glyphs(f.cs, r.text);
    var px' := DrawText(f, pen, px, r.x, r.x, r.y, gs).0;
    TextGoesRight(f, pen, px, r.x, r.x, r.y, gs);
    TextInRows(f, pen, px, r.x, r.x, r.y, gs);
    TextInk(f, pen, px, r.x, r.x, r.y, gs);
    forall k | 0 <= k < |px| ensures 0 <= Column(b.stride, k) < b.stride {
    }
    hide Column, Row;
    forall k | 0 <= k < |px| ensures KeepsAt(px, px', b, k) {
    }
  }

  lemma BlitStays(dpx: seq<Pixel>, dw: int, dh: int, stride: int, spx: seq<Pixel>, sw: int, sh: int, sstride: int,
                  dx: int, dy: int)
    requires stride >= dw > 0
    ensures
      var out := BlitCells(Copy, dpx, dw, dh, stride, spx, sw, sh, sstride, dx, dy, Rect(0, 0, sw, sh));
      SameOutside(dpx, out, stride, Rect(dx, dy, sw, sh))
  {
    hide Column, Row, Sample;
  }

  lemma OpKeeps(c: Canvas, px: seq<Pixel>, op: Op, b: Place)
    requires c.Valid() && b.stride == c.stride && FitsOp(c.f.cs, op, b)
    ensures Keeps(px, Did(c, px, op), b)
  {
    hide Keeps, FitsPlace, FitsText, FillCells, DrawText, Glyphs, BlitCells, SameOutside;
    match op
    case FillOp(t) => KeepsFill(px, c.w, c.h, t.r, t.color, b);
    case TextOp(r) => KeepsText(c.f, c.w, c.h, px, r, b);
    case PhotoOp(dx, dy, spx, w, h) =>
      BlitStays(px, c.w, c.h, c.stride, spx, w, h, w, dx, dy);
      KeepsInside(px, Did(c, px, op), Rect(dx, dy, w, h), b);
  }

  ghost predicate OpsFit(cs: Charset, ops: seq<Op>, b: Place) {
    forall op :: op in ops ==> FitsOp(cs, op, b)
  }

  lemma BothFit(cs: Charset, s: seq<Op>, r: seq<Op>, b: Place)
    requires OpsFit(cs, s, b) && OpsFit(cs, r, b)
    ensures OpsFit(cs, s + r, b)
  {
    hide FitsOp;
  }

  lemma {:induction false} OpsKeep(c: Canvas, px: seq<Pixel>, ops: seq<Op>, b: Place)
    requires c.Valid() && b.stride == c.stride && OpsFit(c.f.cs, ops, b)
    ensures Keeps(px, Painted(c, px, ops), b)
    decreases |ops|
  {
    hide Keeps, FitsOp, Did;
    KeepsSelf(px, b);
    if ops != [] {
      OpKeeps(c, px, ops[0], b);
      OpsKeep(c, Did(c, px, ops[0]), ops[1..], b);
      KeepsTwice(px, Did(c, px, ops[0]), Painted(c, px, ops), b);
    }
  }

  // ---- A card's list fits its place --------------------------------------

  /** Where draw_post draws. */
  function CardPlace(cs: Charset, stride: int, rows: int, x: int, y: int, w: int, v: View): (b: Place) {
    Place(stride, rows, x, y, CardHeight(cs, w, v.caption, v.comments.Some?, v.expanded), TextsFit(cs, w, v),
          w <= 0 && x + POST_PAD >= stride && x + w <= POST_PAD + 1)
  }

  lemma FillsFit(cs: Charset, ss: seq<Stroke>, b: Place)
    requires forall i :: 0 <= i < |ss| ==> FitsPlace(ss[i].r, b, ss[i].color != C_FACE)
    ensures OpsFit(cs, Fills(ss), b)
  {
    hide FitsPlace;
  }

  lemma SidesFit(cs: Charset, r: Rect, light: Pixel, dark: Pixel, b: Place)
    requires FitsPlace(r, b, true) && light != C_FACE && dark != C_FACE
    ensures OpsFit(cs, Fills(Sides(r, light, dark)), b) && OpsFit(cs, Fills(Outline(r, light)), b)
  {
    FillsFit(cs, Sides(r, light, dark), b);
    FillsFit(cs, Outline(r, light), b);
  }

  lemma PanelFits(cs: Charset, r: Rect, b: Place)
    requires FitsPlace(r, b, true)
    ensures OpsFit(cs, SunkenOps(r), b) && OpsFit(cs, RaisedOps(r), b)
  {
    SidesFit(cs, r, C_SHADOW, C_HILIGHT, b);
    SidesFit(cs, Inner(r), C_DARK, C_LIGHT, b);
    SidesFit(cs, r, C_HILIGHT, C_DARK, b);
    SidesFit(cs, Inner(r), C_LIGHT, C_SHADOW, b);
    hide FitsOp, Fills, Sides;
  }

  lemma GradientFits(cs: Charset, r: Rect, top: Pixel, bot: Pixel, b: Place)
    requires FitsPlace(r, b, false)
    ensures OpsFit(cs, GradientOps(r, top, bot), b)
  {
    hide Shade;
  }

  lemma HeaderFits(cs: Charset, stride: int, rows: int, x: int, y: int, w: int, v: View)
    requires w >= -2 * EDGE
    ensures
      var b := CardPlace(cs, stride, rows, x, y, w, v);
      var (cx, cw, cy) := (x + POST_PAD, w - 2 * POST_PAD, y + POST_PAD);
      && b.height > 0 && FitsPlace(Rect(x, y, w, b.height), b, true)
      && FitsPlace(Rect(cx, cy, 24, 24), b, true) && FitsPlace(Rect(cx + 2, cy + 2, 20, 20), b, false)
      && FitsText(cs, TextRun(cx + 32, cy + 3, v.user, C_TEXT), b)
      && (v.loc.Some? ==> FitsText(cs, TextRun(cx + 32, cy + 13, v.loc.value, C_SHADOW), b))
      && forall i :: 0 <= i < 3 ==> FitsPlace(Dot(cx, cw, cy, i), b, true)
  {
    hide BlockHeight, TextDepth;
  }

  lemma HeaderOpsFit(cs: Charset, stride: int, rows: int, x: int, y: int, w: int, v: View)
    requires w >= -2 * EDGE
    ensures
      var b := CardPlace(cs, stride, rows, x, y, w, v);
      OpsFit(cs, HeaderOps(x, y, w, b.height, v), b)
  {
    var b := CardPlace(cs, stride, rows, x, y, w, v);
    var (cx, cw, cy) := (x + POST_PAD, w - 2 * POST_PAD, y + POST_PAD);
    HeaderFits(cs, stride, rows, x, y, w, v);
    PanelFits(cs, Rect(x, y, w, b.height), b);
    PanelFits(cs, Rect(cx, cy, 24, 24), b);
    GradientFits(cs, Rect(cx + 2, cy + 2, 20, 20), v.top, v.bot, b);
    hide FitsPlace, FitsText, SunkenOps, RaisedOps, GradientOps, CardPlace, Dot;
    var user := [TextOp(TextRun(cx + 32, cy + 3, v.user, C_TEXT))];
    var loc := if v.loc.Some? then [TextOp(TextRun(cx + 32, cy + 13, v.loc.value, C_SHADOW))] else [];
    var (raised, avatar) := (RaisedOps(Rect(x, y, w, b.height)), SunkenOps(Rect(cx, cy, 24, 24)));
    var picture := GradientOps(Rect(cx + 2, cy + 2, 20, 20), v.top, v.bot);
    assert OpsFit(cs, DotOps(cx, cw, cy, 3), b) && OpsFit(cs, user, b) && OpsFit(cs, loc, b);
    hide OpsFit, DotOps;
    BothFit(cs, raised, avatar, b);
    BothFit(cs, raised + avatar, picture, b);
    BothFit(cs, raised + avatar + picture, user, b);
    BothFit(cs, raised + avatar + picture + user, loc, b);
    BothFit(cs, raised + avatar + picture + user + loc, DotOps(cx, cw, cy, 3), b);
  }

  lemma WellFits(cs: Charset, stride: int, rows: int, x: int, y: int, w: int, v: View)
    requires w >= -2 * EDGE
    ensures
      var b := CardPlace(cs, stride, rows, x, y, w, v);
      var (cx, cw, cy) := (x + POST_PAD, w - 2 * POST_PAD, y + 40);
      FitsPlace(Rect(cx, cy, cw, cw), b, true) && FitsPlace(Rect(cx + 2, cy + 2, cw - 4, cw - 4), b, false)
  {
    hide CardHeight;
  }

  lemma PictureFits(cs: Charset, r: Rect, v: View, b: Place)
    requires FitsPlace(r, b, false)
    ensures OpsFit(cs, PictureOps(r, v), b)
  {
    hide Scaled, GradientOps, FitsPlace;
    GradientFits(cs, r, v.top, v.bot, b);
  }

  lemma WellOpsFit(cs: Charset, stride: int, rows: int, x: int, y: int, w: int, v: View)
    requires w >= -2 * EDGE
    ensures OpsFit(cs, WellOps(Rect(x + POST_PAD, y + 40, w - 2 * POST_PAD, w - 2 * POST_PAD), v),
                   CardPlace(cs, stride, rows, x, y, w, v))
  {
    hide OpsFit, FitsPlace, SunkenOps, PictureOps, CardPlace;
    var b := CardPlace(cs, stride, rows, x, y, w, v);
    var (cx, cw, cy) := (x + POST_PAD, w - 2 * POST_PAD, y + 40);
    var r := Rect(cx + 2, cy + 2, cw - 4, cw - 4);
    WellFits(cs, stride, rows, x, y, w, v);
    PanelFits(cs, Rect(cx, cy, cw, cw), b);
    PictureFits(cs, r, v, b);
    BothFit(cs, SunkenOps(Rect(cx, cy, cw, cw)), PictureOps(r, v), b);
  }

  lemma ActionsFit(cs: Charset, stride: int, rows: int, x: int, y: int, w: int, v: View)
    requires w >= -2 * EDGE
    ensures
      var b := CardPlace(cs, stride, rows, x, y, w, v);
      var (cx, cw, iy) := (x + POST_PAD, w - 2 * POST_PAD, y + 40 + (w - 2 * POST_PAD) + 6);
      && FitsPlace(Rect(cx, iy, 14, 12), b, true) && FitsPlace(Rect(cx + 22, iy, 14, 12), b, true)
      && FitsPlace(Rect(cx + 44, iy, 16, 12), b, true) && FitsPlace(Rect(cx + cw - 12, iy, 10, 12), b, true)
  {
    hide CardHeight;
  }

  lemma ActionOpsFit(cs: Charset, stride: int, rows: int, x: int, y: int, w: int, v: View)
    requires w >= -2 * EDGE
    ensures OpsFit(cs, ActionOps(x + POST_PAD, w - 2 * POST_PAD, y + 40 + (w - 2 * POST_PAD) + 6, v.liked),
                   CardPlace(cs, stride, rows, x, y, w, v))
  {
    hide FitsPlace, Fills, CardPlace, Outline, Sides, OpsFit;
    var b := CardPlace(cs, stride, rows, x, y, w, v);
    var (cx, cw, iy) := (x + POST_PAD, w - 2 * POST_PAD, y + 40 + (w - 2 * POST_PAD) + 6);
    ActionsFit(cs, stride, rows, x, y, w, v);
    SidesFit(cs, Rect(cx + 22, iy, 14, 12), C_INK, C_INK, b);
    SidesFit(cs, Rect(cx + 44, iy, 16, 12), C_INK, C_INK, b);
    SidesFit(cs, Rect(cx + cw - 12, iy, 10, 12), C_INK, C_INK, b);
    var heart := Stroke(Rect(cx, iy, 14, 12), if v.liked then C_HEART else C_INK);
    OneFits(cs, heart, b);
    var comment := Fills(Outline(Rect(cx + 22, iy, 14, 12), C_INK));
    var share := Fills(Outline(Rect(cx + 44, iy, 16, 12), C_INK));
    BothFit(cs, [FillOp(heart)], comment, b);
    BothFit(cs, [FillOp(heart)] + comment, share, b);
    BothFit(cs, [FillOp(heart)] + comment + share, Fills(Outline(Rect(cx + cw - 12, iy, 10, 12), C_INK)), b);
  }

  lemma OneFits(cs: Charset, t: Stroke, b: Place)
    requires FitsPlace(t.r, b, true) && t.color != C_FACE
    ensures OpsFit(cs, [FillOp(t)], b)
  {
  }

  // ---- The caption block -------------------------------------------------

  /** The room a block needs from `cy` on: right of the edge, and its whole height and the padding in the card's
      rows. */
  predicate FitsBlock(cs: Charset, cx: int, cy: int, w: int, v: View, b: Place) {
    var height := BlockHeight(cs, w - 2 * POST_PAD, v.caption, v.comments.Some?, v.expanded);
    && cx > b.edge && (b.off ==> cx >= b.stride)
    && b.top <= cy && (b.plain ==> TextsFit(cs, w, v) && cy + height + POST_PAD <= b.top + b.height)
  }

  ghost predicate RunsFit(cs: Charset, rs: seq<TextRun>, b: Place) {
    forall i :: 0 <= i < |rs| ==> FitsText(cs, rs[i], b)
  }

  /** What fits a width has no newline byte in it. */
  lemma FitHasNoNewline(cs: Charset, s: seq<byte>, off: nat, room: int)
    requires off <= |s| && room >= 0
    ensures NEWLINE !in s[off..off + FitLen(cs, s, off, room)]
  {
    hide Glyphs, FitEnd;
    var t := s[off..];
    var g := Glyphs(cs, t);
    var e := FitEnd(g, 0, 0, room);
    FirstGlyphDecides(g, room);
    LineBytes(cs, t, 0, e);
    assert Off(g, 0) == 0;
    var len := FitLen(cs, s, off, room);
    assert s[off..off + len] == t[..len];
  }

  /** One caption line's strings are the card's. */
  lemma LineFits(cs: Charset, s: seq<byte>, c: CapLine, cx: int, y: int, cw: int, last: bool, b: Place)
    requires InText(s, c) && cx > b.edge && (b.off ==> cx >= b.stride)
    requires b.top <= y && (b.plain ==> y + HANGUL_H <= b.top + b.height)
    ensures RunsFit(cs, LineRuns(cs, s, c, cx, y, cw, last), b)
  {
    hide FitLen, TextSpan, TextDepth;
    if last {
      var room := Budget(cs, cw);
      FitHasNoNewline(cs, s, c.off, room);
      LineDepth(cs, Copied(s, c.off, FitLen(cs, s, c.off, room)));
      LineDepth(cs, MORE_LABEL);
      SpanNotNegative(cs, Copied(s, c.off, FitLen(cs, s, c.off, room)));
    } else {
      LineDepth(cs, Copied(s, c.off, c.len));
    }
  }

  lemma {:induction false} CaptionFits(cs: Charset, s: seq<byte>, ls: seq<CapLine>, i: nat, visible: nat,
                                       truncated: bool,
                                       cx: int, cy: int, cw: int, b: Place)
    requires i <= visible <= |ls| && (forall k :: 0 <= k < |ls| ==> InText(s, ls[k]))
    requires cx > b.edge && (b.off ==> cx >= b.stride)
    requires forall k :: 0 <= k < |ls| ==> ls[k].off + ls[k].len <= |s|
    requires b.top <= cy && (b.plain ==> LineTop(cy, visible) <= b.top + b.height)
    ensures RunsFit(cs, CaptionRuns(cs, s, ls, i, visible, truncated, cx, cy, cw), b)
    decreases visible - i
  {
    hide LineRuns, FitsText;
    if i < visible {
      var last := truncated && i == visible - 1;
      LineFits(cs, s, ls[i], cx, LineTop(cy, i), cw, last, b);
      CaptionFits(cs, s, ls, i + 1, visible, truncated, cx, cy, cw, b);
      hide RunsFit;
    }
  }

  lemma WrappedInText(cs: Charset, caption: Option<seq<byte>>, cw: int)
    ensures
      var s := if caption.Some? then caption.value else [];
      var ls := Wrapped(cs, caption, cw);
      forall k :: 0 <= k < |ls| ==> InText(s, ls[k]) && ls[k].off + ls[k].len <= |s|
  {
    hide Ranges, Glyphs;
    if caption.Some? {
      Lossless(cs, caption.value, 0, cw, HARD_CAP);
    }
  }

  /** Every string of a block is the card's. */
  lemma BlockFits(cs: Charset, cx: int, cy: int, w: int, v: View, b: Place)
    requires FitsBlock(cs, cx, cy, w, v, b)
    ensures RunsFit(cs, BlockRuns(cs, cx, cy, w - 2 * POST_PAD, v.likes, v.user, v.caption, v.comments, v.expanded), b)
  {
    hide Wrapped, CaptionRuns, Glyphs, InText;
    var cw := w - 2 * POST_PAD;
    var ls := Wrapped(cs, v.caption, cw);
    var s := if v.caption.Some? then v.caption.value else [];
    WrappedInText(cs, v.caption, cw);
    var n := VisibleLines(|ls|, v.expanded);
    var head := [TextRun(cx, cy, v.likes, C_TEXT), TextRun(cx, cy + FONT_LINE + 1, v.user, C_TEXT)];
    var body := CaptionRuns(cs, s, ls, 0, n, Truncated(|ls|, v.expanded), cx, cy, cw);
    var tail := if v.comments.Some? then [TextRun(cx, LineTop(cy, n), v.comments.value, C_SHADOW)] else [];
    CaptionFits(cs, s, ls, 0, n, Truncated(|ls|, v.expanded), cx, cy, cw, b);
    assert RunsFit(cs, head, b) && RunsFit(cs, tail, b);
    hide RunsFit;
  }

  /** The caption block fits below the action bar, and its end is POST_PAD above the card's. */
  lemma BlockFitsCard(cs: Charset, stride: int, rows: int, x: int, y: int, w: int, v: View)
    requires w >= -2 * EDGE
    ensures
      var b := CardPlace(cs, stride, rows, x, y, w, v);
      var (cx, cw, cy) := (x + POST_PAD, w - 2 * POST_PAD, y + 40 + (w - 2 * POST_PAD) + 26);
      && FitsBlock(cs, cx, cy, w, v, b)
      && cy + BlockHeight(cs, cw, v.caption, v.comments.Some?, v.expanded) == y + b.height - POST_PAD
  {
    hide BlockHeight;
  }

  /** Every step of a card fits its place. */
  lemma CardFits(cs: Charset, stride: int, rows: int, x: int, y: int, w: int, v: View)
    requires w >= -2 * EDGE
    ensures OpsFit(cs, CardOps(cs, x, y, w, v), CardPlace(cs, stride, rows, x, y, w, v))
  {
    hide OpsFit, RunsFit, CardPlace, Writes, HeaderOps, WellOps, ActionOps;
    hide BlockRuns, FitsBlock, CardHeight, BlockHeight;
    var b := CardPlace(cs, stride, rows, x, y, w, v);
    var (cx, cw) := (x + POST_PAD, w - 2 * POST_PAD);
    HeaderOpsFit(cs, stride, rows, x, y, w, v);
    WellOpsFit(cs, stride, rows, x, y, w, v);
    ActionOpsFit(cs, stride, rows, x, y, w, v);
    BlockFitsCard(cs, stride, rows, x, y, w, v);
    BlockFits(cs, cx, y + 40 + cw + 26, w, v, b);
    var rs := BlockRuns(cs, cx, y + 40 + cw + 26, cw, v.likes, v.user, v.caption, v.comments, v.expanded);
    WritesFit(cs, rs, b);
    PlaceHeight(cs, stride, rows, x, y, w, v);
    var header := HeaderOps(x, y, w, CardHeight(cs, w, v.caption, v.comments.Some?, v.expanded), v);
    var (well, actions) := (WellOps(Rect(cx, y + 40, cw, cw), v), ActionOps(cx, cw, y + 40 + cw + 6, v.liked));
    BothFit(cs, header, well, b);
    BothFit(cs, header + well, actions, b);
    BothFit(cs, header + well + actions, Writes(rs), b);
  }

  lemma WritesFit(cs: Charset, rs: seq<TextRun>, b: Place)
    requires RunsFit(cs, rs, b)
    ensures OpsFit(cs, Writes(rs), b)
  {
    hide FitsText;
  }

  lemma PlaceHeight(cs: Charset, stride: int, rows: int, x: int, y: int, w: int, v: View)
    ensures CardPlace(cs, stride, rows, x, y, w, v).height == CardHeight(cs, w, v.caption, v.comments.Some?, v.expanded)
  {
  }

  /** A vertical line over the card's rows draws its edge. */
  lemma LineEdges(px: seq<Pixel>, w: int, h: int, color: Pixel, b: Place)
    requires b.stride >= w > b.edge >= 0 && h == b.rows && color != C_FACE
    ensures Edged(FillCells(px, w, h, b.stride, Rect(b.edge, b.top, 1, b.height), color), b)
  {
    hide Column, Row;
  }

  /** The card's outer bevel, which is drawn first, draws its left edge; nothing drawn after it takes it away. */
  lemma CardEdged(c: Canvas, px: seq<Pixel>, x: int, y: int, w: int, v: View)
    requires c.Valid() && w > 0 && 0 <= x < c.w
    ensures
      var b := CardPlace(c.f.cs, c.stride, c.h, x, y, w, v);
      Edged(Painted(c, px, CardOps(c.f.cs, x, y, w, v)), b)
  {
    var (b, ops) := (CardPlace(c.f.cs, c.stride, c.h, x, y, w, v), CardOps(c.f.cs, x, y, w, v));
    CardFits(c.f.cs, c.stride, c.h, x, y, w, v);
    SecondOp(c.f.cs, x, y, w, v);
    hide Did, Keeps, Edged, FitsOp, CardOps;
    var p1 := Did(c, px, ops[0]);
    var p2 := Did(c, p1, ops[1]);
    assert Painted(c, px, ops) == Painted(c, p2, ops[1..][1..]);
    EdgeLine(c, p1, b, ops[1]);
    OpsKeep(c, p2, ops[1..][1..], b);
    KeepsEdge(p2, Painted(c, px, ops), b);
  }

  lemma EdgeLine(c: Canvas, px: seq<Pixel>, b: Place, op: Op)
    requires c.Valid() && 0 <= b.edge < c.w && b.stride == c.stride && b.rows == c.h
    requires op == FillOp(Stroke(Rect(b.edge, b.top, 1, b.height), C_HILIGHT))
    ensures Edged(Did(c, px, op), b)
  {
    hide FillCells, Edged;
    LineEdges(px, c.w, c.h, C_HILIGHT, b);
  }

  lemma SecondOp(cs: Charset, x: int, y: int, w: int, v: View)
    requires w > 0
    ensures
      var h := CardHeight(cs, w, v.caption, v.comments.Some?, v.expanded);
      |CardOps(cs, x, y, w, v)| > 1 && CardOps(cs, x, y, w, v)[1] == FillOp(Stroke(Rect(x, y, 1, h), C_HILIGHT))
  {
    hide CardHeight, GradientOps, DotOps, WellOps, ActionOps, BlockRuns, Writes, SunkenOps;
    var h := CardHeight(cs, w, v.caption, v.comments.Some?, v.expanded);
    assert RaisedOps(Rect(x, y, w, h))[1] == FillOp(Stroke(Rect(x, y, 1, h), C_HILIGHT));
    hide RaisedOps;
    assert HeaderOps(x, y, w, h, v)[1] == RaisedOps(Rect(x, y, w, h))[1];
  }

  /** What draw_post keeps of the surface. */
  lemma CardKeeps(c: Canvas, px: seq<Pixel>, x: int, y: int, w: int, v: View)
    requires c.Valid() && w >= -2 * EDGE
    ensures
      var b := CardPlace(c.f.cs, c.stride, c.h, x, y, w, v);
      Keeps(px, Painted(c, px, CardOps(c.f.cs, x, y, w, v)), b)
  {
    hide Keeps, FitsOp, CardOps, CardPlace, Painted, OpsFit;
    PlaceStride(c, x, y, w, v);
    CardFits(c.f.cs, c.stride, c.h, x, y, w, v);
    OpsKeep(c, px, CardOps(c.f.cs, x, y, w, v), CardPlace(c.f.cs, c.stride, c.h, x, y, w, v));
  }

  lemma PlaceStride(c: Canvas, x: int, y: int, w: int, v: View)
    ensures CardPlace(c.f.cs, c.stride, c.h, x, y, w, v).stride == c.stride
  {
  }

  // ---- Texts that run out of their card ----------------------------------

  /** If the step draws a text, it ends above `bottom`; a text with nothing to draw does anywhere. */
  predicate EndsAbove(cs: Charset, op: Op, bottom: int) {
    op.TextOp? && TextDepth(cs, op.run.text) > 0 ==> op.run.y + TextDepth(cs, op.run.text) <= bottom
  }

  ghost predicate AllEndAbove(cs: Charset, ops: seq<Op>, bottom: int) {
    forall op :: op in ops ==> EndsAbove(cs, op, bottom)
  }

  lemma NoTexts(cs: Charset, ops: seq<Op>, bottom: int)
    requires forall op :: op in ops ==> !op.TextOp?
    ensures AllEndAbove(cs, ops, bottom)
  {
    hide TextDepth;
  }

  lemma WellHasNoText(cs: Charset, well: Rect, cx: int, cw: int, iy: int, v: View, bottom: int)
    ensures AllEndAbove(cs, WellOps(well, v), bottom) && AllEndAbove(cs, ActionOps(cx, cw, iy, v.liked), bottom)
  {
    hide Shade, Scaled, Sides, Outline;
    NoTexts(cs, WellOps(well, v), bottom);
    NoTexts(cs, ActionOps(cx, cw, iy, v.liked), bottom);
  }

  lemma BothEndAbove(cs: Charset, a: seq<Op>, b: seq<Op>, bottom: int)
    ensures AllEndAbove(cs, a + b, bottom) <==> AllEndAbove(cs, a, bottom) && AllEndAbove(cs, b, bottom)
  {
    hide EndsAbove;
    assert forall op :: op in a + b <==> op in a || op in b;
  }

  lemma OneEndsAbove(cs: Charset, r: TextRun, bottom: int)
    ensures AllEndAbove(cs, [TextOp(r)], bottom) <==> EndsAbove(cs, TextOp(r), bottom)
  {
    hide EndsAbove;
    assert TextOp(r) in [TextOp(r)];
  }

  lemma HeaderTexts(cs: Charset, x: int, y: int, w: int, h: int, v: View, bottom: int)
    ensures AllEndAbove(cs, HeaderOps(x, y, w, h, v), bottom) <==>
      && EndsAbove(cs, TextOp(TextRun(x + 40, y + 11, v.user, C_TEXT)), bottom)
      && (v.loc.Some? ==> EndsAbove(cs, TextOp(TextRun(x + 40, y + 21, v.loc.value, C_SHADOW)), bottom))
  {
    hide Shade, Sides, EndsAbove, RaisedOps, SunkenOps, GradientOps, DotOps, AllEndAbove;
    var (cx, cw, cy) := (x + POST_PAD, w - 2 * POST_PAD, y + POST_PAD);
    var front := RaisedOps(Rect(x, y, w, h)) + SunkenOps(Rect(cx, cy, 24, 24)) +
                 GradientOps(Rect(cx + 2, cy + 2, 20, 20), v.top, v.bot);
    var user := [TextOp(TextRun(cx + 32, cy + 3, v.user, C_TEXT))];
    var loc := if v.loc.Some? then [TextOp(TextRun(cx + 32, cy + 13, v.loc.value, C_SHADOW))] else [];
    FrontHasNoText(cs, Rect(x, y, w, h), Rect(cx, cy, 24, 24), Rect(cx + 2, cy + 2, 20, 20), v, cx, cw, cy, bottom);
    OneEndsAbove(cs, user[0].run, bottom);
    if v.loc.Some? {
      OneEndsAbove(cs, loc[0].run, bottom);
    } else {
      NoTexts(cs, [], bottom);
    }
    assert HeaderOps(x, y, w, h, v) == front + user + loc + DotOps(cx, cw, cy, 3);
    BothEndAbove(cs, front, user, bottom);
    BothEndAbove(cs, front + user, loc, bottom);
    BothEndAbove(cs, front + user + loc, DotOps(cx, cw, cy, 3), bottom);
  }

  lemma FrontHasNoText(cs: Charset, a: Rect, b: Rect, r: Rect, v: View, cx: int, cw: int, cy: int, bottom: int)
    ensures AllEndAbove(cs, RaisedOps(a) + SunkenOps(b) + GradientOps(r, v.top, v.bot), bottom)
    ensures AllEndAbove(cs, DotOps(cx, cw, cy, 3), bottom)
  {
    hide Shade, Sides, EndsAbove, Dot;
    NoTexts(cs, RaisedOps(a) + SunkenOps(b) + GradientOps(r, v.top, v.bot), bottom);
    NoTexts(cs, DotOps(cx, cw, cy, 3), bottom);
  }

  /** The caption's own lines always end above the place below them. */
  lemma CaptionEnds(cs: Charset, s: seq<byte>, ls: seq<CapLine>, visible: nat, truncated: bool, cx: int, cy: int,
                    cw: int)
    requires visible <= |ls| && forall k :: 0 <= k < |ls| ==> InText(s, ls[k])
    requires forall k :: 0 <= k < |ls| ==> ls[k].off + ls[k].len <= |s|
    ensures AllEndAbove(cs, Writes(CaptionRuns(cs, s, ls, 0, visible, truncated, cx, cy, cw)), LineTop(cy, visible))
  {
    hide CaptionRuns, TextDepth, InText;
    var b := Place(1, 0, cx - 1, cy, LineTop(cy, visible) - cy, true, false);
    CaptionFits(cs, s, ls, 0, visible, truncated, cx, cy, cw, b);
  }

  lemma WritesAppend(a: seq<TextRun>, b: seq<TextRun>)
    ensures Writes(a + b) == Writes(a) + Writes(b)
  {
  }

  lemma HigherToo(cs: Charset, ops: seq<Op>, bottom: int, lower: int)
    requires AllEndAbove(cs, ops, bottom) && bottom <= lower
    ensures AllEndAbove(cs, ops, lower)
  {
    hide TextDepth;
  }

  /** A block's texts end in the card when its likes, username and comments do. */
  lemma BlockTexts(cs: Charset, cx: int, cy: int, cw: int, v: View)
    ensures
      var bottom := cy + BlockHeight(cs, cw, v.caption, v.comments.Some?, v.expanded) + POST_PAD;
      var rs := BlockRuns(cs, cx, cy, cw, v.likes, v.user, v.caption, v.comments, v.expanded);
      AllEndAbove(cs, Writes(rs), bottom) <==>
        && EndsAbove(cs, TextOp(TextRun(cx, cy, v.likes, C_TEXT)), bottom)
        && EndsAbove(cs, TextOp(TextRun(cx, cy + FONT_LINE + 1, v.user, C_TEXT)), bottom)
        && (v.comments.Some? ==>
              EndsAbove(cs, TextOp(TextRun(cx, bottom - POST_PAD - FONT_LINE, v.comments.value, C_SHADOW)), bottom))
  {
    hide Wrapped, CaptionRuns, Glyphs, AllEndAbove, EndsAbove, Writes, InText;
    var ls := Wrapped(cs, v.caption, cw);
    var s := if v.caption.Some? then v.caption.value else [];
    WrappedInText(cs, v.caption, cw);
    var n := VisibleLines(|ls|, v.expanded);
    var bottom := cy + BlockHeight(cs, cw, v.caption, v.comments.Some?, v.expanded) + POST_PAD;
    var head := [TextRun(cx, cy, v.likes, C_TEXT), TextRun(cx, cy + FONT_LINE + 1, v.user, C_TEXT)];
    var body := CaptionRuns(cs, s, ls, 0, n, Truncated(|ls|, v.expanded), cx, cy, cw);
    var tail := if v.comments.Some? then [TextRun(cx, LineTop(cy, n), v.comments.value, C_SHADOW)] else [];
    CaptionEnds(cs, s, ls, n, Truncated(|ls|, v.expanded), cx, cy, cw);
    HigherToo(cs, Writes(body), LineTop(cy, n), bottom);
    WritesAppend(head, body);
    WritesAppend(head + body, tail);
    BothEndAbove(cs, Writes(head), Writes(body), bottom);
    BothEndAbove(cs, Writes(head) + Writes(body), Writes(tail), bottom);
    HeadAndTail(cs, head, tail, bottom);
  }

  lemma HeadAndTail(cs: Charset, head: seq<TextRun>, tail: seq<TextRun>, bottom: int)
    requires |head| == 2 && |tail| <= 1
    ensures AllEndAbove(cs, Writes(head), bottom) <==>
      EndsAbove(cs, TextOp(head[0]), bottom) && EndsAbove(cs, TextOp(head[1]), bottom)
    ensures AllEndAbove(cs, Writes(tail), bottom) <==> (tail != [] ==> EndsAbove(cs, TextOp(tail[0]), bottom))
  {
    hide EndsAbove;
    assert Writes(head) == [TextOp(head[0]), TextOp(head[1])];
    assert Writes(head)[0] in Writes(head) && Writes(head)[1] in Writes(head);
    if tail != [] {
      assert Writes(tail) == [TextOp(tail[0])] && Writes(tail)[0] in Writes(tail);
    }
  }

  /** The card's texts have the room they need exactly when every text it draws ends above its bottom. */
  lemma TextsEndInCard(cs: Charset, x: int, y: int, w: int, v: View)
    requires w >= -2 * EDGE
    ensures TextsFit(cs, w, v) <==>
      AllEndAbove(cs, CardOps(cs, x, y, w, v), y + CardHeight(cs, w, v.caption, v.comments.Some?, v.expanded))
  {
    hide AllEndAbove, Writes, HeaderOps, WellOps, ActionOps, BlockRuns, BlockHeight, TextDepth;
    var (cx, cw) := (x + POST_PAD, w - 2 * POST_PAD);
    var h := CardHeight(cs, w, v.caption, v.comments.Some?, v.expanded);
    var (bottom, cy) := (y + h, y + 40 + cw + 26);
    HeaderTexts(cs, x, y, w, h, v, bottom);
    WellHasNoText(cs, Rect(cx, y + 40, cw, cw), cx, cw, y + 40 + cw + 6, v, bottom);
    BlockTexts(cs, cx, cy, cw, v);
    var header := HeaderOps(x, y, w, h, v);
    var (well, actions) := (WellOps(Rect(cx, y + 40, cw, cw), v), ActionOps(cx, cw, y + 40 + cw + 6, v.liked));
    var block := Writes(BlockRuns(cs, cx, cy, cw, v.likes, v.user, v.caption, v.comments, v.expanded));
    BothEndAbove(cs, header, well, bottom);
    BothEndAbove(cs, header + well, actions, bottom);
    BothEndAbove(cs, header + well + actions, block, bottom);
    assert CardOps(cs, x, y, w, v) == header + well + actions + block;
    assert bottom == cy + BlockHeight(cs, cw, v.caption, v.comments.Some?, v.expanded) + POST_PAD;
  }

  /** A card's rows and those below it as far as its texts reach: no other row changes. */
  lemma CardReaches(c: Canvas, px: seq<Pixel>, x: int, y: int, w: int, v: View, bottom: int)
    requires c.Valid() && w >= -2 * EDGE && AllEndAbove(c.f.cs, CardOps(c.f.cs, x, y, w, v), bottom)
    requires y + CardHeight(c.f.cs, w, v.caption, v.comments.Some?, v.expanded) <= bottom
    ensures SameRows(px, Painted(c, px, CardOps(c.f.cs, x, y, w, v)), c.stride, y, bottom)
  {
    hide CardOps, TextsFit, CardHeight, Keeps, OpsFit, AllEndAbove, Painted, Row, FitsOp;
    var ops := CardOps(c.f.cs, x, y, w, v);
    var b := CardPlace(c.f.cs, c.stride, c.h, x, y, w, v);
    var wide := b.(height := bottom - y, plain := true);
    CardFits(c.f.cs, c.stride, c.h, x, y, w, v);
    FitsWider(c.f.cs, ops, b, wide);
    OpsKeep(c, px, ops, wide);
    KeepsRows(px, Painted(c, px, ops), wide);
  }

  lemma FitsWider(cs: Charset, ops: seq<Op>, b: Place, wide: Place)
    requires OpsFit(cs, ops, b) && wide == b.(height := wide.height, plain := true) && b.height <= wide.height
    requires AllEndAbove(cs, ops, b.top + wide.height)
    ensures OpsFit(cs, ops, wide)
  {
    forall op | op in ops ensures FitsOp(cs, op, wide) {
      hide TextDepth;
      assert FitsOp(cs, op, b) && EndsAbove(cs, op, b.top + wide.height);
    }
  }

  lemma KeepsRows(px: seq<Pixel>, px': seq<Pixel>, b: Place)
    requires Keeps(px, px', b) && b.plain
    ensures SameRows(px, px', b.stride, b.top, b.top + b.height)
  {
    hide Row, Column;
    forall k | 0 <= k < |px| && !(b.top <= Row(b.stride, k) < b.top + b.height) ensures px'[k] == px[k] {
      assert KeepsAt(px, px', b, k);
    }
  }

  /** The surface has room for every text, however deep, whatever its glyphs. */
  ghost predicate HasRoom(c: Canvas, px: seq<Pixel>, ops: seq<Op>) {
    && |px| >= (c.h - 1) * c.stride + c.w
    && forall op :: op in ops && op.TextOp? ==>
      && 0 <= op.run.x && op.run.x + HANGUL_ADV * |Glyphs(c.f.cs, op.run.text)| <= c.w
      && 0 <= op.run.y && op.run.y + TextDepth(c.f.cs, op.run.text) <= c.h
  }

  /** A text that does not end in the card leaves ink below it, in a solid font. */
  lemma TextSpills(c: Canvas, px: seq<Pixel>, op: Op, b: Place)
    requires c.Valid() && b.stride == c.stride && Solid(c.f) && HasRoom(c, px, [op])
    requires FitsOp(c.f.cs, op, b) && !EndsAbove(c.f.cs, op, b.top + b.height)
    ensures Spilled(Did(c, px, op), b)
  {
    hide Glyphs, Solid, Row;
    assert op in [op];
    var r := op.run;
    var k := DepthReached(c.f, Pen(c.w, c.h, c.stride, r.color, 1), px, r.x, r.x, r.y, Glyphs(c.f.cs, r.text));
    assert !InRows(b, k) && Did(c, px, op)[k] == r.color;
  }

  lemma {:induction false} OpsSpill(c: Canvas, px: seq<Pixel>, ops: seq<Op>, b: Place)
    requires c.Valid() && b.stride == c.stride && Solid(c.f) && HasRoom(c, px, ops)
    requires OpsFit(c.f.cs, ops, b) && !AllEndAbove(c.f.cs, ops, b.top + b.height)
    ensures Spilled(Painted(c, px, ops), b)
    decreases |ops|
  {
    hide Solid, FitsOp, EndsAbove, Did, Keeps, Spilled, TextDepth, Glyphs;
    var px' := Did(c, px, ops[0]);
    if !EndsAbove(c.f.cs, ops[0], b.top + b.height) {
      TextSpills(c, px, ops[0], b);
      OpsKeep(c, px', ops[1..], b);
      KeepsSpill(px', Painted(c, px, ops), b);
    } else {
      assert forall op :: op in ops ==> op == ops[0] || op in ops[1..];
      OpsSpill(c, px', ops[1..], b);
    }
  }

  /**
   * On a blank surface with room, in a solid font, a card leaves ink outside its rows exactly when a text of it has not
   * the room it needs; with the room, no font and no surface make it.
   */
  lemma CardSpills(c: Canvas, px: seq<Pixel>, x: int, y: int, w: int, v: View)
    requires c.Valid() && w >= -2 * EDGE && forall k :: 0 <= k < |px| ==> px[k] == C_FACE
    ensures
      var (ops, b) := (CardOps(c.f.cs, x, y, w, v), CardPlace(c.f.cs, c.stride, c.h, x, y, w, v));
      && (TextsFit(c.f.cs, w, v) ==> !Spilled(Painted(c, px, ops), b))
      && (Solid(c.f) && HasRoom(c, px, ops) ==> (TextsFit(c.f.cs, w, v) <==> !Spilled(Painted(c, px, ops), b)))
  {
    hide HasRoom, Solid, CardOps, TextsFit, Painted, AllEndAbove, OpsFit, CardHeight, Row;
    var (ops, b) := (CardOps(c.f.cs, x, y, w, v), CardPlace(c.f.cs, c.stride, c.h, x, y, w, v));
    TextsEndInCard(c.f.cs, x, y, w, v);
    CardKeeps(c, px, x, y, w, v);
    CardFits(c.f.cs, c.stride, c.h, x, y, w, v);
    if TextsFit(c.f.cs, w, v) {
      forall k | 0 <= k < |px| && !InRows(b, k) ensures Painted(c, px, ops)[k] == C_FACE {
        assert KeepsAt(px, Painted(c, px, ops), b, k);
      }
    } else if Solid(c.f) && HasRoom(c, px, ops) {
      OpsSpill(c, px, ops, b);
    }
  }

  /** `n` newlines and a letter, whatever the font: a username like this fits no card of fewer rows. */
  function Tall(n: nat): (t: seq<byte>) {
    if n == 0 then [0x41] else [NEWLINE] + Tall(n - 1)
  }

  lemma {:induction false} TallDepth(cs: Charset, n: nat)
    ensures TextDepth(cs, Tall(n)) == FONT_LINE * n + FONT_H
    decreases n
  {
    hide Glyphs;
    GlyphsOfNothing(cs);
    var t := Tall(n);
    GlyphsStep(cs, t);
    if n > 0 {
      NewlineStep(cs, t);
      assert t[1..] == Tall(n - 1);
      TallDepth(cs, n - 1);
    } else {
      assert t[1..] == [];
      assert ShapeOf(cs, t) == Latin(0x41) && Glyphs(cs, t)[1..] == [];
      assert Glyphs(cs, t) == [Glyphs(cs, t)[0]];
      DepthOfOne(Glyphs(cs, t)[0]);
    }
  }

  lemma DepthOfOne(g: Glyph)
    requires !g.shape.Newline?
    ensures Depth([g], 1) == Rows(g.shape)
  {
    assert [g][1..] == [];
  }

  /** In a post without a caption a username of `n` newlines and a letter stays in the card up to two newlines. */
  lemma TallUsername(cs: Charset, w: int, v: View, n: nat)
    requires v.user == Tall(n) && v.caption.None? && v.comments.None? && v.loc.None? && NEWLINE !in v.likes
    ensures TextsFit(cs, w, v) <==> n <= 2
  {
    hide TextDepth, Tall;
    LineDepth(cs, v.likes);
    TallDepth(cs, n);
  }

  /** A line of comments that is one syllable the font knows hangs two rows over the card's bottom. */
  lemma SyllableTooDeep(cs: Charset, w: int, v: View)
    requires 0xAE30 in cs && v.comments == Some([0xEA, 0xB8, 0xB0])
    ensures TextDepth(cs, v.comments.value) == FONT_LINE + POST_PAD + 2 && !TextsFit(cs, w, v)
  {
    hide Glyphs, BlockHeight;
    var t: seq<byte> := [0xEA, 0xB8, 0xB0];
    assert t + [] == t;
    SyllableStep(cs, 0xEA, 0xB8, 0xB0, []);
    GlyphsOfNothing(cs);
    var g := Glyph(3, Hangul(0xAE30));
    assert Glyphs(cs, t) == [g];
    DepthOfOne(g);
  }

  // ---- A card's rows depend on nothing else ------------------------------

  /** Two buffers that agree on the rows from `top` up to `bottom`. */
  ghost predicate SameIn(a: seq<Pixel>, b: seq<Pixel>, stride: int, top: int, bottom: int) {
    && stride > 0 && |a| == |b|
    && forall k :: 0 <= k < |a| && top <= Row(stride, k) < bottom ==> a[k] == b[k]
  }

  lemma BlendLocal(a: seq<Pixel>, b: seq<Pixel>, w: int, h: int, stride: int, r: Rect, color: Pixel, top: int,
                   bottom: int)
    requires stride >= w > 0 && SameIn(a, b, stride, top, bottom)
    ensures SameIn(BlendCells(a, w, h, stride, r, color), BlendCells(b, w, h, stride, r, color), stride, top, bottom)
  {
    hide Row, Column, BlendOver, Inside;
  }

  lemma {:induction false} BitsLocal(f: Face, pen: Pen, a: seq<Pixel>, b: seq<Pixel>, cx: int, y: int, g: Shape,
                                     row: nat, col: nat, top: int, bottom: int)
    requires ValidPen(pen) && SameIn(a, b, pen.stride, top, bottom)
    ensures SameIn(DrawBits(f, pen, a, cx, y, g, row, col), DrawBits(f, pen, b, cx, y, g, row, col), pen.stride,
                   top, bottom)
    decreases Rows(g) - row, Columns(g) - col
  {
    hide SameIn, BlendCells, Bit, BitRect, Rows, Columns;
    if row < Rows(g) {
      if col >= Columns(g) {
        BitsLocal(f, pen, a, b, cx, y, g, row + 1, 0, top, bottom);
      } else if Bit(f, g, row, col) {
        var r := BitRect(pen, cx, y, row, col);
        BlendLocal(a, b, pen.w, pen.h, pen.stride, r, pen.color, top, bottom);
        BitsLocal(f, pen, BlendCells(a, pen.w, pen.h, pen.stride, r, pen.color),
                  BlendCells(b, pen.w, pen.h, pen.stride, r, pen.color), cx, y, g, row, col + 1, top, bottom);
      } else {
        BitsLocal(f, pen, a, b, cx, y, g, row, col + 1, top, bottom);
      }
    }
  }

  lemma {:induction false} TextLocal(f: Face, pen: Pen, a: seq<Pixel>, b: seq<Pixel>, x: int, cx: int, y: int,
                                     gs: seq<Glyph>,
                                     top: int, bottom: int)
    requires ValidPen(pen) && SameIn(a, b, pen.stride, top, bottom)
    ensures SameIn(DrawText(f, pen, a, x, cx, y, gs).0, DrawText(f, pen, b, x, cx, y, gs).0, pen.stride, top, bottom)
    decreases |gs|
  {
    hide SameIn, DrawBits;
    if gs != [] && gs[0].shape.Newline? {
      TextLocal(f, pen, a, b, x, x, y + FONT_LINE * pen.scale, gs[1..], top, bottom);
    } else if gs != [] {
      BitsLocal(f, pen, a, b, cx, y, gs[0].shape, 0, 0, top, bottom);
      TextLocal(f, pen, DrawBits(f, pen, a, cx, y, gs[0].shape, 0, 0), DrawBits(f, pen, b, cx, y, gs[0].shape, 0, 0),
                x, cx + Advance(gs[0]) * pen.scale, y, gs[1..], top, bottom);
    }
  }

  /** A step's result in some rows depends on the buffer in those rows alone. */
  lemma OpLocal(c: Canvas, a: seq<Pixel>, b: seq<Pixel>, op: Op, top: int, bottom: int)
    requires c.Valid() && SameIn(a, b, c.stride, top, bottom)
    ensures SameIn(Did(c, a, op), Did(c, b, op), c.stride, top, bottom)
  {
    hide Row, Column, DrawText, Glyphs, Covered, SourceOf, Sample, Inside;
    if op.TextOp? {
      var r := op.run;
      TextLocal(c.f, Pen(c.w, c.h, c.stride, r.color, 1), a, b, r.x, r.x, r.y, Glyphs(c.f.cs, r.text), top, bottom);
    }
  }

  lemma {:induction false} PaintedLocal(c: Canvas, a: seq<Pixel>, b: seq<Pixel>, ops: seq<Op>, top: int, bottom: int)
    requires c.Valid() && SameIn(a, b, c.stride, top, bottom)
    ensures SameIn(Painted(c, a, ops), Painted(c, b, ops), c.stride, top, bottom)
    decreases |ops|
  {
    hide SameIn, Did;
    if ops != [] {
      OpLocal(c, a, b, ops[0], top, bottom);
      PaintedLocal(c, Did(c, a, ops[0]), Did(c, b, ops[0]), ops[1..], top, bottom);
    }
  }
}
