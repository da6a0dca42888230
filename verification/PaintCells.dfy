/** A post's card cell by cell: which of the things draw_post draws is on top at each pixel, and in what color. */
module PaintCells {
  import opened CTypes
  import opened Raster
  import opened Font
  import opened Caption
  import opened Draw
  import opened DrawLaws
  import opened Feed
  import opened Paint

  // ---- The last step wins ------------------------------------------------

  /** The color a step leaves in the cell (a, b), if it reaches the cell. */
  ghost function Color(f: Face, op: Op, a: int, b: int): (p: Option<Pixel>) {
    match op
    case FillOp(t) => if Inside(t.r, a, b) then Some(t.color) else None
    case TextOp(r) => if TextInks(f, Glyphs(f.cs, r.text), 0, 1, r.x, r.y, a, b) then Some(r.color) else None
    case PhotoOp(dx, dy, px, w, h) =>
      if Inside(Rect(dx, dy, w, h), a, b) then Some(Texel(px, w, a - dx, b - dy)) else None
  }

  /** A picture's pixel in column `i` of row `j`. */
  function Texel(px: seq<Pixel>, w: int, i: int, j: int): (p: Pixel) {
    if 0 <= j * w + i < |px| then px[j * w + i] else CLEAR
  }

  function Atop(p: Option<Pixel>, q: Option<Pixel>): (r: Option<Pixel>) {
    if p.Some? then p else q
  }

  /** The color of the last of these steps that reaches the cell. */
  ghost function Latest(f: Face, ops: seq<Op>, a: int, b: int): (p: Option<Pixel>) {
    if ops == [] then None else Atop(Latest(f, ops[1..], a, b), Color(f, ops[0], a, b))
  }

  predicate Opaque(ops: seq<Op>) {
    forall i :: 0 <= i < |ops| && ops[i].TextOp? ==> ops[i].run.color.a == 255
  }

  predicate OnCanvas(c: Canvas, k: int)
    requires c.Valid()
  {
    Column(c.stride, k) < c.w && Row(c.stride, k) < c.h
  }

  lemma OpCell(c: Canvas, px: seq<Pixel>, op: Op, k: nat)
    requires c.Valid() && k < |px| && (op.TextOp? ==> op.run.color.a == 255)
    ensures
      var p := Color(c.f, op, Column(c.stride, k), Row(c.stride, k));
      Did(c, px, op)[k] == if OnCanvas(c, k) && p.Some? then p.value else px[k]
  {
    hide Column, Row, DrawText, Glyphs, TextInks;
    match op
    case FillOp(t) =>
    case TextOp(r) =>
      TextCells(c.f, Pen(c.w, c.h, c.stride, r.color, 1), px, r.x, r.y, Glyphs(c.f.cs, r.text), k);
    case PhotoOp(dx, dy, spx, w, h) =>
  }

  /** Every cell of the surface ends in the color of the last step that reaches it. */
  lemma {:induction false} PaintedCell(c: Canvas, px: seq<Pixel>, ops: seq<Op>, k: nat)
    requires c.Valid() && k < |px| && Opaque(ops)
    ensures
      var p := Latest(c.f, ops, Column(c.stride, k), Row(c.stride, k));
      Painted(c, px, ops)[k] == if OnCanvas(c, k) && p.Some? then p.value else px[k]
    decreases |ops|
  {
    hide Did, Color, Column, Row;
    if ops != [] {
      OpCell(c, px, ops[0], k);
      assert Opaque(ops[1..]);
      PaintedCell(c, Did(c, px, ops[0]), ops[1..], k);
    }
  }

  lemma {:induction false} LatestOfTwo(f: Face, s: seq<Op>, t: seq<Op>, a: int, b: int)
    ensures Latest(f, s + t, a, b) == Atop(Latest(f, t, a, b), Latest(f, s, a, b))
    decreases |s|
  {
    hide Color;
    if s == [] {
      assert s + t == t;
    } else {
      assert (s + t)[0] == s[0] && (s + t)[1..] == s[1..] + t;
      LatestOfTwo(f, s[1..], t, a, b);
    }
  }

  lemma LatestOfOne(f: Face, op: Op, a: int, b: int)
    ensures Latest(f, [op], a, b) == Color(f, op, a, b)
  {
    assert [op][1..] == [] && Latest(f, [], a, b).None?;
  }

  // ---- Frames and edges --------------------------------------------------

  /** The outermost cells of a rectangle. */
  predicate OnEdge(r: Rect, a: int, b: int) {
    Inside(r, a, b) && (a == r.x || a == r.x + r.w - 1 || b == r.y || b == r.y + r.h - 1)
  }

  /** The same, dark on the right and at the bottom, light elsewhere. */
  function Rim(r: Rect, light: Pixel, dark: Pixel, a: int, b: int): (p: Option<Pixel>) {
    if !OnEdge(r, a, b) then None
    else if a == r.x + r.w - 1 || b == r.y + r.h - 1 then Some(dark)
    else Some(light)
  }

  lemma FourFills(f: Face, s: Stroke, t: Stroke, u: Stroke, v: Stroke, a: int, b: int)
    ensures Latest(f, Fills([s, t, u, v]), a, b) ==
      if Inside(v.r, a, b) then Some(v.color) else if Inside(u.r, a, b) then Some(u.color)
      else if Inside(t.r, a, b) then Some(t.color) else if Inside(s.r, a, b) then Some(s.color) else None
  {
    assert Fills([s, t, u, v]) == [FillOp(s)] + ([FillOp(t)] + ([FillOp(u)] + [FillOp(v)]));
    LatestOfTwo(f, [FillOp(s)], [FillOp(t)] + ([FillOp(u)] + [FillOp(v)]), a, b);
    LatestOfTwo(f, [FillOp(t)], [FillOp(u)] + [FillOp(v)], a, b);
    LatestOfTwo(f, [FillOp(u)], [FillOp(v)], a, b);
    LatestOfOne(f, FillOp(s), a, b);
    LatestOfOne(f, FillOp(t), a, b);
    LatestOfOne(f, FillOp(u), a, b);
    LatestOfOne(f, FillOp(v), a, b);
  }

  lemma NoFills(f: Face, a: int, b: int)
    ensures Latest(f, Fills([]), a, b) == None
  {
    assert Fills([]) == [];
  }

  lemma SidesCell(f: Face, r: Rect, light: Pixel, dark: Pixel, a: int, b: int)
    ensures Latest(f, Fills(Sides(r, light, dark)), a, b) == Rim(r, light, dark, a, b)
  {
    hide Fills, Latest;
    if r.w <= 0 || r.h <= 0 {
      NoFills(f, a, b);
    } else {
      var ss := Sides(r, light, dark);
      FourFills(f, ss[0], ss[1], ss[2], ss[3], a, b);
    }
  }

  lemma OutlineCell(f: Face, r: Rect, color: Pixel, a: int, b: int)
    ensures Latest(f, Fills(Outline(r, color)), a, b) == if OnEdge(r, a, b) then Some(color) else None
  {
    hide Fills, Latest;
    if r.w <= 0 || r.h <= 0 {
      NoFills(f, a, b);
    } else {
      var ss := Outline(r, color);
      FourFills(f, ss[0], ss[1], ss[2], ss[3], a, b);
    }
  }

  function Gray(v: byte): (p: Pixel) {
    Pixel(255, v, v, v)
  }

  /** A panel's two rims, the inner one a pixel further in. */
  function Rims(r: Rect, light: Pixel, dark: Pixel, innerLight: Pixel, innerDark: Pixel, a: int, b: int)
    : (p: Option<Pixel>)
  {
    Atop(Rim(Rect(r.x + 1, r.y + 1, r.w - 2, r.h - 2), innerLight, innerDark, a, b), Rim(r, light, dark, a, b))
  }

  lemma RaisedCell(f: Face, r: Rect, a: int, b: int)
    ensures Latest(f, RaisedOps(r), a, b) == Rims(r, Gray(255), Gray(64), Gray(223), Gray(128), a, b)
  {
    hide Fills, Latest, Sides, Rim;
    LatestOfTwo(f, Fills(Sides(r, C_HILIGHT, C_DARK)), Fills(Sides(Inner(r), C_LIGHT, C_SHADOW)), a, b);
    SidesCell(f, r, C_HILIGHT, C_DARK, a, b);
    SidesCell(f, Inner(r), C_LIGHT, C_SHADOW, a, b);
  }

  lemma SunkenCell(f: Face, r: Rect, a: int, b: int)
    ensures Latest(f, SunkenOps(r), a, b) == Rims(r, Gray(128), Gray(255), Gray(64), Gray(223), a, b)
  {
    hide Fills, Latest, Sides, Rim;
    LatestOfTwo(f, Fills(Sides(r, C_SHADOW, C_HILIGHT)), Fills(Sides(Inner(r), C_DARK, C_LIGHT)), a, b);
    SidesCell(f, r, C_SHADOW, C_HILIGHT, a, b);
    SidesCell(f, Inner(r), C_DARK, C_LIGHT, a, b);
  }

  // ---- The gradient ------------------------------------------------------

  /** The row's share of the height, out of 255, rounded down. */
  predicate Share(t: nat, row: int, h: int) {
    t <= 255 && if h == 1 then t == 0 else t * (h - 1) <= 255 * row < (t + 1) * (h - 1)
  }

  /** The weighted mean of two channels, rounded down. */
  predicate Mixed(c: byte, top: byte, bot: byte, t: nat) {
    255 * c <= top * (255 - t) + bot * t < 255 * c + 255
  }

  /** The color of a gradient's row: from the top color to the bottom one. */
  ghost predicate RowColor(p: Pixel, top: Pixel, bot: Pixel, row: int, h: int) {
    p.a == 255 && exists t: nat ::
      Share(t, row, h) && Mixed(p.r, top.r, bot.r, t) && Mixed(p.g, top.g, bot.g, t) && Mixed(p.b, top.b, bot.b, t)
  }

  lemma ShadeIsRowColor(top: Pixel, bot: Pixel, row: int, h: int)
    requires 0 <= row < h
    ensures RowColor(Shade(top, bot, row, h), top, bot, row, h)
  {
    StepInRange(row, h);
    var t := if h == 1 then 0 else row * 255 / (h - 1);
    assert Share(t, row, h) by {
      if h > 1 {
        assert row * 255 == t * (h - 1) + row * 255 % (h - 1);
        assert (t + 1) * (h - 1) == t * (h - 1) + (h - 1);
      }
    }
    BlendIsMixed(top.r, bot.r, t);
    BlendIsMixed(top.g, bot.g, t);
    BlendIsMixed(top.b, bot.b, t);
  }

  lemma BlendIsMixed(top: byte, bot: byte, t: nat)
    requires t <= 255
    ensures Mixed(Blend(top, bot, t), top, bot, t)
  {
    var v := top * (255 - t) + bot * t;
    assert v == v / 255 * 255 + v % 255;
  }

  /** Steps from the i-th on that reach the cell in the j-th alone. */
  lemma {:induction false} OnlyOne(f: Face, ops: seq<Op>, j: nat, a: int, b: int)
    requires forall i :: 0 <= i < |ops| && i != j ==> Color(f, ops[i], a, b).None?
    ensures Latest(f, ops, a, b) == if j < |ops| then Color(f, ops[j], a, b) else None
    decreases |ops|
  {
    hide Color;
    if ops != [] {
      assert forall i :: 0 <= i < |ops| - 1 ==> ops[1..][i] == ops[i + 1];
      OnlyOne(f, ops[1..], if j > 0 then j - 1 else |ops|, a, b);
    }
  }

  lemma GradientCell(f: Face, r: Rect, top: Pixel, bot: Pixel, a: int, b: int)
    ensures Latest(f, GradientOps(r, top, bot), a, b) ==
      if Inside(r, a, b) then Some(Shade(top, bot, b - r.y, r.h)) else None
  {
    hide Shade;
    OnlyOne(f, GradientOps(r, top, bot), if b >= r.y then b - r.y else 0, a, b);
  }

  // ---- The card ----------------------------------------------------------

  /** The last of these texts with a bit in the cell. */
  ghost function Lettered(f: Face, rs: seq<TextRun>, a: int, b: int): (p: Option<Pixel>) {
    if rs == [] then None
    else Atop(Lettered(f, rs[1..], a, b), Letter(f, rs[0].x, rs[0].y, rs[0].text, rs[0].color, a, b))
  }

  ghost function Letter(f: Face, x: int, y: int, text: seq<byte>, color: Pixel, a: int, b: int): (p: Option<Pixel>) {
    if TextInks(f, Glyphs(f.cs, text), 0, 1, x, y, a, b) then Some(color) else None
  }

  lemma {:induction false} WritesCell(f: Face, rs: seq<TextRun>, a: int, b: int)
    ensures Latest(f, Writes(rs), a, b) == Lettered(f, rs, a, b)
    decreases |rs|
  {
    if rs != [] {
      assert Writes(rs)[1..] == Writes(rs[1..]);
      WritesCell(f, rs[1..], a, b);
    }
  }

  /** The card's border, the avatar with its gradient, the username, the location and the three dots. */
  ghost function HeaderColor(f: Face, x: int, y: int, w: int, h: int, v: View, a: int, b: int): (p: Option<Pixel>) {
    var place := if v.loc.Some? then Letter(f, x + 40, y + 21, v.loc.value, Gray(128), a, b) else None;
    var name := Letter(f, x + 40, y + 11, v.user, Gray(20), a, b);
    if y + 18 <= b < y + 21
       && (x + w - 24 <= a < x + w - 21 || x + w - 18 <= a < x + w - 15 || x + w - 12 <= a < x + w - 9)
    then Some(Gray(80))
    else if place.Some? then place
    else if name.Some? then name
    else if x + 10 <= a < x + 30 && y + 10 <= b < y + 30 then Some(Shade(v.top, v.bot, b - y - 10, 20))
    else Atop(Rims(Rect(x + 8, y + 8, 24, 24), Gray(128), Gray(255), Gray(64), Gray(223), a, b),
              Rims(Rect(x, y, w, h), Gray(255), Gray(64), Gray(223), Gray(128), a, b))
  }

  /** The picture in its well, two pixels inside a sunken square: the photo scaled to it, nothing when no memory can be
      had for that, or the gradient when there is no photo. */
  function PictureColor(r: Rect, v: View, a: int, b: int): (p: Option<Pixel>) {
    if !Inside(r, a, b) then None
    else if v.shot.None? then Some(Shade(v.top, v.bot, b - r.y, r.h))
    else if r.w * r.h <= MAX_PIXELS && v.room then Some(Texel(Scaled(v.shot.value, r.w, r.h), r.w, a - r.x, b - r.y))
    else None
  }

  /** The heart, filled in red or gray, and the frames of the comment, share and bookmark icons. */
  function ActionColor(x: int, iy: int, w: int, liked: bool, a: int, b: int): (p: Option<Pixel>) {
    if OnEdge(Rect(x + 30, iy, 14, 12), a, b) || OnEdge(Rect(x + 52, iy, 16, 12), a, b)
       || OnEdge(Rect(x + w - 20, iy, 10, 12), a, b) then Some(Gray(80))
    else if Inside(Rect(x + 8, iy, 14, 12), a, b) then Some(if liked then Pixel(255, 220, 30, 60) else Gray(80))
    else None
  }

  lemma DotsCell(f: Face, cx: int, cw: int, cy: int, a: int, b: int)
    ensures Latest(f, DotOps(cx, cw, cy, 3), a, b) ==
      if cy + 10 <= b < cy + 13
         && (cx + cw - 16 <= a < cx + cw - 13 || cx + cw - 10 <= a < cx + cw - 7 || cx + cw - 4 <= a < cx + cw - 1)
      then Some(Gray(80)) else None
  {
    var ops := DotOps(cx, cw, cy, 3);
    var p, q, r := FillOp(Stroke(Dot(cx, cw, cy, 0), C_INK)), FillOp(Stroke(Dot(cx, cw, cy, 1), C_INK)),
                   FillOp(Stroke(Dot(cx, cw, cy, 2), C_INK));
    assert ops == [p] + ([q] + [r]);
    LatestOfTwo(f, [p], [q] + [r], a, b);
    LatestOfTwo(f, [q], [r], a, b);
    LatestOfOne(f, p, a, b);
    LatestOfOne(f, q, a, b);
    LatestOfOne(f, r, a, b);
  }

  lemma TextCell(f: Face, r: TextRun, a: int, b: int)
    ensures Latest(f, [TextOp(r)], a, b) == Letter(f, r.x, r.y, r.text, r.color, a, b)
  {
    hide TextInks, Glyphs;
    LatestOfOne(f, TextOp(r), a, b);
  }

  lemma NothingDrawn(f: Face, a: int, b: int)
    ensures Latest(f, [], a, b) == None
  {
  }

  lemma HeaderCell(f: Face, x: int, y: int, w: int, h: int, v: View, a: int, b: int)
    ensures Latest(f, HeaderOps(x, y, w, h, v), a, b) == HeaderColor(f, x, y, w, h, v, a, b)
  {
    hide Latest, RaisedOps, SunkenOps, GradientOps, DotOps, Letter, Rims, Shade;
    var (cx, cw, cy) := (x + POST_PAD, w - 2 * POST_PAD, y + POST_PAD);
    var card, frame := RaisedOps(Rect(x, y, w, h)), SunkenOps(Rect(cx, cy, 24, 24));
    var face := GradientOps(Rect(cx + 2, cy + 2, 20, 20), v.top, v.bot);
    var name: seq<Op> := [TextOp(TextRun(cx + 32, cy + 3, v.user, C_TEXT))];
    var place: seq<Op> := if v.loc.Some? then [TextOp(TextRun(cx + 32, cy + 13, v.loc.value, C_SHADOW))] else [];
    var dots := DotOps(cx, cw, cy, 3);
    assert HeaderOps(x, y, w, h, v) == card + frame + face + name + place + dots;
    LatestOfTwo(f, card + frame + face + name + place, dots, a, b);
    LatestOfTwo(f, card + frame + face + name, place, a, b);
    LatestOfTwo(f, card + frame + face, name, a, b);
    LatestOfTwo(f, card + frame, face, a, b);
    LatestOfTwo(f, card, frame, a, b);
    RaisedCell(f, Rect(x, y, w, h), a, b);
    SunkenCell(f, Rect(cx, cy, 24, 24), a, b);
    GradientCell(f, Rect(cx + 2, cy + 2, 20, 20), v.top, v.bot, a, b);
    TextCell(f, TextRun(cx + 32, cy + 3, v.user, C_TEXT), a, b);
    NothingDrawn(f, a, b);
    if v.loc.Some? {
      TextCell(f, TextRun(cx + 32, cy + 13, v.loc.value, C_SHADOW), a, b);
    }
    DotsCell(f, cx, cw, cy, a, b);
  }

  lemma WellCell(f: Face, well: Rect, v: View, a: int, b: int)
    ensures Latest(f, WellOps(well, v), a, b) ==
      Atop(PictureColor(Rect(well.x + 2, well.y + 2, well.w - 4, well.h - 4), v, a, b),
           Rims(well, Gray(128), Gray(255), Gray(64), Gray(223), a, b))
  {
    hide Latest, SunkenOps, GradientOps, Rims, Shade, Scaled;
    var r := Rect(well.x + 2, well.y + 2, well.w - 4, well.h - 4);
    LatestOfTwo(f, SunkenOps(well), PictureOps(r, v), a, b);
    SunkenCell(f, well, a, b);
    NothingDrawn(f, a, b);
    if v.shot.None? {
      GradientCell(f, r, v.top, v.bot, a, b);
    } else if PictureOps(r, v) != [] {
      LatestOfOne(f, PictureOps(r, v)[0], a, b);
    }
  }

  lemma ActionCell(f: Face, cx: int, cw: int, iy: int, liked: bool, a: int, b: int)
    ensures Latest(f, ActionOps(cx, cw, iy, liked), a, b) == ActionColor(cx - 8, iy, cw + 16, liked, a, b)
  {
    hide Latest, Fills, Outline, OnEdge;
    var heart: seq<Op> := [FillOp(Stroke(Rect(cx, iy, 14, 12), if liked then C_HEART else C_INK))];
    var s, t, u := Rect(cx + 22, iy, 14, 12), Rect(cx + 44, iy, 16, 12), Rect(cx + cw - 12, iy, 10, 12);
    LatestOfTwo(f, heart + Fills(Outline(s, C_INK)) + Fills(Outline(t, C_INK)), Fills(Outline(u, C_INK)), a, b);
    LatestOfTwo(f, heart + Fills(Outline(s, C_INK)), Fills(Outline(t, C_INK)), a, b);
    LatestOfTwo(f, heart, Fills(Outline(s, C_INK)), a, b);
    LatestOfOne(f, heart[0], a, b);
    OutlineCell(f, s, C_INK, a, b);
    OutlineCell(f, t, C_INK, a, b);
    OutlineCell(f, u, C_INK, a, b);
  }

  /** What is on top at (a, b) of a card w wide with its corner at (x, y): the block's texts, then the icons, the
      picture in its well, and the header. */
  ghost function CardColor(f: Face, x: int, y: int, w: int, v: View, a: int, b: int): (p: Option<Pixel>) {
    var texts := BlockRuns(f.cs, x + 8, y + w + 50, w - 16, v.likes, v.user, v.caption, v.comments, v.expanded);
    Atop(Lettered(f, texts, a, b),
    Atop(ActionColor(x, y + w + 30, w, v.liked, a, b),
    Atop(PictureColor(Rect(x + 10, y + 42, w - 20, w - 20), v, a, b),
    Atop(Rims(Rect(x + 8, y + 40, w - 16, w - 16), Gray(128), Gray(255), Gray(64), Gray(223), a, b),
         HeaderColor(f, x, y, w, CardHeight(f.cs, w, v.caption, v.comments.Some?, v.expanded), v, a, b)))))
  }

  lemma CardLatest(f: Face, x: int, y: int, w: int, v: View, a: int, b: int)
    ensures Latest(f, CardOps(f.cs, x, y, w, v), a, b) == CardColor(f, x, y, w, v, a, b)
  {
    hide Latest, HeaderOps, WellOps, ActionOps, Writes, BlockRuns, CardHeight, Lettered, ActionColor, PictureColor,
         Rims, HeaderColor;
    var (cx, cw) := (x + POST_PAD, w - 2 * POST_PAD);
    var h := CardHeight(f.cs, w, v.caption, v.comments.Some?, v.expanded);
    var header, well := HeaderOps(x, y, w, h, v), WellOps(Rect(cx, y + 40, cw, cw), v);
    var action := ActionOps(cx, cw, y + 40 + cw + 6, v.liked);
    var texts := BlockRuns(f.cs, cx, y + 40 + cw + 26, cw, v.likes, v.user, v.caption, v.comments, v.expanded);
    LatestOfTwo(f, header + well + action, Writes(texts), a, b);
    LatestOfTwo(f, header + well, action, a, b);
    LatestOfTwo(f, header, well, a, b);
    HeaderCell(f, x, y, w, h, v, a, b);
    WellCell(f, Rect(cx, y + 40, cw, cw), v, a, b);
    ActionCell(f, cx, cw, y + 40 + cw + 6, v.liked, a, b);
    WritesCell(f, texts, a, b);
  }

  // ---- On a surface ------------------------------------------------------

  lemma OpaqueTwo(s: seq<Op>, t: seq<Op>)
    requires Opaque(s) && Opaque(t)
    ensures Opaque(s + t)
  {
  }

  lemma {:induction false} CaptionOpaque(cs: Charset, s: seq<byte>, ls: seq<CapLine>, i: nat, visible: nat,
                                         truncated: bool, cx: int, cy: int, cw: int)
    requires i <= visible <= |ls| && forall k :: 0 <= k < |ls| ==> ls[k].off + ls[k].len <= |s|
    ensures Opaque(Writes(CaptionRuns(cs, s, ls, i, visible, truncated, cx, cy, cw)))
    decreases visible - i
  {
    hide Copied, FitLen, Budget, TextSpan;
    if i < visible {
      CaptionOpaque(cs, s, ls, i + 1, visible, truncated, cx, cy, cw);
      var a := LineRuns(cs, s, ls[i], cx, LineTop(cy, i), cw, truncated && i == visible - 1);
      OpaqueTwo(Writes(a), Writes(CaptionRuns(cs, s, ls, i + 1, visible, truncated, cx, cy, cw)));
      assert Writes(CaptionRuns(cs, s, ls, i, visible, truncated, cx, cy, cw))
        == Writes(a) + Writes(CaptionRuns(cs, s, ls, i + 1, visible, truncated, cx, cy, cw));
    }
  }

  lemma BlockOpaque(cs: Charset, cx: int, cy: int, cw: int, likes: seq<byte>, user: seq<byte>,
                    caption: Option<seq<byte>>, comments: Option<seq<byte>>, expanded: bool)
    ensures Opaque(Writes(BlockRuns(cs, cx, cy, cw, likes, user, caption, comments, expanded)))
  {
    hide Wrapped, CaptionRuns;
    var ls := Wrapped(cs, caption, cw);
    var s := if caption.Some? then caption.value else [];
    RangesInText(cs, caption, cw);
    var n := VisibleLines(|ls|, expanded);
    CaptionOpaque(cs, s, ls, 0, n, Truncated(|ls|, expanded), cx, cy, cw);
    var head := [TextRun(cx, cy, likes, C_TEXT), TextRun(cx, cy + FONT_LINE + 1, user, C_TEXT)];
    var mid := CaptionRuns(cs, s, ls, 0, n, Truncated(|ls|, expanded), cx, cy, cw);
    var tail := if comments.Some? then [TextRun(cx, LineTop(cy, n), comments.value, C_SHADOW)] else [];
    assert Writes(head + mid + tail) == Writes(head) + Writes(mid) + Writes(tail);
    OpaqueTwo(Writes(head), Writes(mid));
    OpaqueTwo(Writes(head) + Writes(mid), Writes(tail));
  }

  lemma HeaderOpaque(x: int, y: int, w: int, h: int, v: View)
    ensures Opaque(HeaderOps(x, y, w, h, v))
  {
    hide Shade, Sides;
  }

  lemma WellOpaque(well: Rect, v: View, cx: int, cw: int, iy: int)
    ensures Opaque(WellOps(well, v)) && Opaque(ActionOps(cx, cw, iy, v.liked))
  {
    hide Shade, Sides, Outline, Scaled;
  }

  lemma CardOpaque(cs: Charset, x: int, y: int, w: int, v: View)
    ensures Opaque(CardOps(cs, x, y, w, v))
  {
    hide BlockRuns, CardHeight, Opaque, HeaderOps, WellOps, ActionOps, Writes;
    var (cx, cw) := (x + POST_PAD, w - 2 * POST_PAD);
    var header := HeaderOps(x, y, w, CardHeight(cs, w, v.caption, v.comments.Some?, v.expanded), v);
    var well, action := WellOps(Rect(cx, y + 40, cw, cw), v), ActionOps(cx, cw, y + 40 + cw + 6, v.liked);
    var texts := BlockRuns(cs, cx, y + 40 + cw + 26, cw, v.likes, v.user, v.caption, v.comments, v.expanded);
    HeaderOpaque(x, y, w, CardHeight(cs, w, v.caption, v.comments.Some?, v.expanded), v);
    WellOpaque(Rect(cx, y + 40, cw, cw), v, cx, cw, y + 40 + cw + 6);
    BlockOpaque(cs, cx, y + 40 + cw + 26, cw, v.likes, v.user, v.caption, v.comments, v.expanded);
    OpaqueTwo(header, well);
    OpaqueTwo(header + well, action);
    OpaqueTwo(header + well + action, Writes(texts));
  }

  /** After a card is drawn every cell of the surface has the color of what is on top there, and every cell that nothing
      of the card reaches is as it was. */
  lemma CardCells(c: Canvas, px: seq<Pixel>, x: int, y: int, w: int, v: View, k: nat)
    requires c.Valid() && k < |px|
    ensures
      var p := CardColor(c.f, x, y, w, v, Column(c.stride, k), Row(c.stride, k));
      Painted(c, px, CardOps(c.f.cs, x, y, w, v))[k] == if OnCanvas(c, k) && p.Some? then p.value else px[k]
  {
    hide Painted, Latest, CardOps, CardColor, Column, Row;
    CardOpaque(c.f.cs, x, y, w, v);
    PaintedCell(c, px, CardOps(c.f.cs, x, y, w, v), k);
    CardLatest(c.f, x, y, w, v, Column(c.stride, k), Row(c.stride, k));
  }
}
