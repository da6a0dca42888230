/** A post's card in ui/feed.c, as the list of what draw_post draws, and the helpers that draw it. */
module Paint {
  import opened CTypes
  import opened Raster
  import D = Downscale
  import opened Font
  import opened Caption
  import opened Draw
  import opened Feed

  const C_FACE := Pixel(255, 192, 192, 192)
  const C_HILIGHT := Pixel(255, 255, 255, 255)
  const C_LIGHT := Pixel(255, 223, 223, 223)
  const C_DARK := Pixel(255, 64, 64, 64)
  const C_IG_BLUE := Pixel(255, 0, 60, 128)
  const C_HEART := Pixel(255, 220, 30, 60)

  /** A photo's pixels. */
  datatype Shot = Shot(px: seq<Pixel>, w: int, h: int, stride: int)

  /** What a photo's surface holds, if there is anything on it. */
  ghost predicate Holds(photo: Surface?, shot: Option<Shot>)
    reads photo, if photo == null then {} else {photo.pixels}
  {
    if photo == null || photo.w <= 0 || photo.h <= 0 then shot.None?
    else photo.Valid() && shot == Some(Shot(photo.pixels[..], photo.w, photo.h, photo.stride))
  }

  /** PostView, with the photo's pixels; `room` says whether memory for the scaled photo can be had. */
  datatype View = View(top: Pixel, bot: Pixel, user: seq<byte>, loc: Option<seq<byte>>, likes: seq<byte>,
                       caption: Option<seq<byte>>, comments: Option<seq<byte>>, liked: bool, expanded: bool,
                       shot: Option<Shot>, room: bool)

  // ---- Drawing as a list -------------------------------------------------

  /** One step of a drawing: a filled rectangle, a string, or a picture w by h with its corner at (dx, dy). */
  datatype Op =
    | FillOp(t: Stroke)
    | TextOp(run: TextRun)
    | PhotoOp(dx: int, dy: int, px: seq<Pixel>, w: int, h: int)

  /** A surface's sizes, and the font. */
  datatype Canvas = Canvas(f: Face, w: int, h: int, stride: int)
  {
    predicate Valid() {
      stride >= w > 0
    }
  }

  function Did(c: Canvas, px: seq<Pixel>, op: Op): (out: seq<Pixel>)
    requires c.Valid()
    ensures |out| == |px|
  {
    match op
    case FillOp(t) => FillCells(px, c.w, c.h, c.stride, t.r, t.color)
    case TextOp(r) => DrawText(c.f, Pen(c.w, c.h, c.stride, r.color, 1), px, r.x, r.x, r.y, Glyphs(c.f.cs, r.text)).0
    case PhotoOp(dx, dy, spx, w, h) => BlitCells(Copy, px, c.w, c.h, c.stride, spx, w, h, w, dx, dy, Rect(0, 0, w, h))
  }

  /** The buffer after a drawing. */
  function Painted(c: Canvas, px: seq<Pixel>, ops: seq<Op>): (out: seq<Pixel>)
    requires c.Valid()
    ensures |out| == |px|
    decreases |ops|
  {
    if ops == [] then px else Painted(c, Did(c, px, ops[0]), ops[1..])
  }

  lemma {:induction false} PaintedAppend(c: Canvas, px: seq<Pixel>, a: seq<Op>, b: seq<Op>)
    requires c.Valid()
    ensures Painted(c, px, a + b) == Painted(c, Painted(c, px, a), b)
    decreases |a|
  {
    hide Did;
    if a == [] {
      assert a + b == b;
    } else {
      assert (a + b)[0] == a[0] && (a + b)[1..] == a[1..] + b;
      PaintedAppend(c, Did(c, px, a[0]), a[1..], b);
    }
  }

  function Fills(ss: seq<Stroke>): (ops: seq<Op>)
    ensures |ops| == |ss|
  {
    seq(|ss|, i requires 0 <= i < |ss| => FillOp(ss[i]))
  }

  function Writes(rs: seq<TextRun>): (ops: seq<Op>)
    ensures |ops| == |rs|
  {
    seq(|rs|, i requires 0 <= i < |rs| => TextOp(rs[i]))
  }

  lemma {:induction false} FillsAreStrokes(c: Canvas, px: seq<Pixel>, ss: seq<Stroke>)
    requires c.Valid()
    ensures Painted(c, px, Fills(ss)) == Strokes(px, c.w, c.h, c.stride, ss)
    decreases |ss|
  {
    hide FillCells;
    if ss != [] {
      assert Fills(ss)[1..] == Fills(ss[1..]);
      FillsAreStrokes(c, FillCells(px, c.w, c.h, c.stride, ss[0].r, ss[0].color), ss[1..]);
    }
  }

  lemma {:induction false} WritesAreRuns(c: Canvas, px: seq<Pixel>, rs: seq<TextRun>)
    requires c.Valid()
    ensures Painted(c, px, Writes(rs)) == DrawRuns(c.f, c.w, c.h, c.stride, px, rs)
    decreases |rs|
  {
    hide DrawText, Glyphs;
    if rs != [] {
      assert Writes(rs)[1..] == Writes(rs[1..]);
      WritesAreRuns(c, Did(c, px, TextOp(rs[0])), rs[1..]);
    }
  }

  // ---- A card ------------------------------------------------------------

  /** The rectangle one pixel further in. */
  function Inner(r: Rect): (i: Rect) {
    Rect(r.x + 1, r.y + 1, r.w - 2, r.h - 2)
  }

  function RaisedOps(r: Rect): (ops: seq<Op>) {
    Fills(Sides(r, C_HILIGHT, C_DARK)) + Fills(Sides(Inner(r), C_LIGHT, C_SHADOW))
  }

  function SunkenOps(r: Rect): (ops: seq<Op>) {
    Fills(Sides(r, C_SHADOW, C_HILIGHT)) + Fills(Sides(Inner(r), C_DARK, C_LIGHT))
  }

  /** One channel of gradient_v's mix. */
  function Blend(top: byte, bot: byte, t: int): (c: byte)
    requires 0 <= t <= 255
  {
    MulMono(top, 255, 255 - t);
    MulMono(0, top, 255 - t);
    MulMono(bot, 255, t);
    MulMono(0, bot, t);
    BlendRange(top * (255 - t) + bot * t);
    (top * (255 - t) + bot * t) / 255
  }

  lemma BlendRange(v: int)
    requires 0 <= v <= 255 * 255
    ensures 0 <= v / 255 < 256
  {
  }

  lemma StepInRange(y: int, h: int)
    requires 0 <= y < h
    ensures h > 1 ==> 0 <= y * 255 / (h - 1) <= 255
  {
    if h > 1 {
      var q := y * 255 / (h - 1);
      assert y * 255 == q * (h - 1) + y * 255 % (h - 1);
      if q > 255 {
        MulMono(256, q, h - 1);
        assert false;
      }
    }
  }

  /** The color of one row of a gradient: the mix of its two colors by the row's share of the height. */
  function Shade(top: Pixel, bot: Pixel, y: int, h: int): (c: Pixel)
    requires 0 <= y < h
  {
    StepInRange(y, h);
    var t := if h == 1 then 0 else y * 255 / (h - 1);
    Pixel(255, Blend(top.r, bot.r, t), Blend(top.g, bot.g, t), Blend(top.b, bot.b, t))
  }

  /** A gradient, row by row. */
  function GradientOps(r: Rect, top: Pixel, bot: Pixel): (ops: seq<Op>) {
    seq(if r.h > 0 then r.h else 0, y requires 0 <= y < r.h =>
      FillOp(Stroke(Rect(r.x, r.y + y, r.w, 1), Shade(top, bot, y, r.h))))
  }

  /** One dot of the three-dot menu. */
  function Dot(cx: int, cw: int, cy: int, i: int): (r: Rect) {
    Rect(cx + cw - 4 - i * 6, cy + 10, 3, 3)
  }

  function DotOps(cx: int, cw: int, cy: int, n: nat): (ops: seq<Op>) {
    seq(n, i => FillOp(Stroke(Dot(cx, cw, cy, i), C_INK)))
  }

  /** The card's border and its header. */
  function HeaderOps(x: int, y: int, w: int, h: int, v: View): (ops: seq<Op>) {
    var (cx, cw, cy) := (x + POST_PAD, w - 2 * POST_PAD, y + POST_PAD);
    RaisedOps(Rect(x, y, w, h)) + SunkenOps(Rect(cx, cy, 24, 24)) +
    GradientOps(Rect(cx + 2, cy + 2, 20, 20), v.top, v.bot) + [TextOp(TextRun(cx + 32, cy + 3, v.user, C_TEXT))] +
    (if v.loc.Some? then [TextOp(TextRun(cx + 32, cy + 13, v.loc.value, C_SHADOW))] else []) + DotOps(cx, cw, cy, 3)
  }

  /** The photo scaled to a size. */
  function Scaled(shot: Shot, w: int, h: int): (px: seq<Pixel>)
    requires w > 0 && h > 0
  {
    D.ScaledCells(Repeat(CLEAR, w * h), w, h, w, shot.px, shot.w, shot.h, shot.stride)
  }

  /** Inside the well: the photo, nothing when there is no memory to scale it, or the gradient for a post without
      one. */
  function PictureOps(r: Rect, v: View): (ops: seq<Op>) {
    if v.shot.None? then GradientOps(r, v.top, v.bot)
    else if r.w > 0 && r.h > 0 && r.w * r.h <= MAX_PIXELS && v.room then
      [PhotoOp(r.x, r.y, Scaled(v.shot.value, r.w, r.h), r.w, r.h)]
    else []
  }

  function WellOps(well: Rect, v: View): (ops: seq<Op>) {
    SunkenOps(well) + PictureOps(Rect(well.x + 2, well.y + 2, well.w - 4, well.h - 4), v)
  }

  /** The action bar's four icons. */
  function ActionOps(cx: int, cw: int, iy: int, liked: bool): (ops: seq<Op>) {
    [FillOp(Stroke(Rect(cx, iy, 14, 12), if liked then C_HEART else C_INK))] +
    Fills(Outline(Rect(cx + 22, iy, 14, 12), C_INK)) + Fills(Outline(Rect(cx + 44, iy, 16, 12), C_INK)) +
    Fills(Outline(Rect(cx + cw - 12, iy, 10, 12), C_INK))
  }

  /** What draw_post draws of a card w wide with its corner at (x, y), in order. */
  function CardOps(cs: Charset, x: int, y: int, w: int, v: View): (ops: seq<Op>) {
    var (cx, cw) := (x + POST_PAD, w - 2 * POST_PAD);
    HeaderOps(x, y, w, CardHeight(cs, w, v.caption, v.comments.Some?, v.expanded), v) +
    WellOps(Rect(cx, y + 40, cw, cw), v) + ActionOps(cx, cw, y + 40 + cw + 6, v.liked) +
    Writes(BlockRuns(cs, cx, y + 40 + cw + 26, cw, v.likes, v.user, v.caption, v.comments, v.expanded))
  }

  // ---- Drawing it --------------------------------------------------------

  /** The surface is at this stage of a drawing that began with `start`. */
  ghost predicate At(f: Face, s: Surface, start: seq<Pixel>, done: seq<Op>)
    reads s, s.pixels
  {
    s.Valid() && s.pixels[..] == Painted(Canvas(f, s.w, s.h, s.stride), start, done)
  }

  lemma Begins(f: Face, s: Surface)
    requires s.Valid()
    ensures At(f, s, s.pixels[..], [])
  {
  }

  lemma OneStep(c: Canvas, start: seq<Pixel>, done: seq<Op>, op: Op)
    requires c.Valid()
    ensures Painted(c, start, done + [op]) == Did(c, Painted(c, start, done), op)
  {
    hide Did;
    PaintedAppend(c, start, done, [op]);
    assert [op][1..] == [];
  }

  lemma MoreFills(c: Canvas, start: seq<Pixel>, done: seq<Op>, ss: seq<Stroke>)
    requires c.Valid()
    ensures Painted(c, start, done + Fills(ss)) == Strokes(Painted(c, start, done), c.w, c.h, c.stride, ss)
  {
    hide Painted, Fills, Strokes;
    PaintedAppend(c, start, done, Fills(ss));
    FillsAreStrokes(c, Painted(c, start, done), ss);
  }

  /** surface_fill_rect */
  method Put(f: Face, s: Surface, r: Rect, color: Pixel, ghost start: seq<Pixel>, ghost done: seq<Op>)
    requires At(f, s, start, done)
    modifies s.pixels
    ensures At(f, s, start, done + [FillOp(Stroke(r, color))])
  {
    hide Painted, FillCells;
    OneStep(Canvas(f, s.w, s.h, s.stride), start, done, FillOp(Stroke(r, color)));
    FillRect(s, r, color);
  }

  /** An icon's frame. */
  method Icon(f: Face, s: Surface, r: Rect, ghost start: seq<Pixel>, ghost done: seq<Op>)
    requires At(f, s, start, done)
    modifies s.pixels
    ensures At(f, s, start, done + Fills(Outline(r, C_INK)))
  {
    hide Painted, Strokes;
    MoreFills(Canvas(f, s.w, s.h, s.stride), start, done, Outline(r, C_INK));
    Frame(s, r, C_INK);
  }

  /** Two bevels, one inside the other. */
  method Panel(f: Face, s: Surface, r: Rect, a: Pixel, b: Pixel, c: Pixel, d: Pixel, ghost start: seq<Pixel>,
               ghost done: seq<Op>)
    requires At(f, s, start, done)
    modifies s.pixels
    ensures At(f, s, start, done + (Fills(Sides(r, a, b)) + Fills(Sides(Inner(r), c, d))))
  {
    hide Painted, Strokes, Fills;
    ghost var canvas := Canvas(f, s.w, s.h, s.stride);
    ghost var outer, inner := Fills(Sides(r, a, b)), Fills(Sides(Inner(r), c, d));
    MoreFills(canvas, start, done, Sides(r, a, b));
    Bevel(s, r, a, b);
    MoreFills(canvas, start, done + outer, Sides(Inner(r), c, d));
    Bevel(s, Inner(r), c, d);
    assert done + outer + inner == done + (outer + inner);
  }

  /** gradient_v */
  method Gradient(f: Face, s: Surface, r: Rect, top: Pixel, bot: Pixel, ghost start: seq<Pixel>, ghost done: seq<Op>)
    requires At(f, s, start, done)
    modifies s.pixels
    ensures At(f, s, start, done + GradientOps(r, top, bot))
  {
    hide At, Blend;
    ghost var ops := GradientOps(r, top, bot);
    assert done + ops[..0] == done;
    var y := 0;
    while y < r.h
      invariant 0 <= y && (y <= r.h || y == 0) && At(f, s, start, done + ops[..y])
    {
      var t := if r.h == 1 then 0 else y * 255 / (r.h - 1);
      StepInRange(y, r.h);
      var c := Pixel(255, Blend(top.r, bot.r, t), Blend(top.g, bot.g, t), Blend(top.b, bot.b, t));
      Put(f, s, Rect(r.x, r.y + y, r.w, 1), c, start, done + ops[..y]);
      assert ops[..y + 1] == ops[..y] + [ops[y]];
      assert done + ops[..y] + [ops[y]] == done + (ops[..y] + [ops[y]]);
      y := y + 1;
    }
    assert ops[..y] == ops;
  }

  /** font_draw */
  method Text(f: Face, s: Surface, r: TextRun, ghost start: seq<Pixel>, ghost done: seq<Op>)
    requires At(f, s, start, done)
    modifies s.pixels
    ensures At(f, s, start, done + [TextOp(r)])
  {
    hide Painted, DrawText, Glyphs;
    OneStep(Canvas(f, s.w, s.h, s.stride), start, done, TextOp(r));
    var cx := FontDrawScaled(f, s, r.x, r.y, r.text, r.color, 1);
  }

  /** The three-dot menu. */
  method Dots(f: Face, s: Surface, cx: int, cw: int, cy: int, ghost start: seq<Pixel>, ghost done: seq<Op>)
    requires At(f, s, start, done)
    modifies s.pixels
    ensures At(f, s, start, done + DotOps(cx, cw, cy, 3))
  {
    hide At;
    assert done + DotOps(cx, cw, cy, 0) == done;
    for i := 0 to 3
      invariant At(f, s, start, done + DotOps(cx, cw, cy, i))
    {
      Put(f, s, Dot(cx, cw, cy, i), C_INK, start, done + DotOps(cx, cw, cy, i));
      ghost var op := FillOp(Stroke(Dot(cx, cw, cy, i), C_INK));
      assert DotOps(cx, cw, cy, i + 1) == DotOps(cx, cw, cy, i) + [op];
      assert done + DotOps(cx, cw, cy, i) + [op] == done + (DotOps(cx, cw, cy, i) + [op]);
    }
  }

  /** The photo scaled into a rectangle, if there is memory for it. */
  method PutPhoto(f: Face, s: Surface, r: Rect, v: View, photo: Surface, ghost start: seq<Pixel>, ghost done: seq<Op>)
    requires At(f, s, start, done) && v.shot.Some? && Holds(photo, v.shot) && photo.pixels != s.pixels
    modifies s.pixels
    ensures At(f, s, start, done + PictureOps(r, v))
  {
    hide Painted, D.ScaledCells, BlitCells;
    var tmp := NoSurface();
    var rc := tmp.Alloc(r.w, r.h, v.room);
    if rc == 0 {
      D.DownscaleTo(tmp, photo);
      assert tmp.pixels[..] == Scaled(v.shot.value, r.w, r.h);
      OneStep(Canvas(f, s.w, s.h, s.stride), start, done, PhotoOp(r.x, r.y, tmp.pixels[..], r.w, r.h));
      Blit(s, r.x, r.y, tmp, None);
    } else {
      assert done + [] == done;
    }
  }

  /** The photo well. */
  method PhotoWell(f: Face, s: Surface, well: Rect, v: View, photo: Surface?, ghost start: seq<Pixel>,
                   ghost done: seq<Op>)
    requires At(f, s, start, done) && Holds(photo, v.shot) && (photo != null ==> photo.pixels != s.pixels)
    modifies s.pixels
    ensures At(f, s, start, done + WellOps(well, v))
  {
    hide At, SunkenOps, PictureOps, GradientOps;
    SunkenIs(well);
    Panel(f, s, well, C_SHADOW, C_HILIGHT, C_DARK, C_LIGHT, start, done);
    var r := Rect(well.x + 2, well.y + 2, well.w - 4, well.h - 4);
    ghost var so := done + SunkenOps(well);
    if photo != null && photo.w > 0 && photo.h > 0 {
      PutPhoto(f, s, r, v, photo, start, so);
    } else {
      NoPhoto(r, v);
      Gradient(f, s, r, v.top, v.bot, start, so);
    }
    assert so + PictureOps(r, v) == done + WellOps(well, v);
  }

  lemma SunkenIs(r: Rect)
    ensures SunkenOps(r) == Fills(Sides(r, C_SHADOW, C_HILIGHT)) + Fills(Sides(Inner(r), C_DARK, C_LIGHT))
  {
  }

  lemma NoPhoto(r: Rect, v: View)
    requires v.shot.None?
    ensures PictureOps(r, v) == GradientOps(r, v.top, v.bot)
  {
  }

  /** caption_block on the surface */
  method Block(f: Face, s: Surface, cx: int, cy: int, cw: int, v: View, ghost start: seq<Pixel>, ghost done: seq<Op>)
    returns (height: int)
    requires At(f, s, start, done)
    modifies s.pixels
    ensures height == BlockHeight(f.cs, cw, v.caption, v.comments.Some?, v.expanded)
    ensures
      var rs := BlockRuns(f.cs, cx, cy, cw, v.likes, v.user, v.caption, v.comments, v.expanded);
      At(f, s, start, done + Writes(rs))
  {
    hide Painted, DrawRuns, BlockRuns, Writes, BlockHeight;
    ghost var c, px := Canvas(f, s.w, s.h, s.stride), s.pixels[..];
    ghost var rs := BlockRuns(f.cs, cx, cy, cw, v.likes, v.user, v.caption, v.comments, v.expanded);
    PaintedAppend(c, start, done, Writes(rs));
    WritesAreRuns(c, px, rs);
    height := CaptionBlock(f, s, cx, cy, cw, v.likes, v.user, v.caption, v.comments, v.expanded);
  }

  /** The border and the header of draw_post. */
  method Header(f: Face, s: Surface, x: int, y: int, w: int, h: int, v: View, ghost start: seq<Pixel>)
    requires At(f, s, start, [])
    modifies s.pixels
    ensures At(f, s, start, HeaderOps(x, y, w, h, v))
  {
    hide At, GradientOps, DotOps, Fills;
    var cx, cw := x + POST_PAD, w - 2 * POST_PAD;
    var cy := y + POST_PAD;
    Panel(f, s, Rect(x, y, w, h), C_HILIGHT, C_DARK, C_LIGHT, C_SHADOW, start, []);
    ghost var done := RaisedOps(Rect(x, y, w, h));
    assert [] + done == done;
    Panel(f, s, Rect(cx, cy, 24, 24), C_SHADOW, C_HILIGHT, C_DARK, C_LIGHT, start, done);
    done := done + SunkenOps(Rect(cx, cy, 24, 24));
    Gradient(f, s, Rect(cx + 2, cy + 2, 20, 20), v.top, v.bot, start, done);
    done := done + GradientOps(Rect(cx + 2, cy + 2, 20, 20), v.top, v.bot);
    Text(f, s, TextRun(cx + 32, cy + 3, v.user, C_TEXT), start, done);
    done := done + [TextOp(TextRun(cx + 32, cy + 3, v.user, C_TEXT))];
    if v.loc.Some? {
      Text(f, s, TextRun(cx + 32, cy + 13, v.loc.value, C_SHADOW), start, done);
      done := done + [TextOp(TextRun(cx + 32, cy + 13, v.loc.value, C_SHADOW))];
    } else {
      assert done + [] == done;
    }
    Dots(f, s, cx, cw, cy, start, done);
  }

  /** The action bar of draw_post. */
  method Actions(f: Face, s: Surface, cx: int, cw: int, iy: int, liked: bool, ghost start: seq<Pixel>,
                 ghost done: seq<Op>)
    requires At(f, s, start, done)
    modifies s.pixels
    ensures At(f, s, start, done + ActionOps(cx, cw, iy, liked))
  {
    hide At, Fills;
    var heart := if liked then C_HEART else C_INK;
    ghost var a := [FillOp(Stroke(Rect(cx, iy, 14, 12), heart))];
    ghost var b := Fills(Outline(Rect(cx + 22, iy, 14, 12), C_INK));
    ghost var c := Fills(Outline(Rect(cx + 44, iy, 16, 12), C_INK));
    ghost var d := Fills(Outline(Rect(cx + cw - 12, iy, 10, 12), C_INK));
    Put(f, s, Rect(cx, iy, 14, 12), heart, start, done);
    Icon(f, s, Rect(cx + 22, iy, 14, 12), start, done + a);
    Icon(f, s, Rect(cx + 44, iy, 16, 12), start, done + a + b);
    Icon(f, s, Rect(cx + cw - 12, iy, 10, 12), start, done + a + b + c);
    assert done + a + b + c + d == done + (a + b + c + d);
  }

  /**
   * draw_post: draws exactly the card's list. Returns where the next card starts, and where the caption block ends:
   * POST_PAD above the card's bottom.
   */
  method DrawPost(f: Face, s: Surface, x: int, y: int, w: int, v: View, photo: Surface?) returns (next: int,
                  blockEnd: int)
    requires s.Valid() && Holds(photo, v.shot) && (photo != null ==> photo.pixels != s.pixels)
    modifies s.pixels
    ensures s.pixels[..] == Painted(Canvas(f, s.w, s.h, s.stride), old(s.pixels[..]), CardOps(f.cs, x, y, w, v))
    ensures
      var h := CardHeight(f.cs, w, v.caption, v.comments.Some?, v.expanded);
      blockEnd == y + h - POST_PAD && next == y + h + 6
  {
    hide BlockHeight, Painted, HeaderOps, WellOps, ActionOps, BlockRuns, Writes;
    ghost var start := s.pixels[..];
    Begins(f, s);
    var h := PostCardHeight(f, w, v.likes, v.user, v.caption, v.comments, v.expanded);
    Header(f, s, x, y, w, h, v, start);
    ghost var done := HeaderOps(x, y, w, h, v);
    var cx, cw := x + POST_PAD, w - 2 * POST_PAD;
    var cy := y + 40;
    var photoH := w - 2 * POST_PAD;
    PhotoWell(f, s, Rect(cx, cy, cw, photoH), v, photo, start, done);
    done := done + WellOps(Rect(cx, cy, cw, photoH), v);
    cy := cy + photoH;
    Actions(f, s, cx, cw, cy + 6, v.liked, start, done);
    done := done + ActionOps(cx, cw, cy + 6, v.liked);
    cy := cy + 26;
    var height := Block(f, s, cx, cy, cw, v, start, done);
    next, blockEnd := y + h + 6, cy + height;
  }
}
