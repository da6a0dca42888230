/** The fixed bars of ui/feed.c, cell by cell: the app bar with its title and icon, the rule, and the nav bar. */
module Chrome {
  import opened CTypes
  import opened Raster
  import opened Font
  import opened Draw
  import opened Feed
  import opened Paint
  import opened PaintCells
  import L = DrawLaws

  const BAR_H := 30
  const NAV_H := 28

  // "Instagram"
  const TITLE: seq<byte> := [0x49, 0x6E, 0x73, 0x74, 0x61, 0x67, 0x72, 0x61, 0x6D]

  // ---- What is drawn -----------------------------------------------------

  function AppOps(w: int): (ops: seq<Op>) {
    [FillOp(Stroke(Rect(0, 0, w, BAR_H), C_IG_BLUE)), FillOp(Stroke(Rect(0, BAR_H, w, 1), C_DARK))]
  }

  function NavOps(w: int, top: int): (ops: seq<Op>) {
    [FillOp(Stroke(Rect(0, top, w, NAV_H), C_FACE)), FillOp(Stroke(Rect(0, top, w, 1), C_HILIGHT)),
     FillOp(Stroke(Rect(0, top + 1, w, 1), C_SHADOW))]
  }

  /** The i-th of the nav bar's icons. */
  function NavIcon(w: int, top: int, i: int): (r: Rect) {
    Rect(w / 5 * i + w / 5 / 2 - 8, top + 8, 16, 14)
  }

  function IconOps(w: int, top: int, n: nat): (ops: seq<Op>) {
    if n == 0 then []
    else IconOps(w, top, n - 1) + Fills(Outline(NavIcon(w, top, n - 1), if n == 1 then C_IG_BLUE else C_INK))
  }

  /** What is drawn after the title: the app bar's icon and the nav bar. */
  function LaterOps(w: int, h: int): (ops: seq<Op>) {
    Fills(Outline(Rect(w - 26, 8, 16, 14), C_HILIGHT)) + NavOps(w, h - NAV_H) + IconOps(w, h - NAV_H, 5)
  }

  /** The buffer after the app bar's fills and the title. */
  function Titled(c: Canvas, px: seq<Pixel>): (out: seq<Pixel>)
    requires c.Valid()
    ensures |out| == |px|
  {
    DrawText(c.f, Pen(c.w, c.h, c.stride, C_HILIGHT, 2), Painted(c, px, AppOps(c.w)), 10, 10, 8,
             Glyphs(c.f.cs, TITLE)).0
  }

  /** The buffer after the app bar and the nav bar. */
  function Chromed(c: Canvas, px: seq<Pixel>): (out: seq<Pixel>)
    requires c.Valid()
    ensures |out| == |px|
  {
    Painted(c, Titled(c, px), LaterOps(c.w, c.h))
  }

  // ---- What is seen ------------------------------------------------------

  /** The word drawn in the app bar, twice its size. */
  ghost predicate TitleInks(f: Face, a: int, b: int) {
    L.TextInks(f, Glyphs(f.cs, Ascii("Instagram")), 0, 2, 10, 8, a, b)
  }

  /** The frame of the i-th of five icons, spread over the window's width. */
  predicate OnNavIcon(w: int, h: int, i: int, a: int, b: int) {
    OnEdge(Rect(w / 5 * i + w / 5 / 2 - 8, h - 20, 16, 14), a, b)
  }

  /** The color of the bars' cell (a, b) in a window w by h, if it is one. The nav bar covers the app bar where they
      meet. */
  ghost function ChromeColor(f: Face, w: int, h: int, a: int, b: int): (p: Option<Pixel>) {
    if OnNavIcon(w, h, 1, a, b) || OnNavIcon(w, h, 2, a, b) || OnNavIcon(w, h, 3, a, b) || OnNavIcon(w, h, 4, a, b)
    then Some(Gray(80))
    else if OnNavIcon(w, h, 0, a, b) then Some(Pixel(255, 0, 60, 128))
    else if b == h - 27 then Some(Gray(128))
    else if b == h - 28 then Some(Gray(255))
    else if b >= h - 28 then Some(Gray(192))
    else if OnEdge(Rect(w - 26, 8, 16, 14), a, b) || TitleInks(f, a, b) then Some(Gray(255))
    else if b == 30 then Some(Gray(64))
    else if b < 30 then Some(Pixel(255, 0, 60, 128))
    else None
  }

  lemma IconsCell(f: Face, w: int, h: int, a: int, b: int)
    ensures Latest(f, IconOps(w, h - 28, 5), a, b) ==
      if OnNavIcon(w, h, 1, a, b) || OnNavIcon(w, h, 2, a, b) || OnNavIcon(w, h, 3, a, b) || OnNavIcon(w, h, 4, a, b)
      then Some(Gray(80)) else if OnNavIcon(w, h, 0, a, b) then Some(Pixel(255, 0, 60, 128)) else None
  {
    hide Latest, Fills, Outline, OnEdge;
    var top := h - 28;
    NothingDrawn(f, a, b);
    assert IconOps(w, top, 0) == [];
    OneIcon(f, w, h, 0, a, b);
    OneIcon(f, w, h, 1, a, b);
    OneIcon(f, w, h, 2, a, b);
    OneIcon(f, w, h, 3, a, b);
    OneIcon(f, w, h, 4, a, b);
  }

  lemma OneIcon(f: Face, w: int, h: int, i: nat, a: int, b: int)
    ensures Latest(f, IconOps(w, h - 28, i + 1), a, b) ==
      if OnNavIcon(w, h, i, a, b) then Some(if i == 0 then Pixel(255, 0, 60, 128) else Gray(80))
      else Latest(f, IconOps(w, h - 28, i), a, b)
  {
    hide Latest, Fills, Outline, OnEdge;
    var r, color := NavIcon(w, h - 28, i), if i == 0 then C_IG_BLUE else C_INK;
    LatestOfTwo(f, IconOps(w, h - 28, i), Fills(Outline(r, color)), a, b);
    OutlineCell(f, r, color, a, b);
  }

  lemma NavCell(f: Face, w: int, h: int, a: int, b: int)
    requires 0 <= a < w && b < h
    ensures Latest(f, NavOps(w, h - 28), a, b) ==
      if b == h - 27 then Some(Gray(128)) else if b == h - 28 then Some(Gray(255))
      else if b >= h - 28 then Some(Gray(192)) else None
  {
    var ops := NavOps(w, h - 28);
    assert ops == [ops[0]] + ([ops[1]] + [ops[2]]);
    LatestOfTwo(f, [ops[0]], [ops[1]] + [ops[2]], a, b);
    LatestOfTwo(f, [ops[1]], [ops[2]], a, b);
    LatestOfOne(f, ops[0], a, b);
    LatestOfOne(f, ops[1], a, b);
    LatestOfOne(f, ops[2], a, b);
  }

  lemma AppCell(f: Face, w: int, a: int, b: int)
    requires 0 <= a < w && 0 <= b
    ensures Latest(f, AppOps(w), a, b) ==
      if b == 30 then Some(Gray(64)) else if b < 30 then Some(Pixel(255, 0, 60, 128)) else None
  {
    var ops := AppOps(w);
    assert ops == [ops[0]] + [ops[1]];
    LatestOfTwo(f, [ops[0]], [ops[1]], a, b);
    LatestOfOne(f, ops[0], a, b);
    LatestOfOne(f, ops[1], a, b);
  }

  lemma {:induction false} IconsOpaque(w: int, top: int, n: nat)
    ensures Opaque(IconOps(w, top, n))
  {
    hide Outline;
    if n > 0 {
      IconsOpaque(w, top, n - 1);
      OpaqueTwo(IconOps(w, top, n - 1), Fills(Outline(NavIcon(w, top, n - 1), if n == 1 then C_IG_BLUE else C_INK)));
    }
  }

  lemma TitleText()
    ensures Ascii("Instagram") == TITLE
  {
  }

  lemma TitleCell(c: Canvas, px: seq<Pixel>, k: nat)
    requires c.Valid() && k < |px| && OnCanvas(c, k)
    ensures DrawText(c.f, Pen(c.w, c.h, c.stride, C_HILIGHT, 2), px, 10, 10, 8, Glyphs(c.f.cs, TITLE)).0[k] ==
      if TitleInks(c.f, Column(c.stride, k), Row(c.stride, k)) then Gray(255) else px[k]
  {
    TitleText();
    hide DrawText, Glyphs, Column, Row, L.TextInks, Ascii;
    L.TextCells(c.f, Pen(c.w, c.h, c.stride, C_HILIGHT, 2), px, 10, 8, Glyphs(c.f.cs, TITLE), k);
  }

  lemma TitledCell(c: Canvas, px: seq<Pixel>, k: nat)
    requires c.Valid() && k < |px| && OnCanvas(c, k)
    ensures
      var (a, b) := (Column(c.stride, k), Row(c.stride, k));
      Titled(c, px)[k] ==
        if TitleInks(c.f, a, b) then Gray(255) else if b == 30 then Gray(64)
        else if b < 30 then Pixel(255, 0, 60, 128) else px[k]
  {
    var (a, b) := (Column(c.stride, k), Row(c.stride, k));
    assert 0 <= a < c.w && 0 <= b < c.h;
    hide Latest, Painted, DrawText, Glyphs, Column, Row, AppOps, LaterOps, Opaque, TitleInks, Ascii;
    var barred := Painted(c, px, AppOps(c.w));
    LaterOpaque(c.w, c.h);
    PaintedCell(c, px, AppOps(c.w), k);
    AppCell(c.f, c.w, a, b);
    TitleCell(c, barred, k);
  }

  lemma LaterCell(f: Face, w: int, h: int, a: int, b: int)
    requires 0 <= a < w && b < h
    ensures Latest(f, LaterOps(w, h), a, b) ==
      Atop(Latest(f, IconOps(w, h - 28, 5), a, b),
      Atop(Latest(f, NavOps(w, h - 28), a, b),
           if OnEdge(Rect(w - 26, 8, 16, 14), a, b) then Some(Gray(255)) else None))
  {
    hide Latest, Fills, Outline, OnEdge, NavOps, IconOps;
    var icon := Fills(Outline(Rect(w - 26, 8, 16, 14), C_HILIGHT));
    var nav, icons := NavOps(w, h - NAV_H), IconOps(w, h - NAV_H, 5);
    LatestOfTwo(f, icon + nav, icons, a, b);
    LatestOfTwo(f, icon, nav, a, b);
    OutlineCell(f, Rect(w - 26, 8, 16, 14), C_HILIGHT, a, b);
  }

  lemma LaterOpaque(w: int, h: int)
    ensures Opaque(LaterOps(w, h)) && Opaque(AppOps(w))
  {
    var icon := Fills(Outline(Rect(w - 26, 8, 16, 14), C_HILIGHT));
    var nav, icons := NavOps(w, h - NAV_H), IconOps(w, h - NAV_H, 5);
    IconsOpaque(w, h - NAV_H, 5);
    assert Opaque(icon) && Opaque(nav);
    hide Opaque, Outline, Fills, IconOps;
    OpaqueTwo(icon, nav);
    OpaqueTwo(icon + nav, icons);
  }

  /** What is on top: what came after the title, then the title, then the fills. */
  lemma ColorOnTop(f: Face, w: int, h: int, a: int, b: int)
    requires 0 <= a < w && 0 <= b < h
    ensures ChromeColor(f, w, h, a, b) ==
      Atop(Latest(f, LaterOps(w, h), a, b),
           if TitleInks(f, a, b) then Some(Gray(255)) else if b == 30 then Some(Gray(64))
           else if b < 30 then Some(Pixel(255, 0, 60, 128)) else None)
  {
    hide Latest, LaterOps, NavOps, IconOps, OnEdge, OnNavIcon, TitleInks;
    LaterCell(f, w, h, a, b);
    NavCell(f, w, h, a, b);
    IconsCell(f, w, h, a, b);
  }

  /** The bars cell by cell, on whatever was drawn before. */
  lemma ChromeCells(c: Canvas, px: seq<Pixel>, k: nat)
    requires c.Valid() && k < |px| && OnCanvas(c, k)
    ensures
      var p := ChromeColor(c.f, c.w, c.h, Column(c.stride, k), Row(c.stride, k));
      Chromed(c, px)[k] == if p.Some? then p.value else px[k]
  {
    var (a, b) := (Column(c.stride, k), Row(c.stride, k));
    assert 0 <= a < c.w && 0 <= b < c.h;
    hide Latest, LaterOps, Painted, Column, Row, TitleInks, Titled, Opaque, ChromeColor;
    LaterOpaque(c.w, c.h);
    TitledCell(c, px, k);
    PaintedCell(c, Titled(c, px), LaterOps(c.w, c.h), k);
    ColorOnTop(c.f, c.w, c.h, a, b);
  }

  /** The title's glyphs are Latin, so its doubled height stays within the app bar. */
  lemma TitleRows(f: Face, a: int, b: int)
    requires TitleInks(f, a, b)
    ensures 8 <= b < 22
  {
    hide Glyphs, L.Place;
    TitleText();
    var gs := Glyphs(f.cs, TITLE);
    AsciiIsLatin(f.cs, TITLE);
    var i :| 0 <= i < |gs| && L.GlyphInks(f, gs, i, 2, 10, 8, a, b);
    L.PlacesGrow(gs, i, i + 1);
  }

  // ---- Drawing it --------------------------------------------------------

  /** draw_chrome */
  method DrawChrome(f: Face, fb: Surface)
    requires fb.Valid()
    modifies fb.pixels
    ensures fb.pixels[..] == Chromed(Canvas(f, fb.w, fb.h, fb.stride), old(fb.pixels[..]))
  {
    hide Painted, DrawText, Glyphs, Strokes, Outline, Fills;
    ghost var was := fb.pixels[..];
    var w, h := fb.w, fb.h;
    ghost var c := Canvas(f, w, h, fb.stride);
    Begins(f, fb);
    Put(f, fb, Rect(0, 0, w, BAR_H), C_IG_BLUE, was, []);
    Put(f, fb, Rect(0, BAR_H, w, 1), C_DARK, was, [] + [FillOp(Stroke(Rect(0, 0, w, BAR_H), C_IG_BLUE))]);
    assert [] + [FillOp(Stroke(Rect(0, 0, w, BAR_H), C_IG_BLUE))] + [FillOp(Stroke(Rect(0, BAR_H, w, 1), C_DARK))]
      == AppOps(w);
    var end := FontDrawScaled(f, fb, 10, 8, TITLE, C_HILIGHT, 2);

    ghost var titled, icon := fb.pixels[..], Outline(Rect(w - 26, 8, 16, 14), C_HILIGHT);
    Begins(f, fb);
    MoreFills(c, titled, [], icon);
    Frame(fb, Rect(w - 26, 8, 16, 14), C_HILIGHT);
    var top := h - NAV_H;
    ghost var done := [] + Fills(icon);
    Put(f, fb, Rect(0, top, w, NAV_H), C_FACE, titled, done);
    done := done + [FillOp(Stroke(Rect(0, top, w, NAV_H), C_FACE))];
    Put(f, fb, Rect(0, top, w, 1), C_HILIGHT, titled, done);
    done := done + [FillOp(Stroke(Rect(0, top, w, 1), C_HILIGHT))];
    Put(f, fb, Rect(0, top + 1, w, 1), C_SHADOW, titled, done);
    done := done + [FillOp(Stroke(Rect(0, top + 1, w, 1), C_SHADOW))];
    assert IconOps(w, top, 0) == [] && done == Fills(icon) + NavOps(w, top) + IconOps(w, top, 0);
    for i := 0 to 5
      invariant done == Fills(icon) + NavOps(w, top) + IconOps(w, top, i)
      invariant At(f, fb, titled, done)
    {
      var r := Rect(w / 5 * i + w / 5 / 2 - 8, top + 8, 16, 14);
      var color := if i == 0 then C_IG_BLUE else C_INK;
      MoreFills(c, titled, done, Outline(r, color));
      Frame(fb, r, color);
      done := done + Fills(Outline(r, color));
    }
  }
}
