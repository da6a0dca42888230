/** The pixel engine of core/raster.c: surfaces over strided pixel arrays. */
module Raster {
  import opened CTypes

  /** One 32-bit pixel 0xAARRGGBB, as its four channel bytes. */
  datatype Pixel = Pixel(a: byte, r: byte, g: byte, b: byte)

  const CLEAR := Pixel(0, 0, 0, 0)
  const MAX_PIXELS := 0x1000_0000 // 1 << 28

  /** The array index of cell (x, y). */
  function Cell(stride: int, x: int, y: int): (k: int)
  {
    y * stride + x
  }

  lemma CellInRange(stride: int, w: int, h: int, x: int, y: int)
    requires 0 <= x < w <= stride && 0 <= y < h
    ensures 0 <= Cell(stride, x, y) < (h - 1) * stride + w
  {
    assert y * stride <= (h - 1) * stride;
  }

  class Surface {
    var pixels: array?<Pixel>
    var w: int
    var h: int
    var stride: int
    var owns: bool

    /** The pixel buffer covers every logical cell. */
    ghost predicate Valid()
      reads this
    {
      && w > 0 && h > 0 && stride >= w
      && pixels != null && pixels.Length >= (h - 1) * stride + w
    }

    function At(x: int, y: int): (p: Pixel)
      requires Valid() && 0 <= x < w && 0 <= y < h
      reads this, pixels
    {
      CellInRange(stride, w, h, x, y);
      pixels[Cell(stride, x, y)]
    }

    /** The logical image, row by row, without the padding cells. */
    ghost function Image(): (img: seq<Pixel>)
      requires Valid()
      reads this, pixels
      ensures |img| == w * h
    {
      seq(w * h, i requires Valid() && 0 <= i < w * h reads this, pixels =>
        RowMajor(w, h, i);
        At(i % w, i / w))
    }

    /** surface_alloc; `memory` says whether calloc finds the memory. */
    method Alloc(width: int, height: int, memory: bool) returns (rc: int)
      modifies this
      ensures rc == if width > 0 && height > 0 && width * height <= MAX_PIXELS && memory then 0 else -1
      ensures rc == 0 ==> Valid() && w == width && h == height && stride == width && owns && fresh(pixels)
      ensures rc == 0 ==> pixels.Length == width * height && pixels[..] == Repeat(CLEAR, width * height)
      ensures rc != 0 ==> unchanged(this)
    {
      if width <= 0 || height <= 0 {
        return -1;
      }
      if width * height > MAX_PIXELS {
        return -1;
      }
      if !memory {
        return -1;
      }
      pixels := new Pixel[width * height](_ => CLEAR);
      w := width;
      h := height;
      stride := width;
      owns := true;
      assert (height - 1) * width + width == width * height;
      rc := 0;
    }
  }

  /** A surface without pixels. */
  method NoSurface() returns (s: Surface)
    ensures fresh(s) && s.pixels == null && s.w == s.h == s.stride == 0
  {
    s := new Surface;
    s.pixels, s.w, s.h, s.stride, s.owns := null, 0, 0, 0, false;
  }

  // ---- Rectangles over a strided buffer ----------------------------------

  datatype Rect = Rect(x: int, y: int, w: int, h: int)

  predicate Inside(r: Rect, x: int, y: int) {
    r.x <= x < r.x + r.w && r.y <= y < r.y + r.h
  }

  /** The column and row of an array index; columns from the width on are padding. */
  function Column(stride: int, k: int): (x: int)
    requires stride > 0
  {
    k % stride
  }

  function Row(stride: int, k: int): (y: int)
    requires stride > 0
  {
    k / stride
  }

  /** An index is a cell's exactly when its column and row are. */
  lemma CellAt(stride: int, x: int, y: int, k: int)
    requires 0 <= x < stride
    ensures k == Cell(stride, x, y) <==> Column(stride, k) == x && Row(stride, k) == y
  {
    if k == y * stride + x {
      DivUnique(k, stride, y, x);
    }
  }

  /** clip_rect: the part of `r` on a w by h surface, if any. */
  method ClipRect(w: int, h: int, r: Rect) returns (ok: bool, c: Rect)
    requires w >= 0 && h >= 0
    ensures ok ==> 0 <= c.x && c.x + c.w <= w && c.w > 0 && 0 <= c.y && c.y + c.h <= h && c.h > 0
    ensures forall x, y :: 0 <= x < w && 0 <= y < h ==> (Inside(r, x, y) <==> ok && Inside(c, x, y))
  {
    var x0, y0, x1, y1 := r.x, r.y, r.x + r.w, r.y + r.h;
    if x0 < 0 {
      x0 := 0;
    }
    if y0 < 0 {
      y0 := 0;
    }
    if x1 > w {
      x1 := w;
    }
    if y1 > h {
      y1 := h;
    }
    if x1 <= x0 || y1 <= y0 {
      return false, r;
    }
    return true, Rect(x0, y0, x1 - x0, y1 - y0);
  }

  // ---- Blending ----------------------------------------------------------

  function Mix(s: byte, d: byte, sa: byte): (m: byte)
  {
    MixBound(s, d, sa);
    (s * sa + d * (255 - sa) + 127) / 255
  }

  lemma MixBound(s: byte, d: byte, sa: byte)
    ensures 0 <= s * sa + d * (255 - sa) <= 255 * 255
  {
    MulMono(s, 255, sa);
    MulMono(0, s, sa);
    MulMono(d, 255, 255 - sa);
    MulMono(0, d, 255 - sa);
  }

  /** blend_over: a straight-alpha source pixel over a destination pixel. */
  function BlendOver(dst: Pixel, src: Pixel): (p: Pixel)
  {
    if src.a == 0 then dst
    else if src.a == 255 then src
    else
      var a := src.a + Mix(0, dst.a, src.a);
      Pixel(if a > 255 then 255 else a, Mix(src.r, dst.r, src.a), Mix(src.g, dst.g, src.a), Mix(src.b, dst.b, src.a))
  }

  /** `c` is the integer nearest to the exact mix of `s` and `d` in the proportion sa : 255 - sa. */
  predicate NearestMix(c: int, s: byte, d: byte, sa: byte) {
    -255 < 2 * (255 * c - (s * sa + d * (255 - sa))) < 255
  }

  /** Every blended channel is the nearest integer to the exact src-over mix. */
  lemma BlendNearest(dst: Pixel, src: Pixel)
    ensures
      var p := BlendOver(dst, src);
      && NearestMix(p.r, src.r, dst.r, src.a) && NearestMix(p.g, src.g, dst.g, src.a)
      && NearestMix(p.b, src.b, dst.b, src.a)
      && NearestMix(p.a - src.a, 0, dst.a, src.a)
    ensures dst.a == 255 ==> BlendOver(dst, src).a == 255
  {
    if 0 < src.a < 255 {
      MixNearest(src.r, dst.r, src.a);
      MixNearest(src.g, dst.g, src.a);
      MixNearest(src.b, dst.b, src.a);
      MixNearest(0, dst.a, src.a);
      AlphaFits(dst.a, src.a);
    }
  }

  lemma MixNearest(s: byte, d: byte, sa: byte)
    ensures NearestMix(Mix(s, d, sa), s, d, sa)
  {
    MixBound(s, d, sa);
  }

  /** The result's alpha never needs the clamp, and an opaque destination stays opaque. */
  lemma AlphaFits(da: byte, sa: byte)
    ensures sa + Mix(0, da, sa) <= 255
    ensures da == 255 ==> sa + Mix(0, da, sa) == 255
  {
    MulMono(da, 255, 255 - sa);
    MixBound(0, da, sa);
    var t: int := da * (255 - sa) + 127;
    assert t <= 255 * (255 - sa) + 127;
    assert t / 255 <= (255 * (255 - sa) + 127) / 255 == 255 - sa;
  }

  /** The buffer after blending `color` over the cells of `r` that lie on the surface. */
  function BlendCells(px: seq<Pixel>, w: int, h: int, stride: int, r: Rect, color: Pixel): (out: seq<Pixel>)
    requires stride >= w > 0
    ensures |out| == |px|
  {
    seq(|px|, k requires 0 <= k < |px| =>
      if Column(stride, k) < w && Row(stride, k) < h && Inside(r, Column(stride, k), Row(stride, k))
      then BlendOver(px[k], color) else px[k])
  }

  // ---- Scanning a rectangle row by row ------------------------------------

  /** Row-major order: the cell comes before (x, y) within a rectangle's scan. */
  predicate Before(stride: int, k: int, x: int, y: int)
    requires stride > 0
  {
    Row(stride, k) < y || (Row(stride, k) == y && Column(stride, k) < x)
  }

  /** A loop over the cells of `c` has reached (x, y): it has turned `was` into `goal` before that cell. */
  ghost predicate Scanned(px: seq<Pixel>, was: seq<Pixel>, goal: seq<Pixel>, stride: int, c: Rect, x: int, y: int) {
    && stride > 0 && |px| == |was| == |goal|
    && forall k :: 0 <= k < |px| ==>
      px[k] == if Inside(c, Column(stride, k), Row(stride, k)) && Before(stride, k, x, y) then goal[k] else was[k]
  }

  lemma ScanStart(was: seq<Pixel>, goal: seq<Pixel>, stride: int, c: Rect)
    requires stride > 0 && |was| == |goal|
    ensures Scanned(was, was, goal, stride, c, c.x, c.y)
  {
    hide Column, Row;
  }

  lemma ScanStep(px: seq<Pixel>, was: seq<Pixel>, goal: seq<Pixel>, stride: int, c: Rect, x: int, y: int)
    requires Scanned(px, was, goal, stride, c, x, y) && Inside(c, x, y)
    requires 0 <= x < stride && 0 <= Cell(stride, x, y) < |px|
    ensures
      var k := Cell(stride, x, y);
      px[k] == was[k] && Scanned(px[k := goal[k]], was, goal, stride, c, x + 1, y)
  {
    var k := Cell(stride, x, y);
    forall j | 0 <= j < |px| ensures j == k <==> Column(stride, j) == x && Row(stride, j) == y {
      CellAt(stride, x, y, j);
    }
    hide Column, Row;
  }

  lemma ScanRow(px: seq<Pixel>, was: seq<Pixel>, goal: seq<Pixel>, stride: int, c: Rect, y: int)
    requires Scanned(px, was, goal, stride, c, c.x + c.w, y)
    ensures Scanned(px, was, goal, stride, c, c.x, y + 1)
  {
    hide Column, Row;
  }

  lemma ScanEnd(px: seq<Pixel>, was: seq<Pixel>, goal: seq<Pixel>, stride: int, c: Rect)
    requires Scanned(px, was, goal, stride, c, c.x, c.y + c.h)
    requires forall k :: 0 <= k < |was| && !Inside(c, Column(stride, k), Row(stride, k)) ==> goal[k] == was[k]
    ensures px == goal
  {
    hide Column, Row;
  }

  /** Clipping to the surface does not change what a rectangle blends. */
  lemma BlendClipped(px: seq<Pixel>, w: int, h: int, stride: int, r: Rect, color: Pixel, ok: bool, c: Rect)
    requires stride >= w > 0 && h > 0
    requires ok ==> 0 <= c.x && c.x + c.w <= w && 0 <= c.y && c.y + c.h <= h
    requires forall x, y :: 0 <= x < w && 0 <= y < h ==> (Inside(r, x, y) <==> ok && Inside(c, x, y))
    ensures
      var goal := BlendCells(px, w, h, stride, r, color);
      forall k :: 0 <= k < |px| ==>
        goal[k] == if ok && Inside(c, Column(stride, k), Row(stride, k)) then BlendOver(px[k], color) else px[k]
  {
    hide BlendOver;
    forall k | 0 <= k < |px| ensures 0 <= Column(stride, k) && 0 <= Row(stride, k) {
    }
    hide Column, Row;
  }

  /** surface_blend_rect */
  method BlendRect(s: Surface, r: Rect, color: Pixel)
    requires s.Valid()
    modifies s.pixels
    ensures s.pixels[..] == BlendCells(old(s.pixels[..]), s.w, s.h, s.stride, r, color)
  {
    hide BlendOver, Column, Row, Scanned, BlendCells;
    var w, h, stride := s.w, s.h, s.stride;
    var px := s.pixels;
    ghost var was := px[..];
    ghost var goal := BlendCells(was, w, h, stride, r, color);
    var ok, c := ClipRect(w, h, r);
    BlendClipped(was, w, h, stride, r, color, ok, c);
    if !ok {
      assert was == goal;
      return;
    }
    ScanStart(was, goal, stride, c);
    for y := 0 to c.h
      invariant Scanned(px[..], was, goal, stride, c, c.x, c.y + y)
    {
      for x := 0 to c.w
        invariant Scanned(px[..], was, goal, stride, c, c.x + x, c.y + y)
      {
        CellInRange(stride, w, h, c.x + x, c.y + y);
        var k := Cell(stride, c.x + x, c.y + y);
        ScanStep(px[..], was, goal, stride, c, c.x + x, c.y + y);
        CellAt(stride, c.x + x, c.y + y, k);
        ghost var before := px[..];
        px[k] := BlendOver(px[k], color);
        assert px[..] == before[k := goal[k]];
      }
      ScanRow(px[..], was, goal, stride, c, c.y + y);
    }
    ScanEnd(px[..], was, goal, stride, c);
  }

  /** The buffer after setting the cells of `r` that lie on the surface. */
  function FillCells(px: seq<Pixel>, w: int, h: int, stride: int, r: Rect, color: Pixel): (out: seq<Pixel>)
    requires stride >= w > 0
    ensures |out| == |px|
  {
    seq(|px|, k requires 0 <= k < |px| =>
      if Column(stride, k) < w && Row(stride, k) < h && Inside(r, Column(stride, k), Row(stride, k))
      then color else px[k])
  }

  lemma FillClipped(px: seq<Pixel>, w: int, h: int, stride: int, r: Rect, color: Pixel, ok: bool, c: Rect)
    requires stride >= w > 0 && h > 0
    requires ok ==> 0 <= c.x && c.x + c.w <= w && 0 <= c.y && c.y + c.h <= h
    requires forall x, y :: 0 <= x < w && 0 <= y < h ==> (Inside(r, x, y) <==> ok && Inside(c, x, y))
    ensures
      var goal := FillCells(px, w, h, stride, r, color);
      forall k :: 0 <= k < |px| ==>
        goal[k] == if ok && Inside(c, Column(stride, k), Row(stride, k)) then color else px[k]
  {
    forall k | 0 <= k < |px| ensures 0 <= Column(stride, k) && 0 <= Row(stride, k) {
    }
    hide Column, Row;
  }

  /** A fill and a blend cell by cell: the cells of the rectangle that are on the surface, and no others. */
  lemma RectCells(px: seq<Pixel>, w: int, h: int, stride: int, r: Rect, color: Pixel, x: int, y: int)
    requires stride >= w > 0 && 0 <= x < stride && 0 <= y && y * stride + x < |px|
    ensures 0 <= y * stride + x
    ensures
      var (k, inside) := (y * stride + x, x < w && y < h && r.x <= x < r.x + r.w && r.y <= y < r.y + r.h);
      && FillCells(px, w, h, stride, r, color)[k] == (if inside then color else px[k])
      && BlendCells(px, w, h, stride, r, color)[k] == (if inside then BlendOver(px[k], color) else px[k])
  {
    var k := y * stride + x;
    MulMono(0, y, stride);
    CellAt(stride, x, y, k);
    hide Column, Row, BlendOver;
  }

  /** surface_fill_rect */
  method FillRect(s: Surface, r: Rect, color: Pixel)
    requires s.Valid()
    modifies s.pixels
    ensures s.pixels[..] == FillCells(old(s.pixels[..]), s.w, s.h, s.stride, r, color)
  {
    hide Column, Row, Scanned, FillCells;
    var w, h, stride := s.w, s.h, s.stride;
    var px := s.pixels;
    ghost var was := px[..];
    ghost var goal := FillCells(was, w, h, stride, r, color);
    var ok, c := ClipRect(w, h, r);
    FillClipped(was, w, h, stride, r, color, ok, c);
    if !ok {
      assert was == goal;
      return;
    }
    ScanStart(was, goal, stride, c);
    for y := 0 to c.h
      invariant Scanned(px[..], was, goal, stride, c, c.x, c.y + y)
    {
      for x := 0 to c.w
        invariant Scanned(px[..], was, goal, stride, c, c.x + x, c.y + y)
      {
        CellInRange(stride, w, h, c.x + x, c.y + y);
        var k := Cell(stride, c.x + x, c.y + y);
        ScanStep(px[..], was, goal, stride, c, c.x + x, c.y + y);
        CellAt(stride, c.x + x, c.y + y, k);
        ghost var before := px[..];
        px[k] := color;
        assert px[..] == before[k := goal[k]];
      }
      ScanRow(px[..], was, goal, stride, c, c.y + y);
    }
    ScanEnd(px[..], was, goal, stride, c);
  }

  /** surface_fill: the whole surface is one rectangle. */
  method Fill(s: Surface, color: Pixel)
    requires s.Valid()
    modifies s.pixels
    ensures s.pixels[..] == FillCells(old(s.pixels[..]), s.w, s.h, s.stride, Rect(0, 0, s.w, s.h), color)
  {
    FillRect(s, Rect(0, 0, s.w, s.h), color);
  }

  /** One filled rectangle of a drawing made of several. */
  datatype Stroke = Stroke(r: Rect, color: Pixel)

  /** The buffer after filling rectangles one after the other. */
  function Strokes(px: seq<Pixel>, w: int, h: int, stride: int, ss: seq<Stroke>): (out: seq<Pixel>)
    requires stride >= w > 0
    ensures |out| == |px|
    decreases |ss|
  {
    if ss == [] then px else Strokes(FillCells(px, w, h, stride, ss[0].r, ss[0].color), w, h, stride, ss[1..])
  }

  lemma FourStrokes(px: seq<Pixel>, w: int, h: int, stride: int, a: Stroke, b: Stroke, c: Stroke, d: Stroke)
    requires stride >= w > 0
    ensures
      var m := FillCells(FillCells(px, w, h, stride, a.r, a.color), w, h, stride, b.r, b.color);
      Strokes(px, w, h, stride, [a, b, c, d]) ==
      FillCells(FillCells(m, w, h, stride, c.r, c.color), w, h, stride, d.r, d.color)
  {
    hide FillCells;
    var m := FillCells(FillCells(px, w, h, stride, a.r, a.color), w, h, stride, b.r, b.color);
    TwoStrokes(px, w, h, stride, a, b, [c, d]);
    TwoStrokes(m, w, h, stride, c, d, []);
    assert [a, b] + [c, d] == [a, b, c, d] && [c, d] + [] == [c, d];
  }

  lemma TwoStrokes(px: seq<Pixel>, w: int, h: int, stride: int, a: Stroke, b: Stroke, rest: seq<Stroke>)
    requires stride >= w > 0
    ensures Strokes(px, w, h, stride, [a, b] + rest) ==
      Strokes(FillCells(FillCells(px, w, h, stride, a.r, a.color), w, h, stride, b.r, b.color), w, h, stride, rest)
  {
    hide FillCells;
    assert ([a, b] + rest)[1..] == [b] + rest;
    assert ([b] + rest)[1..] == rest;
  }

  /** The sides of a rectangle in the order the code draws them: top, left, bottom, right. */
  function Sides(r: Rect, light: Pixel, dark: Pixel): (ss: seq<Stroke>) {
    if r.w <= 0 || r.h <= 0 then []
    else [Stroke(Rect(r.x, r.y, r.w, 1), light), Stroke(Rect(r.x, r.y, 1, r.h), light),
          Stroke(Rect(r.x, r.y + r.h - 1, r.w, 1), dark), Stroke(Rect(r.x + r.w - 1, r.y, 1, r.h), dark)]
  }

  /** The sides in a frame's order: top, bottom, left, right. */
  function Outline(r: Rect, color: Pixel): (ss: seq<Stroke>) {
    if r.w <= 0 || r.h <= 0 then []
    else [Stroke(Rect(r.x, r.y, r.w, 1), color), Stroke(Rect(r.x, r.y + r.h - 1, r.w, 1), color),
          Stroke(Rect(r.x, r.y, 1, r.h), color), Stroke(Rect(r.x + r.w - 1, r.y, 1, r.h), color)]
  }

  /** surface_frame */
  method Frame(s: Surface, r: Rect, color: Pixel)
    requires s.Valid()
    modifies s.pixels
    ensures s.pixels[..] == Strokes(old(s.pixels[..]), s.w, s.h, s.stride, Outline(r, color))
  {
    hide FillCells;
    if r.w <= 0 || r.h <= 0 {
      return;
    }
    ghost var o := Outline(r, color);
    FourStrokes(s.pixels[..], s.w, s.h, s.stride, o[0], o[1], o[2], o[3]);
    FillRect(s, Rect(r.x, r.y, r.w, 1), color);
    FillRect(s, Rect(r.x, r.y + r.h - 1, r.w, 1), color);
    FillRect(s, Rect(r.x, r.y, 1, r.h), color);
    FillRect(s, Rect(r.x + r.w - 1, r.y, 1, r.h), color);
  }

  /** surface_bevel */
  method Bevel(s: Surface, r: Rect, light: Pixel, dark: Pixel)
    requires s.Valid()
    modifies s.pixels
    ensures s.pixels[..] == Strokes(old(s.pixels[..]), s.w, s.h, s.stride, Sides(r, light, dark))
  {
    hide FillCells;
    if r.w <= 0 || r.h <= 0 {
      return;
    }
    ghost var o := Sides(r, light, dark);
    FourStrokes(s.pixels[..], s.w, s.h, s.stride, o[0], o[1], o[2], o[3]);
    FillRect(s, Rect(r.x, r.y, r.w, 1), light);
    FillRect(s, Rect(r.x, r.y, 1, r.h), light);
    FillRect(s, Rect(r.x, r.y + r.h - 1, r.w, 1), dark);
    FillRect(s, Rect(r.x + r.w - 1, r.y, 1, r.h), dark);
  }

  lemma RowMajor(w: int, h: int, i: int)
    requires w > 0 && 0 <= i < w * h
    ensures 0 <= i % w < w && 0 <= i / w < h
    ensures i == (i / w) * w + i % w
  {
    var q := i / w;
    assert q * w <= i;
    assert q >= h ==> q * w >= h * w;
  }

  // ---- Blits -------------------------------------------------------------

  /** The source cell a destination cell takes its pixel from when `sr` is drawn with its corner at (dx, dy). */
  function SourceOf(sr: Rect, dx: int, dy: int, x: int, y: int): (p: (int, int)) {
    (sr.x + (x - dx), sr.y + (y - dy))
  }

  predicate Lands(sr: Rect, dx: int, dy: int, x: int, y: int) {
    var (sx, sy) := SourceOf(sr, dx, dy, x, y);
    Inside(sr, sx, sy)
  }

  /** Whether a cell of the destination is covered: its source cell lies in `sr` and on the source surface. */
  predicate Covered(sr: Rect, dx: int, dy: int, sw: int, sh: int, x: int, y: int) {
    var (sx, sy) := SourceOf(sr, dx, dy, x, y);
    Lands(sr, dx, dy, x, y) && 0 <= sx < sw && 0 <= sy < sh
  }

  /** The pixel at a cell; cells outside the buffer read as clear. */
  function Sample(px: seq<Pixel>, stride: int, x: int, y: int): (p: Pixel) {
    var k := Cell(stride, x, y);
    if 0 <= k < |px| then px[k] else CLEAR
  }

  datatype Mode = Copy | Over

  function Draw(mode: Mode, dst: Pixel, src: Pixel): (p: Pixel) {
    if mode.Copy? then src else BlendOver(dst, src)
  }

  /** The destination buffer after drawing `sr` of the source at (dx, dy): covered cells change, all else stays. */
  function BlitCells(mode: Mode, dpx: seq<Pixel>, dw: int, dh: int, dstride: int,
                     spx: seq<Pixel>, sw: int, sh: int, sstride: int, dx: int, dy: int, sr: Rect): (out: seq<Pixel>)
    requires dstride >= dw > 0
    ensures |out| == |dpx|
  {
    seq(|dpx|, k requires 0 <= k < |dpx| =>
      var (x, y) := (Column(dstride, k), Row(dstride, k));
      var (sx, sy) := SourceOf(sr, dx, dy, x, y);
      if x < dw && y < dh && Covered(sr, dx, dy, sw, sh, x, y)
      then Draw(mode, dpx[k], Sample(spx, sstride, sx, sy)) else dpx[k])
  }

  /** The source half of the clipping in surface_blit. */
  method ClipToSource(sw: int, sh: int, sr: Rect, dx: int, dy: int) returns (r: Rect, ex: int, ey: int)
    requires sw >= 0 && sh >= 0
    ensures r.x - ex == sr.x - dx && r.y - ey == sr.y - dy
    ensures r.w > 0 && r.h > 0 ==> 0 <= r.x && r.x + r.w <= sw && 0 <= r.y && r.y + r.h <= sh
    ensures forall x, y :: Inside(r, x, y) <==> Inside(sr, x, y) && 0 <= x < sw && 0 <= y < sh
  {
    r, ex, ey := sr, dx, dy;
    if r.x < 0 {
      ex := ex - r.x;
      r := r.(w := r.w + r.x, x := 0);
    }
    if r.y < 0 {
      ey := ey - r.y;
      r := r.(h := r.h + r.y, y := 0);
    }
    if r.x + r.w > sw {
      r := r.(w := sw - r.x);
    }
    if r.y + r.h > sh {
      r := r.(h := sh - r.y);
    }
  }

  /** The destination half of the clipping, shared by both blits: `c` is where the source rectangle `r` lands. */
  method ClipToDest(dw: int, dh: int, r: Rect, dx: int, dy: int) returns (ok: bool, c: Rect, sx: int, sy: int)
    requires dw >= 0 && dh >= 0
    ensures ok ==> sx - c.x == r.x - dx && sy - c.y == r.y - dy && c.w > 0 && c.h > 0
    ensures ok ==> 0 <= c.x && c.x + c.w <= dw && 0 <= c.y && c.y + c.h <= dh
    ensures ok ==> r.x <= sx && sx + c.w <= r.x + r.w && r.y <= sy && sy + c.h <= r.y + r.h
    ensures forall x, y :: 0 <= x < dw && 0 <= y < dh ==>
      (ok && Inside(c, x, y) <==> Lands(r, dx, dy, x, y))
  {
    var ex, ey, w, h := dx, dy, r.w, r.h;
    sx, sy := r.x, r.y;
    if ex < 0 {
      sx, w, ex := sx - ex, w + ex, 0;
    }
    if ey < 0 {
      sy, h, ey := sy - ey, h + ey, 0;
    }
    if ex + w > dw {
      w := dw - ex;
    }
    if ey + h > dh {
      h := dh - ey;
    }
    ok, c := w > 0 && h > 0, Rect(ex, ey, w, h);
    forall x, y | 0 <= x < dw && 0 <= y < dh
      ensures ok && Inside(c, x, y) <==> Lands(r, dx, dy, x, y)
    {
    }
  }

  /** The row loops of both blits, over the clipped rectangles. */
  method DrawRows(mode: Mode, dst: Surface, c: Rect, src: Surface, sx: int, sy: int, ghost goal: seq<Pixel>)
    requires dst.Valid() && src.Valid() && dst.pixels != src.pixels
    requires 0 <= c.x && c.x + c.w <= dst.w && 0 <= c.y && c.y + c.h <= dst.h && c.w > 0 && c.h > 0
    requires 0 <= sx && sx + c.w <= src.w && 0 <= sy && sy + c.h <= src.h
    requires |goal| == dst.pixels.Length
    requires forall k :: 0 <= k < |goal| ==>
      var (x, y) := (Column(dst.stride, k), Row(dst.stride, k));
      goal[k] == if Inside(c, x, y)
        then Draw(mode, dst.pixels[k], Sample(src.pixels[..], src.stride, sx + (x - c.x), sy + (y - c.y)))
        else dst.pixels[k]
    modifies dst.pixels
    ensures dst.pixels[..] == goal
  {
    hide Draw, Column, Row, Scanned, Sample;
    var stride, px, spx := dst.stride, dst.pixels, src.pixels;
    ghost var was, from := px[..], spx[..];
    ScanStart(was, goal, stride, c);
    for y := 0 to c.h
      invariant Scanned(px[..], was, goal, stride, c, c.x, c.y + y) && spx[..] == from
    {
      for x := 0 to c.w
        invariant Scanned(px[..], was, goal, stride, c, c.x + x, c.y + y) && spx[..] == from
      {
        CellInRange(stride, dst.w, dst.h, c.x + x, c.y + y);
        CellInRange(src.stride, src.w, src.h, sx + x, sy + y);
        var k, j := Cell(stride, c.x + x, c.y + y), Cell(src.stride, sx + x, sy + y);
        ScanStep(px[..], was, goal, stride, c, c.x + x, c.y + y);
        CellAt(stride, c.x + x, c.y + y, k);
        SampleIs(from, src.stride, sx + x, sy + y);
        ghost var before := px[..];
        px[k] := Draw(mode, px[k], spx[j]);
        assert px[..] == before[k := goal[k]];
      }
      ScanRow(px[..], was, goal, stride, c, c.y + y);
    }
    ScanEnd(px[..], was, goal, stride, c);
  }

  lemma SampleIs(px: seq<Pixel>, stride: int, x: int, y: int)
    requires 0 <= Cell(stride, x, y) < |px|
    ensures Sample(px, stride, x, y) == px[Cell(stride, x, y)]
  {
  }

  /** Clipping against both surfaces does not change which cells are covered, or from where. */
  lemma NotNegative(stride: int, k: nat)
    requires stride > 0
    ensures 0 <= Column(stride, k) && 0 <= Row(stride, k)
  {
  }

  lemma BlitClipped(mode: Mode, dpx: seq<Pixel>, dw: int, dh: int, dstride: int, spx: seq<Pixel>, sw: int, sh: int,
                    sstride: int,
                    dx: int, dy: int, sr: Rect, ok: bool, c: Rect, sx: int, sy: int)
    requires dstride >= dw > 0 && dh > 0
    requires ok ==> sx - c.x == sr.x - dx && sy - c.y == sr.y - dy && c.x + c.w <= dw && c.y + c.h <= dh
    requires forall x, y :: 0 <= x < dw && 0 <= y < dh ==>
      (ok && Inside(c, x, y) <==> Covered(sr, dx, dy, sw, sh, x, y))
    ensures
      var goal := BlitCells(mode, dpx, dw, dh, dstride, spx, sw, sh, sstride, dx, dy, sr);
      forall k :: 0 <= k < |dpx| ==>
        var (x, y) := (Column(dstride, k), Row(dstride, k));
        goal[k] == if ok && Inside(c, x, y)
          then Draw(mode, dpx[k], Sample(spx, sstride, sx + (x - c.x), sy + (y - c.y))) else dpx[k]
  {
    hide Draw, Column, Row, Covered, Sample;
    forall k | 0 <= k < |dpx| ensures 0 <= Column(dstride, k) && 0 <= Row(dstride, k) {
      NotNegative(dstride, k);
    }
  }

  /** surface_blit; without a source rectangle it draws the whole source. The buffers must not overlap. */
  method Blit(dst: Surface, dx: int, dy: int, src: Surface, srcRect: Option<Rect>)
    requires dst.Valid() && src.Valid() && dst.pixels != src.pixels
    modifies dst.pixels
    ensures
      var sr := if srcRect.Some? then srcRect.value else Rect(0, 0, src.w, src.h);
      dst.pixels[..] == BlitCells(Copy, old(dst.pixels[..]), dst.w, dst.h, dst.stride,
                                  src.pixels[..], src.w, src.h, src.stride, dx, dy, sr)
  {
    hide Draw, Column, Row, BlitCells, Sample;
    var sr := if srcRect.Some? then srcRect.value else Rect(0, 0, src.w, src.h);
    ghost var was, from := dst.pixels[..], src.pixels[..];
    ghost var goal := BlitCells(Copy, was, dst.w, dst.h, dst.stride, from, src.w, src.h, src.stride, dx, dy, sr);
    var r, ex, ey := ClipToSource(src.w, src.h, sr, dx, dy);
    var ok, c, sx, sy := ClipToDest(dst.w, dst.h, r, ex, ey);
    forall x, y | 0 <= x < dst.w && 0 <= y < dst.h
      ensures ok && Inside(c, x, y) <==> Covered(sr, dx, dy, src.w, src.h, x, y)
    {
      assert Lands(r, ex, ey, x, y) <==> ok && Inside(c, x, y);
      assert SourceOf(r, ex, ey, x, y) == SourceOf(sr, dx, dy, x, y);
    }
    BlitClipped(Copy, was, dst.w, dst.h, dst.stride, from, src.w, src.h, src.stride, dx, dy, sr, ok, c, sx, sy);
    if !ok {
      assert was == goal;
      return;
    }
    DrawRows(Copy, dst, c, src, sx, sy, goal);
    assert src.pixels[..] == from;
  }

  /** surface_blit_alpha: all of the source, blended over the destination. */
  method BlitAlpha(dst: Surface, dx: int, dy: int, src: Surface)
    requires dst.Valid() && src.Valid() && dst.pixels != src.pixels
    modifies dst.pixels
    ensures dst.pixels[..] == BlitCells(Over, old(dst.pixels[..]), dst.w, dst.h, dst.stride,
                                        src.pixels[..], src.w, src.h, src.stride, dx, dy, Rect(0, 0, src.w, src.h))
  {
    hide Draw, Column, Row, BlitCells, Sample;
    var sr := Rect(0, 0, src.w, src.h);
    ghost var was, from := dst.pixels[..], src.pixels[..];
    ghost var goal := BlitCells(Over, was, dst.w, dst.h, dst.stride, from, src.w, src.h, src.stride, dx, dy, sr);
    var ok, c, sx, sy := ClipToDest(dst.w, dst.h, sr, dx, dy);
    forall x, y | 0 <= x < dst.w && 0 <= y < dst.h
      ensures ok && Inside(c, x, y) <==> Covered(sr, dx, dy, src.w, src.h, x, y)
    {
      assert Lands(sr, dx, dy, x, y) <==> ok && Inside(c, x, y);
    }
    BlitClipped(Over, was, dst.w, dst.h, dst.stride, from, src.w, src.h, src.stride, dx, dy, sr, ok, c, sx, sy);
    if !ok {
      assert was == goal;
      return;
    }
    DrawRows(Over, dst, c, src, sx, sy, goal);
    assert src.pixels[..] == from;
  }

  /** What a blit means cell by cell: covered cells take their source pixel, every other cell and all padding stay. */
  lemma BlitPointwise(mode: Mode, dpx: seq<Pixel>, dw: int, dh: int, dstride: int, spx: seq<Pixel>, sw: int, sh: int,
                      sstride: int,
                      dx: int, dy: int, sr: Rect, x: int, y: int)
    requires dstride >= dw > 0 && sstride >= sw && 0 <= x < dstride && 0 <= y
    requires y * dstride + x < |dpx| && |spx| >= (sh - 1) * sstride + sw
    ensures 0 <= y * dstride + x
    ensures
      var out := BlitCells(mode, dpx, dw, dh, dstride, spx, sw, sh, sstride, dx, dy, sr);
      var (k, sx, sy) := (y * dstride + x, sr.x + x - dx, sr.y + y - dy);
      if x < dw && y < dh && dx <= x < dx + sr.w && dy <= y < dy + sr.h && 0 <= sx < sw && 0 <= sy < sh
      then
        && 0 <= sy * sstride + sx < |spx|
        && out[k] == if mode.Copy? then spx[sy * sstride + sx] else BlendOver(dpx[k], spx[sy * sstride + sx])
      else out[k] == dpx[k]
  {
    var k := Cell(dstride, x, y);
    MulMono(0, y, dstride);
    CellAt(dstride, x, y, k);
    hide Draw, Column, Row;
    var (sx, sy) := SourceOf(sr, dx, dy, x, y);
    if Covered(sr, dx, dy, sw, sh, x, y) {
      CellInRange(sstride, sw, sh, sx, sy);
    }
  }
}
