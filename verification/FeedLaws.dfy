/** Painted captions stay in their column, uncut, each line on its own pixel rows. */
module FeedLaws {
  import opened CTypes
  import opened Raster
  import opened Font
  import opened Caption
  import opened Draw
  import opened Feed

  /** The font knows the three syllables of MORE_LABEL. */
  predicate KnowsMore(cs: Charset) {
    0xB354 in cs && 0xBCF4 in cs && 0xAE30 in cs
  }

  lemma MoreGlyphs(cs: Charset)
    requires KnowsMore(cs)
    ensures Glyphs(cs, MORE_LABEL) ==
      [Glyph(1, Latin(0x20)), Glyph(3, Hangul(0xB354)), Glyph(3, Hangul(0xBCF4)), Glyph(3, Hangul(0xAE30))]
  {
    hide Glyphs;
    var a, b, c: seq<byte> := [0xEB, 0x8D, 0x94], [0xEB, 0xB3, 0xB4], [0xEA, 0xB8, 0xB0];
    assert MORE_LABEL == [0x20] + (a + (b + c));
    SpaceStep(cs, a + (b + c));
    SyllableStep(cs, 0xEB, 0x8D, 0x94, b + c);
    SyllableStep(cs, 0xEB, 0xB3, 0xB4, c);
    assert c + [] == c;
    SyllableStep(cs, 0xEA, 0xB8, 0xB0, []);
    GlyphsOfNothing(cs);
  }

  lemma SpaceStep(cs: Charset, rest: seq<byte>)
    ensures Glyphs(cs, [0x20] + rest) == [Glyph(1, Latin(0x20))] + Glyphs(cs, rest)
  {
    assert ([0x20] + rest)[1..] == rest;
  }

  /** A three-byte sequence in the Hangul set is one wide glyph. */
  lemma SyllableStep(cs: Charset, x: byte, y: byte, z: byte, rest: seq<byte>)
    requires 0xE0 <= x < 0xF0 && 0x80 <= y <= 0xBF && 0x80 <= z <= 0xBF
    requires x as int % 16 * 4096 + y as int % 64 * 64 + z as int % 64 in cs
    ensures Glyphs(cs, [x, y, z] + rest) ==
      [Glyph(3, Hangul(x as int % 16 * 4096 + y as int % 64 * 64 + z as int % 64))] + Glyphs(cs, rest)
  {
    hide Glyphs;
    var s := [x, y, z] + rest;
    assert s[3..] == rest && s[0] == x && s[1] == y && s[2] == z;
    assert SeqValid(s, 3);
    GlyphsStep(cs, s);
    assert Glyphs(cs, s) == [Glyphs(cs, s)[0]] + Glyphs(cs, s)[1..];
  }

  /** MORE_LABEL is 62 pixels wide. */
  lemma MoreWidth(cs: Charset)
    requires KnowsMore(cs)
    ensures TextSpan(cs, MORE_LABEL) == 62 && NoNewline(Glyphs(cs, MORE_LABEL), 0, 4) && |Glyphs(cs, MORE_LABEL)| == 4
  {
    MoreGlyphs(cs);
    hide Glyphs, FitEnd;
    var g := Glyphs(cs, MORE_LABEL);
    assert NoNewline(g, 0, 4);
    WholeLine(g);
    assert Pos(g, 1) == 6;
    assert Pos(g, 2) == 25;
    assert Pos(g, 3) == 44;
    assert Pos(g, 4) == 63;
  }

  /** Without a limit, a line without newlines is measured whole. */
  lemma WholeLine(g: seq<Glyph>)
    requires NoNewline(g, 0, |g|)
    ensures FitEnd(g, 0, 0, -1) == |g|
  {
    FitEndReaches(g, 0, 0, |g|, -1);
  }

  lemma {:induction false} GlyphLens(cs: Charset, s: seq<byte>, a: nat, b: nat)
    requires a <= b <= |Glyphs(cs, s)|
    ensures Off(Glyphs(cs, s), b) - Off(Glyphs(cs, s), a) <= 4 * (b - a)
    decreases b - a
  {
    hide Glyphs;
    if a < b {
      GlyphLens(cs, s, a, b - 1);
      GlyphsFrom(cs, s, b - 1);
      GlyphsOfNothing(cs);
      var t := s[Off(Glyphs(cs, s), b - 1)..];
      assert t != [];
      GlyphsStep(cs, t);
      assert Glyphs(cs, s)[b - 1..][0] == Glyphs(cs, s)[b - 1];
    }
  }

  /** The width of a text's first glyph, which is taken however narrow the column. */
  function FirstWidth(g: seq<Glyph>): (w: nat) {
    if g == [] || g[0].shape.Newline? then 0 else Advance(g[0]) - 1
  }

  /** What is taken of a text goes over a limit exactly when its first glyph alone does. */
  lemma FirstGlyphDecides(g: seq<Glyph>, maxW: int)
    requires 0 <= maxW
    ensures
      var e := FitEnd(g, 0, 0, maxW);
      && NoNewline(g, 0, e) && 0 <= Width(g, 0, e) && (Width(g, 0, e) <= maxW || e <= 1)
      && (Width(g, 0, e) <= maxW <==> FirstWidth(g) <= maxW)
  {
    hide Advance;
    var e := FitEnd(g, 0, 0, maxW);
    FitEndAllowed(g, 0, 0, maxW);
    PosMonotone(g, 0, e);
    if FirstWidth(g) > 0 {
      FitEndReaches(g, 0, 0, 1, maxW);
      PosMonotone(g, 1, e);
      assert Pos(g, 1) == Pos(g, 0) + Advance(g[0]);
    }
  }

  /** What is taken of a text, if it is copied whole, reads as the glyphs taken and measures as much. */
  lemma TakenWhole(cs: Charset, t: seq<byte>, maxW: int)
    requires 0 <= maxW
    ensures
      var g := Glyphs(cs, t);
      var e := FitEnd(g, 0, 0, maxW);
      && Off(g, e) <= |t| && Glyphs(cs, t[..Off(g, e)]) == g[..e] && NoNewline(g[..e], 0, e)
      && TextSpan(cs, t[..Off(g, e)]) == Width(g[..e], 0, e) == Width(g, 0, e)
  {
    hide Glyphs;
    var g := Glyphs(cs, t);
    var e := FitEnd(g, 0, 0, maxW);
    GlyphsFrom(cs, t, e);
    GlyphsCut(cs, t, e);
    FirstGlyphDecides(g, maxW);
    PosPrefix(g, e, e);
    WholeLine(g[..e]);
  }

  /** What is taken of a text up to 766 pixels is at most 508 bytes long; cut there, it reads as the same glyphs. */
  lemma TakenUncut(cs: Charset, t: seq<byte>, maxW: int)
    requires 0 <= maxW <= 766
    ensures
      var g := Glyphs(cs, t);
      var e := FitEnd(g, 0, 0, maxW);
      && Off(g, e) <= |t| && Off(g, e) <= 508
      && Glyphs(cs, t[..Off(g, e)]) == g[..e] && NoNewline(g[..e], 0, e)
      && TextSpan(cs, t[..Off(g, e)]) == Width(g[..e], 0, e) == Width(g, 0, e)
  {
    hide Glyphs, TextSpan;
    var g := Glyphs(cs, t);
    var e := FitEnd(g, 0, 0, maxW);
    TakenWhole(cs, t, maxW);
    FirstGlyphDecides(g, maxW);
    PosMonotone(g, 0, e);
    GlyphLens(cs, t, 0, e);
  }

  /** What fits a width from 18 to 766 measures no more than the width. */
  lemma FitsUncut(cs: Charset, t: seq<byte>, maxW: int)
    requires 18 <= maxW <= 766
    ensures
      var g := Glyphs(cs, t);
      var e := FitEnd(g, 0, 0, maxW);
      && Off(g, e) <= |t| && Off(g, e) <= 508
      && Glyphs(cs, t[..Off(g, e)]) == g[..e] && NoNewline(g[..e], 0, e)
      && TextSpan(cs, t[..Off(g, e)]) == Width(g[..e], 0, e) <= maxW
  {
    hide Glyphs, FitEnd, Width, Off, TextSpan, NoNewline;
    TakenUncut(cs, t, maxW);
    FirstGlyphDecides(Glyphs(cs, t), maxW);
  }

  lemma {:induction false} PosPrefix(g: seq<Glyph>, n: nat, k: nat)
    requires k <= n <= |g|
    ensures Pos(g[..n], k) == Pos(g, k)
    decreases k
  {
    hide Advance;
    if k > 0 {
      PosPrefix(g, n, k - 1);
    }
  }

  /** A wrapped line is what fits its column from its start. */
  lemma {:induction false} LineIsFit(cs: Charset, s: seq<byte>, a: nat, maxW: int, cap: nat, i: nat)
    requires a <= |Glyphs(cs, s)| && i < |Ranges(Glyphs(cs, s), a, maxW, cap)|
    ensures
      var c := Ranges(Glyphs(cs, s), a, maxW, cap)[i];
      c.off + c.len <= |s| && c.len == FitLen(cs, s, c.off, maxW)
    decreases cap
  {
    hide Glyphs, LineEnd, NextLine, Range;
    var g := Glyphs(cs, s);
    if i == 0 {
      GlyphsFrom(cs, s, a);
      LineInBytes(cs, s, a, maxW);
      LineLength(cs, s, a, maxW);
    } else {
      LineIsFit(cs, s, NextLine(g, a, maxW), maxW, cap - 1, i - 1);
    }
  }

  /** A drawn string lies in the column from `cx`, `cw` wide. */
  predicate InColumn(cs: Charset, r: TextRun, cx: int, cw: int) {
    && cx <= r.x && r.x + TextSpan(cs, r.text) <= cx + cw
    && NoNewline(Glyphs(cs, r.text), 0, |Glyphs(cs, r.text)|)
  }

  lemma FitRunInColumn(cs: Charset, s: seq<byte>, off: nat, cx: int, y: int, room: int, color: Pixel)
    requires off <= |s| && 18 <= room <= 766
    ensures
      var len := FitLen(cs, s, off, room);
      && Copied(s, off, len) == s[off..off + len]
      && InColumn(cs, TextRun(cx, y, s[off..off + len], color), cx, room)
      && TextSpan(cs, s[off..off + len]) >= 0
  {
    hide Glyphs, FitEnd, Width, Off, NoNewline;
    FitsUncut(cs, s[off..], room);
    var len := FitLen(cs, s, off, room);
    assert s[off..][..len] == s[off..off + len];
    SpanNotNegative(cs, s[off..off + len]);
    var g := Glyphs(cs, s[off..]);
    var e := FitEnd(g, 0, 0, room);
    assert |g[..e]| == e;
  }

  lemma SpanNotNegative(cs: Charset, t: seq<byte>)
    ensures TextSpan(cs, t) >= 0
  {
    hide Glyphs, FitEnd;
    var g := Glyphs(cs, t);
    PosMonotone(g, 0, FitEnd(g, 0, 0, -1));
  }

  /**
   * In a column 80 to 766 wide, whatever a caption line paints (the truncated one with its label
   * included) is copied uncut, holds no newline, and lies in the column.
   */
  lemma CaptionLineFits(cs: Charset, s: seq<byte>, cx: int, y: int, cw: int, i: nat, last: bool)
    requires KnowsMore(cs) && 80 <= cw <= 766 && i < |Wrapped(cs, Some(s), cw)|
    ensures
      var c := Wrapped(cs, Some(s), cw)[i];
      && c.off + c.len <= |s|
      && var rs := LineRuns(cs, s, c, cx, y, cw, last);
      && |rs| == (if last then 2 else 1) && (last ==> rs[1].text == MORE_LABEL)
      && rs[0].text == s[c.off..c.off + if last then FitLen(cs, s, c.off, Budget(cs, cw)) else c.len]
      && forall k :: 0 <= k < |rs| ==> rs[k].y == y && InColumn(cs, rs[k], cx, cw)
  {
    hide Glyphs, Ranges, FitLen, TextSpan, NoNewline, Copied;
    LineIsFit(cs, s, 0, cw, HARD_CAP, i);
    var c := Wrapped(cs, Some(s), cw)[i];
    MoreWidth(cs);
    if last {
      FitRunInColumn(cs, s, c.off, cx, y, Budget(cs, cw), C_INK);
    } else {
      FitRunInColumn(cs, s, c.off, cx, y, cw, C_INK);
    }
  }

  /** A string in a column changes no pixel outside the column and its 18 rows. */
  lemma RunStaysInColumn(f: Face, w: int, h: int, stride: int, px: seq<Pixel>, r: TextRun, cx: int, cw: int)
    requires stride >= w > 0 && InColumn(f.cs, r, cx, cw)
    ensures SameOutside(px, DrawRuns(f, w, h, stride, px, [r]), stride, Rect(cx, r.y, cw, HANGUL_H))
  {
    hide Glyphs, DrawText, SameOutside;
    var pen := Pen(w, h, stride, r.color, 1);
    var g := Glyphs(f.cs, r.text);
    if g == [] {
      NothingDrawn(f, pen, px, r.x, r.y);
      SameSelf(px, stride, Rect(cx, r.y, cw, HANGUL_H));
    } else {
      DrawsWhatItMeasures(f, pen, px, r.x, r.y, g);
      WholeLine(g);
      var px' := DrawText(f, pen, px, r.x, r.x, r.y, g).0;
      SameWider(px, px', stride, TextBox(g, r.x, r.y, 1), Rect(cx, r.y, cw, HANGUL_H));
    }
  }

  lemma NothingDrawn(f: Face, pen: Pen, px: seq<Pixel>, x: int, y: int)
    requires ValidPen(pen)
    ensures DrawText(f, pen, px, x, x, y, []).0 == px
  {
  }

  /** The pixels one caption line paints lie in its column and in the 18 rows of its own line. */
  lemma LinePaintsItsRows(f: Face, w: int, h: int, stride: int, px: seq<Pixel>, s: seq<byte>,
                          cx: int, y: int, cw: int, i: nat, last: bool)
    requires stride >= w > 0 && KnowsMore(f.cs) && 80 <= cw <= 766 && i < |Wrapped(f.cs, Some(s), cw)|
    ensures
      var c := Wrapped(f.cs, Some(s), cw)[i];
      && c.off + c.len <= |s|
      && SameOutside(px, DrawRuns(f, w, h, stride, px, LineRuns(f.cs, s, c, cx, y, cw, last)), stride,
                     Rect(cx, y, cw, HANGUL_H))
  {
    hide Wrapped, InColumn, SameOutside, DrawRuns, TextSpan, FitLen;
    CaptionLineFits(f.cs, s, cx, y, cw, i, last);
    var rs := LineRuns(f.cs, s, Wrapped(f.cs, Some(s), cw)[i], cx, y, cw, last);
    assert rs[0].y == y && InColumn(f.cs, rs[0], cx, cw);
    RunStaysInColumn(f, w, h, stride, px, rs[0], cx, cw);
    if last {
      assert rs[1].y == y && InColumn(f.cs, rs[1], cx, cw);
      var px' := DrawRuns(f, w, h, stride, px, [rs[0]]);
      RunStaysInColumn(f, w, h, stride, px', rs[1], cx, cw);
      assert rs == [rs[0]] + [rs[1]];
      DrawRunsAppend(f, w, h, stride, px, [rs[0]], [rs[1]]);
      SameTwice(px, px', DrawRuns(f, w, h, stride, px, rs), stride, Rect(cx, y, cw, HANGUL_H));
    } else {
      assert rs == [rs[0]];
    }
  }

  /** Two lines of a block never share a pixel row, and none shares one with the user line above. */
  lemma LinesShareNoRow(cy: int, i: nat, j: nat)
    requires i < j
    ensures LineTop(cy, i) + HANGUL_H <= LineTop(cy, j)
    ensures cy + FONT_LINE + 1 + HANGUL_H <= LineTop(cy, 0)
  {
  }

  const LABEL_WIDTH := 62

  /** How many of the first `e` glyphs lie whole in the first `n` bytes. */
  function WholeGlyphs(g: seq<Glyph>, e: nat, n: nat): (m: nat)
    requires e <= |g|
    ensures m <= e && Off(g, m) <= n && (m < e ==> n < Off(g, m + 1))
    decreases e
  {
    if Off(g, e) <= n then e else WholeGlyphs(g, e - 1, n)
  }

  /** The width of a text's first 511 bytes: the bytes of a character cut short count as a blank each. */
  function CutWidth(g: seq<Glyph>, e: nat): (w: int)
    requires e <= |g|
  {
    var m := WholeGlyphs(g, e, LINE_BUF_CAP - 1);
    Pos(g, m) + FONT_ADV * (LINE_BUF_CAP - 1 - Off(g, m)) - 1
  }

  /** Where a text is cut, its first bytes read as the glyphs that lie whole in them and a blank for each byte left. */
  lemma CutReads(cs: Charset, t: seq<byte>, e: nat, n: nat)
    requires e <= |Glyphs(cs, t)| && n < Off(Glyphs(cs, t), e) && Off(Glyphs(cs, t), e) <= |t|
    ensures
      var g := Glyphs(cs, t);
      var m := WholeGlyphs(g, e, n);
      n <= |t| && m < e && Glyphs(cs, t[..n]) == g[..m] + Repeat(Glyph(1, Blank), n - Off(g, m))
  {
    hide Glyphs, GlyphLen;
    var g := Glyphs(cs, t);
    var m := WholeGlyphs(g, e, n);
    CutAfter(cs, t, m, n);
    GlyphsFrom(cs, t, m);
    var u := t[Off(g, m)..];
    GlyphsOfNothing(cs);
    GlyphsStep(cs, u);
    assert g[m..][0] == g[m];
    StrayBytes(cs, u, n - Off(g, m));
    assert u[..n - Off(g, m)] == t[Off(g, m)..n];
  }

  lemma {:induction false} PosBlanks(g: seq<Glyph>, r: nat)
    ensures Pos(g + Repeat(Glyph(1, Blank), r), |g| + r) == Pos(g, |g|) + FONT_ADV * r
    decreases r
  {
    var h := g + Repeat(Glyph(1, Blank), r);
    if r > 0 {
      PosBlanks(g, r - 1);
      assert h[..|g| + r - 1] == g + Repeat(Glyph(1, Blank), r - 1);
      PosPrefix(h, |g| + r - 1, |g| + r - 1);
    } else {
      assert h == g;
    }
  }

  /** The copy of a text longer than the buffer measures its cut width. */
  lemma CutMeasures(cs: Charset, t: seq<byte>, maxW: int)
    requires 0 <= maxW && Off(Glyphs(cs, t), FitEnd(Glyphs(cs, t), 0, 0, maxW)) >= LINE_BUF_CAP
    ensures LINE_BUF_CAP - 1 <= |t|
    ensures TextSpan(cs, t[..LINE_BUF_CAP - 1]) == CutWidth(Glyphs(cs, t), FitEnd(Glyphs(cs, t), 0, 0, maxW))
  {
    hide Glyphs, FitEnd;
    var g := Glyphs(cs, t);
    var (e, n) := (FitEnd(g, 0, 0, maxW), LINE_BUF_CAP - 1);
    TakenWhole(cs, t, maxW);
    FirstGlyphDecides(g, maxW);
    CutReads(cs, t, e, n);
    var m := WholeGlyphs(g, e, n);
    var h := g[..m] + Repeat(Glyph(1, Blank), n - Off(g, m));
    WholeLine(h);
    PosBlanks(g[..m], n - Off(g, m));
    PosPrefix(g, m, m);
    assert |h| > 0;
  }

  /**
   * The label of a truncated line ends inside the column exactly when the column has room for it and the line's first
   * glyph (80 pixels for any line, 67 for one that starts with a Latin glyph), and the text before the label either
   * fits the 512-byte buffer or, cut short there, still leaves the label its room.
   */
  lemma LabelFits(cs: Charset, s: seq<byte>, c: CapLine, cx: int, y: int, cw: int)
    requires KnowsMore(cs) && c.off + c.len <= |s|
    ensures
      var r := LineRuns(cs, s, c, cx, y, cw, true)[1];
      var g := Glyphs(cs, s[c.off..]);
      var e := FitEnd(g, 0, 0, Budget(cs, cw));
      r.x + TextSpan(cs, r.text) <= cx + cw <==>
        && cw >= LABEL_WIDTH + FirstWidth(g)
        && (Off(g, e) < LINE_BUF_CAP || CutWidth(g, e) <= cw - LABEL_WIDTH)
  {
    hide Glyphs, FitEnd, Width, Off, NoNewline, FirstWidth, TextSpan, CutWidth;
    MoreWidth(cs);
    var b := Budget(cs, cw);
    var t := s[c.off..];
    var g := Glyphs(cs, t);
    var e := FitEnd(g, 0, 0, b);
    FirstGlyphDecides(g, b);
    TakenWhole(cs, t, b);
    var len := FitLen(cs, s, c.off, b);
    assert t[..len] == s[c.off..c.off + len];
    if len >= LINE_BUF_CAP {
      CutMeasures(cs, t, b);
      SpanNotNegative(cs, t[..LINE_BUF_CAP - 1]);
      assert t[..LINE_BUF_CAP - 1] == Copied(s, c.off, len);
      GlyphLens(cs, t, 0, e);
      OffStarts(g);
    }
  }

  // ---- The line buffer ---------------------------------------------------

  /** Whether every line of every caption fits the 512-byte buffer it is copied into, NUL included. */
  ghost predicate LinesFitBuffer(cs: Charset, cw: int) {
    forall s, i :: 0 <= i < |Wrapped(cs, Some(s), cw)| ==> Wrapped(cs, Some(s), cw)[i].len <= LINE_BUF_CAP - 1
  }

  /** `n` characters of four bytes each. */
  function Fours(n: nat): (s: seq<byte>)
    ensures |s| == 4 * n
  {
    if n == 0 then [] else [0xF0, 0x90, 0x80, 0x80] + Fours(n - 1)
  }

  lemma {:induction false} FoursGlyphs(cs: Charset, n: nat)
    ensures Glyphs(cs, Fours(n)) == Repeat(Glyph(4, Blank), n)
    decreases n
  {
    if n > 0 {
      var s := Fours(n);
      FoursGlyphs(cs, n - 1);
      assert s[4..] == Fours(n - 1);
      assert Glyphs(cs, s) == [Glyphs(cs, s)[0]] + Glyphs(cs, s)[1..];
      assert Repeat(Glyph(4, Blank), n) == [Glyph(4, Blank)] + Repeat(Glyph(4, Blank), n - 1);
    }
  }

  lemma {:induction false} FoursPlace(g: seq<Glyph>, k: nat)
    requires k <= |g| && forall i :: 0 <= i < |g| ==> g[i] == Glyph(4, Blank)
    ensures Off(g, k) == 4 * k && Pos(g, k) == 6 * k && NoNewline(g, 0, k)
    decreases k
  {
    if k > 0 {
      FoursPlace(g, k - 1);
    }
  }

  /** 128 characters of four bytes are 767 pixels wide and fill the buffer to its last byte. */
  lemma WideLineIsCut(cs: Charset, cw: int)
    requires cw > 766 || cw < 0
    ensures |Wrapped(cs, Some(Fours(128)), cw)| > 0 && Wrapped(cs, Some(Fours(128)), cw)[0].len == LINE_BUF_CAP
  {
    hide Glyphs, Fours, Repeat;
    var g := Glyphs(cs, Fours(128));
    FoursGlyphs(cs, 128);
    assert |g| == 128 && forall i :: 0 <= i < |g| ==> g[i] == Glyph(4, Blank);
    FoursPlace(g, 128);
    FoursPlace(g, 0);
    hide Off, Pos;
    FitEndReaches(g, 0, 0, 128, cw);
  }

  /** A line of four-byte blanks in a column of 829 pixels takes 138 of them. */
  lemma BlankLine(g: seq<Glyph>, a: nat)
    requires a + 138 < |g| && forall i :: 0 <= i < |g| ==> g[i] == Glyph(4, Blank)
    ensures NextLine(g, a, 829) == a + 138 && Range(g, Line(a, LineEnd(g, a, 829))) == CapLine(4 * a, 552)
  {
    hide FitEnd, Off, Pos;
    var e := FitEnd(g, a, a, 829);
    FoursPlace(g, a);
    FoursPlace(g, a + 138);
    FoursPlace(g, e);
    FitEndReaches(g, a, a, a + 138, 829);
    FitEndAllowed(g, a, a, 829);
  }

  /**
   * In a column of 829 pixels, which a window 857 wide has, a long caption of four-byte characters is truncated and its
   * label ends 12 pixels outside: the buffer cuts the last character, and its three bytes left read as three blanks.
   */
  lemma LabelPushedOut(cs: Charset, n: nat, cx: int, y: int)
    requires KnowsMore(cs) && n > 276
    ensures
      var ls := Wrapped(cs, Some(Fours(n)), 829);
      && |ls| > LINES_COLLAPSED && ls[1] == CapLine(552, 552) && |Fours(n)| >= 1104
      && var r := LineRuns(cs, Fours(n), ls[1], cx, y, 829, true)[1];
      r.x + TextSpan(cs, r.text) == cx + 829 + 12
  {
    hide Glyphs, Fours, Repeat, LineEnd, NextLine, Range, FitEnd, Off, Pos, TextSpan;
    var (s, ls) := (Fours(n), Wrapped(cs, Some(Fours(n)), 829));
    var g := Glyphs(cs, s);
    FoursGlyphs(cs, n);
    assert |g| == n && forall i :: 0 <= i < |g| ==> g[i] == Glyph(4, Blank);
    BlankLine(g, 0);
    BlankLine(g, 138);
    ThreeLines(g);
    FoursPlace(g, 138);
    GlyphsFrom(cs, s, 138);
    MoreWidth(cs);
    var h := g[138..];
    var t := s[552..];
    assert forall i :: 0 <= i < |h| ==> h[i] == Glyph(4, Blank);
    FoursPlace(h, 128);
    FoursPlace(h, 0);
    var e := FitEnd(h, 0, 0, 767);
    FitEndReaches(h, 0, 0, 128, 767);
    FitEndAllowed(h, 0, 0, 767);
    FoursPlace(h, e);
    CutMeasures(cs, t, 767);
    FoursCut(h, e);
    assert t[..LINE_BUF_CAP - 1] == Copied(s, 552, FitLen(cs, s, 552, 767));
  }

  lemma ThreeLines(g: seq<Glyph>)
    requires |g| > 276 && NextLine(g, 0, 829) == 138 && NextLine(g, 138, 829) == 276
    ensures
      var ls := Ranges(g, 0, 829, HARD_CAP);
      |ls| > 2 && ls[1] == Range(g, Line(138, LineEnd(g, 138, 829)))
  {
    hide NextLine, LineEnd, Range;
    var ls := Ranges(g, 0, 829, HARD_CAP);
    assert ls[1..] == Ranges(g, 138, 829, HARD_CAP - 1);
    assert ls[1..][1..] == Ranges(g, 276, 829, HARD_CAP - 2);
  }

  /** 127 characters lie whole in 511 bytes, and three bytes of the next. */
  lemma FoursCut(g: seq<Glyph>, e: nat)
    requires 128 <= e <= |g| && forall i :: 0 <= i < |g| ==> g[i] == Glyph(4, Blank)
    ensures CutWidth(g, e) == 779
  {
    hide Off, Pos;
    var m := WholeGlyphs(g, e, LINE_BUF_CAP - 1);
    FoursPlace(g, m);
    FoursPlace(g, e);
    if m < e {
      FoursPlace(g, m + 1);
    }
  }

  /** The buffer holds every line exactly in columns of up to 766 pixels. */
  lemma BufferSuffices(cs: Charset, cw: int)
    ensures LinesFitBuffer(cs, cw) <==> 0 <= cw <= 766
  {
    hide Wrapped, Fours;
    if 0 <= cw <= 766 {
      forall s, i | 0 <= i < |Wrapped(cs, Some(s), cw)| ensures Wrapped(cs, Some(s), cw)[i].len <= LINE_BUF_CAP - 1 {
        LineIsShort(cs, s, cw, i);
      }
    } else {
      WideLineIsCut(cs, cw);
      assert |Wrapped(cs, Some(Fours(128)), cw)| > 0;
    }
  }

  lemma LineIsShort(cs: Charset, s: seq<byte>, cw: int, i: nat)
    requires 0 <= cw <= 766 && i < |Wrapped(cs, Some(s), cw)|
    ensures Wrapped(cs, Some(s), cw)[i].len <= 508
  {
    hide Glyphs, Ranges;
    LineIsFit(cs, s, 0, cw, HARD_CAP, i);
    TakenUncut(cs, s[Wrapped(cs, Some(s), cw)[i].off..], cw);
  }

  // ---- Expanded and collapsed --------------------------------------------

  /** A caption line drawn plain: its bytes, as far as the buffer holds them, on the i-th line below likes and user. */
  function PlainLine(s: seq<byte>, c: CapLine, cx: int, cy: int, i: nat): (r: TextRun)
    requires c.off + c.len <= |s|
  {
    TextRun(cx, cy + 28 + 19 * i, s[c.off..c.off + if c.len > 511 then 511 else c.len], C_INK)
  }

  /** The likes and the user above the caption, and the comments below its `n` lines. */
  function Around(cx: int, cy: int, likes: seq<byte>, user: seq<byte>, lines: seq<TextRun>, comments: Option<seq<byte>>,
                  n: nat): (rs: seq<TextRun>)
  {
    [TextRun(cx, cy, likes, C_TEXT), TextRun(cx, cy + 9, user, C_TEXT)] + lines +
    if comments.Some? then [TextRun(cx, cy + 28 + 19 * n, comments.value, C_SHADOW)] else []
  }

  function PlainLines(s: seq<byte>, ls: seq<CapLine>, cx: int, cy: int, n: nat): (rs: seq<TextRun>)
    requires n <= |ls| && forall k :: 0 <= k < |ls| ==> ls[k].off + ls[k].len <= |s|
  {
    seq(n, i requires 0 <= i < n => PlainLine(s, ls[i], cx, cy, i))
  }

  lemma {:induction false} PlainRuns(cs: Charset, s: seq<byte>, ls: seq<CapLine>, i: nat, n: nat, cx: int, cy: int,
                                     cw: int)
    requires i <= n <= |ls| && forall k :: 0 <= k < |ls| ==> ls[k].off + ls[k].len <= |s|
    ensures CaptionRuns(cs, s, ls, i, n, false, cx, cy, cw) == PlainLines(s, ls, cx, cy, n)[i..]
    decreases n - i
  {
    if i < n {
      PlainRuns(cs, s, ls, i + 1, n, cx, cy, cw);
      var all := PlainLines(s, ls, cx, cy, n);
      assert LineRuns(cs, s, ls[i], cx, LineTop(cy, i), cw, false) == [all[i]];
      assert all[i..] == [all[i]] + all[i + 1..];
    }
  }

  /** An expanded block draws every wrapped line plain, in order, one below the other. */
  lemma ExpandedBlock(cs: Charset, cx: int, cy: int, cw: int, likes: seq<byte>, user: seq<byte>,
                      caption: Option<seq<byte>>, comments: Option<seq<byte>>)
    ensures
      var (s, ls) := (if caption.Some? then caption.value else [], Wrapped(cs, caption, cw));
      && (forall k :: 0 <= k < |ls| ==> ls[k].off + ls[k].len <= |s|)
      && BlockRuns(cs, cx, cy, cw, likes, user, caption, comments, true) ==
         Around(cx, cy, likes, user, PlainLines(s, ls, cx, cy, |ls|), comments, |ls|)
      && BlockHeight(cs, cw, caption, comments.Some?, true) == 28 + 19 * |ls| + if comments.Some? then 8 else 0
  {
    hide Wrapped, CaptionRuns, PlainLine;
    var (s, ls) := (if caption.Some? then caption.value else [], Wrapped(cs, caption, cw));
    RangesInText(cs, caption, cw);
    PlainRuns(cs, s, ls, 0, |ls|, cx, cy, cw);
  }

  /** Where 60 lines and the buffer suffice, what an expanded block draws is the caption, newlines between lines
      aside. */
  lemma ExpandedIsWhole(cs: Charset, s: seq<byte>, cx: int, cy: int, cw: int)
    requires |Lines(Glyphs(cs, s), 0, cw)| <= 60
    requires forall i :: 0 <= i < |Wrapped(cs, Some(s), cw)| ==> Wrapped(cs, Some(s), cw)[i].len <= 511
    ensures
      var ls := Wrapped(cs, Some(s), cw);
      && (forall k :: 0 <= k < |ls| ==> InText(s, ls[k])) && Rejoin(s, ls) == s
      && (forall k :: 0 <= k < |ls| ==> ls[k].off + ls[k].len <= |s|)
      && forall k :: 0 <= k < |ls| ==>
        PlainLines(s, ls, cx, cy, |ls|)[k].text == s[ls[k].off..ls[k].off + ls[k].len]
  {
    hide Glyphs, Lines, Ranges, Off;
    var g := Glyphs(cs, s);
    RangesInText(cs, Some(s), cw);
    Lossless(cs, s, 0, cw, HARD_CAP);
    RangesAreLines(g, 0, cw, HARD_CAP);
    OffStarts(g);
    OffTotal(cs, s);
  }

  /** The last visible line of a cut caption: as much of it as leaves room for the label, and the label right after. */
  function CutLine(cs: Charset, s: seq<byte>, c: CapLine, cx: int, y: int, cw: int): (rs: seq<TextRun>)
    requires c.off <= |s|
  {
    var more: seq<byte> := [0x20, 0xEB, 0x8D, 0x94, 0xEB, 0xB3, 0xB4, 0xEA, 0xB8, 0xB0];
    var room := cw - TextSpan(cs, more);
    var n := FitLen(cs, s, c.off, if room < 0 then 0 else room);
    var t := s[c.off..c.off + if n > 511 then 511 else n];
    [TextRun(cx, y, t, C_INK), TextRun(cx + TextSpan(cs, t), y, more, C_SHADOW)]
  }

  /** A collapsed block draws the first two lines, or the one or none there is; the second is cut for the label exactly
      when there are more than two. */
  lemma CollapsedBlock(cs: Charset, cx: int, cy: int, cw: int, likes: seq<byte>, user: seq<byte>,
                       caption: Option<seq<byte>>, comments: Option<seq<byte>>)
    ensures
      var (s, ls) := (if caption.Some? then caption.value else [], Wrapped(cs, caption, cw));
      var rs := BlockRuns(cs, cx, cy, cw, likes, user, caption, comments, false);
      var height := BlockHeight(cs, cw, caption, comments.Some?, false);
      && (forall k :: 0 <= k < |ls| ==> ls[k].off + ls[k].len <= |s|)
      && if |ls| <= 2 then
        && rs == Around(cx, cy, likes, user, PlainLines(s, ls, cx, cy, |ls|), comments, |ls|)
        && height == 28 + 19 * |ls| + (if comments.Some? then 8 else 0)
      else
        && var lines := [PlainLine(s, ls[0], cx, cy, 0)] + CutLine(cs, s, ls[1], cx, cy + 47, cw);
        rs == Around(cx, cy, likes, user, lines, comments, 2)
        && height == 66 + (if comments.Some? then 8 else 0)
  {
    hide Wrapped, CaptionRuns, PlainLine, CutLine;
    var (s, ls) := (if caption.Some? then caption.value else [], Wrapped(cs, caption, cw));
    RangesInText(cs, caption, cw);
    if |ls| <= 2 {
      PlainRuns(cs, s, ls, 0, |ls|, cx, cy, cw);
    } else {
      TwoLines(cs, s, ls, cx, cy, cw);
    }
  }

  lemma TwoLines(cs: Charset, s: seq<byte>, ls: seq<CapLine>, cx: int, cy: int, cw: int)
    requires |ls| > 2 && forall k :: 0 <= k < |ls| ==> ls[k].off + ls[k].len <= |s|
    ensures CaptionRuns(cs, s, ls, 0, 2, true, cx, cy, cw) ==
      [PlainLine(s, ls[0], cx, cy, 0)] + CutLine(cs, s, ls[1], cx, cy + 47, cw)
  {
    hide FitLen, TextSpan;
    assert CaptionRuns(cs, s, ls, 2, 2, true, cx, cy, cw) == [];
    var last := LineRuns(cs, s, ls[1], cx, LineTop(cy, 1), cw, true);
    assert CaptionRuns(cs, s, ls, 1, 2, true, cx, cy, cw) == last + [] == last;
    assert last == CutLine(cs, s, ls[1], cx, cy + 47, cw);
    assert LineRuns(cs, s, ls[0], cx, LineTop(cy, 0), cw, false) == [PlainLine(s, ls[0], cx, cy, 0)];
  }
}
