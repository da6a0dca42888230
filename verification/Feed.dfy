/** The post cards of ui/feed.c: the caption block, which is both painter and measure, and the card's height. */
module Feed {
  import opened CTypes
  import opened Raster
  import opened Font
  import opened Caption
  import opened Draw

  const POST_PAD := 8
  const LINES_COLLAPSED := 2
  const LINE_BUF_CAP := 512
  // " " and the syllables U+B354, U+BCF4, U+AE30
  const MORE_LABEL: seq<byte> := [0x20, 0xEB, 0x8D, 0x94, 0xEB, 0xB3, 0xB4, 0xEA, 0xB8, 0xB0]

  const C_TEXT := Pixel(255, 20, 20, 20)
  const C_INK := Pixel(255, 80, 80, 80)
  const C_SHADOW := Pixel(255, 128, 128, 128)

  /** One string drawn at scale 1. */
  datatype TextRun = TextRun(x: int, y: int, text: seq<byte>, color: Pixel)

  // ---- What a caption block shows ----------------------------------------

  /** The copy draw_line makes of a byte range. */
  function Copied(s: seq<byte>, off: nat, len: nat): (t: seq<byte>)
    requires off + len <= |s|
  {
    s[off..off + if len > LINE_BUF_CAP - 1 then LINE_BUF_CAP - 1 else len]
  }

  function VisibleLines(total: nat, expanded: bool): (n: nat)
    ensures n <= total
  {
    if expanded || total <= LINES_COLLAPSED then total else LINES_COLLAPSED
  }

  predicate Truncated(total: nat, expanded: bool) {
    !expanded && total > LINES_COLLAPSED
  }

  /** The first caption line's y, below the likes line and the user line. */
  function LineTop(cy: int, i: nat): (y: int) {
    cy + (FONT_LINE + 1) + FONT_WIDE_LINE + FONT_WIDE_LINE * i
  }

  /** How many bytes of the text from `off` fit in `maxW`. */
  function FitLen(cs: Charset, s: seq<byte>, off: nat, maxW: int): (len: nat)
    requires off <= |s|
    ensures off + len <= |s|
  {
    var g := Glyphs(cs, s[off..]);
    GlyphsFrom(cs, s[off..], FitEnd(g, 0, 0, maxW));
    Off(g, FitEnd(g, 0, 0, maxW))
  }

  /** font_text_width at scale 1. */
  function TextSpan(cs: Charset, t: seq<byte>): (w: int) {
    var g := Glyphs(cs, t);
    Width(g, 0, FitEnd(g, 0, 0, -1))
  }

  /** The room MORE_LABEL leaves on its line. */
  function Budget(cs: Charset, cw: int): (b: int) {
    if cw - TextSpan(cs, MORE_LABEL) < 0 then 0 else cw - TextSpan(cs, MORE_LABEL)
  }

  /** What is drawn for the caption line at byte range `c`; the last visible line of a truncated caption ends in
      MORE_LABEL. */
  function LineRuns(cs: Charset, s: seq<byte>, c: CapLine, cx: int, y: int, cw: int, last: bool): (rs: seq<TextRun>)
    requires c.off + c.len <= |s|
  {
    if last then
      var t := Copied(s, c.off, FitLen(cs, s, c.off, Budget(cs, cw)));
      [TextRun(cx, y, t, C_INK), TextRun(cx + TextSpan(cs, t), y, MORE_LABEL, C_SHADOW)]
    else [TextRun(cx, y, Copied(s, c.off, c.len), C_INK)]
  }

  /** The caption's lines from the i-th on. */
  function CaptionRuns(cs: Charset, s: seq<byte>, ls: seq<CapLine>, i: nat, visible: nat, truncated: bool,
                       cx: int, cy: int, cw: int): (rs: seq<TextRun>)
    requires i <= visible <= |ls| && forall k :: 0 <= k < |ls| ==> ls[k].off + ls[k].len <= |s|
    decreases visible - i
  {
    if i == visible then []
    else
      LineRuns(cs, s, ls[i], cx, LineTop(cy, i), cw, truncated && i == visible - 1) +
      CaptionRuns(cs, s, ls, i + 1, visible, truncated, cx, cy, cw)
  }

  /** What a block paints, in order. */
  function BlockRuns(cs: Charset, cx: int, cy: int, cw: int, likes: seq<byte>, user: seq<byte>,
                     caption: Option<seq<byte>>, comments: Option<seq<byte>>, expanded: bool): (rs: seq<TextRun>)
  {
    var ls := Wrapped(cs, caption, cw);
    var s := if caption.Some? then caption.value else [];
    RangesInText(cs, caption, cw);
    var n := VisibleLines(|ls|, expanded);
    [TextRun(cx, cy, likes, C_TEXT), TextRun(cx, cy + FONT_LINE + 1, user, C_TEXT)] +
    CaptionRuns(cs, s, ls, 0, n, Truncated(|ls|, expanded), cx, cy, cw) +
    if comments.Some? then [TextRun(cx, LineTop(cy, n), comments.value, C_SHADOW)] else []
  }

  lemma RangesInText(cs: Charset, caption: Option<seq<byte>>, maxW: int)
    ensures
      var ls := Wrapped(cs, caption, maxW);
      var s := if caption.Some? then caption.value else [];
      forall k :: 0 <= k < |ls| ==> ls[k].off + ls[k].len <= |s|
  {
    hide Glyphs, Ranges;
    if caption.Some? {
      Lossless(cs, caption.value, 0, maxW, HARD_CAP);
      var ls := Wrapped(cs, caption, maxW);
      forall k | 0 <= k < |ls| ensures ls[k].off + ls[k].len <= |caption.value| {
        assert InText(caption.value, ls[k]);
      }
    }
  }

  /** A block's height: it depends on the caption's lines, not on where or whether the block is drawn. */
  function BlockHeight(cs: Charset, cw: int, caption: Option<seq<byte>>, comments: bool, expanded: bool): (h: int)
    ensures h >= FONT_LINE + 1 + FONT_WIDE_LINE
  {
    var n := VisibleLines(|Wrapped(cs, caption, cw)|, expanded);
    FONT_LINE + 1 + FONT_WIDE_LINE + FONT_WIDE_LINE * n + if comments then FONT_LINE else 0
  }

  /** The buffer after drawing strings one after the other. */
  function DrawRuns(f: Face, w: int, h: int, stride: int, px: seq<Pixel>, rs: seq<TextRun>): (out: seq<Pixel>)
    requires stride >= w > 0
    ensures |out| == |px|
    decreases |rs|
  {
    if rs == [] then px
    else
      var r := rs[0];
      var px' := DrawText(f, Pen(w, h, stride, r.color, 1), px, r.x, r.x, r.y, Glyphs(f.cs, r.text)).0;
      DrawRuns(f, w, h, stride, px', rs[1..])
  }

  lemma {:induction false} DrawRunsAppend(f: Face, w: int, h: int, stride: int, px: seq<Pixel>, a: seq<TextRun>,
                                          b: seq<TextRun>)
    requires stride >= w > 0
    ensures DrawRuns(f, w, h, stride, px, a + b) == DrawRuns(f, w, h, stride, DrawRuns(f, w, h, stride, px, a), b)
    decreases |a|
  {
    hide DrawText, Glyphs;
    if a == [] {
      assert a + b == b;
    } else {
      var r := a[0];
      var px' := DrawText(f, Pen(w, h, stride, r.color, 1), px, r.x, r.x, r.y, Glyphs(f.cs, r.text)).0;
      assert (a + b)[0] == r && (a + b)[1..] == a[1..] + b;
      DrawRunsAppend(f, w, h, stride, px', a[1..], b);
    }
  }

  // ---- Painting and measuring --------------------------------------------

  /** Draws a string on the surface, if there is one. */
  method DrawRun(f: Face, s: Surface?, r: TextRun, ghost start: seq<Pixel>, ghost done: seq<TextRun>)
    requires s != null ==> s.Valid() && s.pixels[..] == DrawRuns(f, s.w, s.h, s.stride, start, done)
    modifies if s == null then {} else {s.pixels}
    ensures s != null ==> s.pixels[..] == DrawRuns(f, s.w, s.h, s.stride, start, done + [r])
  {
    hide DrawText, Glyphs;
    if s != null {
      DrawRunsAppend(f, s.w, s.h, s.stride, start, done, [r]);
      var end := FontDrawScaled(f, s, r.x, r.y, r.text, r.color, 1);
    }
  }

  /** The copying loop of draw_line and draw_line_with_suffix. */
  method CopyLine(s: seq<byte>, off: nat, len: nat) returns (t: seq<byte>)
    requires off + len <= |s|
    ensures t == Copied(s, off, len)
  {
    var buf := new byte[LINE_BUF_CAP];
    var n := if len > LINE_BUF_CAP - 1 then LINE_BUF_CAP - 1 else len;
    for i := 0 to n
      invariant buf[..i] == s[off..off + i]
    {
      buf[i] := s[off + i];
    }
    buf[n] := 0;
    t := buf[..n];
  }

  /** Draws one caption line: plain, or cut short with MORE_LABEL after it. */
  method DrawLine(f: Face, s: Surface?, text: seq<byte>, c: CapLine, cx: int, y: int, cw: int, last: bool,
                  ghost start: seq<Pixel>, ghost done: seq<TextRun>)
    requires c.off + c.len <= |text|
    requires s != null ==> s.Valid() && s.pixels[..] == DrawRuns(f, s.w, s.h, s.stride, start, done)
    modifies if s == null then {} else {s.pixels}
    ensures s != null ==>
      s.pixels[..] == DrawRuns(f, s.w, s.h, s.stride, start, done + LineRuns(f.cs, text, c, cx, y, cw, last))
  {
    hide Glyphs, DrawRuns, FitEnd, Width, Off, Copied;
    if s == null {
      return;
    }
    if last {
      var more := TextWidth(f.cs, MORE_LABEL, 1);
      var budget := cw - more;
      if budget < 0 {
        budget := 0;
      }
      var w, len := Measure(f.cs, text[c.off..], budget);
      assert len == FitLen(f.cs, text, c.off, Budget(f.cs, cw));
      var t := CopyLine(text, c.off, len);
      var span := TextWidth(f.cs, t, 1);
      var a, b := TextRun(cx, y, t, C_INK), TextRun(cx + span, y, MORE_LABEL, C_SHADOW);
      DrawRun(f, s, a, start, done);
      DrawRun(f, s, b, start, done + [a]);
      assert done + [a] + [b] == done + [a, b];
    } else {
      var t := CopyLine(text, c.off, c.len);
      DrawRun(f, s, TextRun(cx, y, t, C_INK), start, done);
    }
  }

  /**
   * caption_block: paints the block when there is a surface, and returns its height either way.
   */
  method CaptionBlock(f: Face, s: Surface?, cx: int, cy: int, cw: int, likes: seq<byte>, user: seq<byte>,
                      caption: Option<seq<byte>>, comments: Option<seq<byte>>, expanded: bool) returns (height: int)
    requires s != null ==> s.Valid()
    modifies if s == null then {} else {s.pixels}
    ensures height == BlockHeight(f.cs, cw, caption, comments.Some?, expanded)
    ensures s != null ==>
      s.pixels[..] == DrawRuns(f, s.w, s.h, s.stride, old(s.pixels[..]),
                               BlockRuns(f.cs, cx, cy, cw, likes, user, caption, comments, expanded))
  {
    hide Wrapped, LineRuns, DrawRuns;
    ghost var start := if s == null then [] else s.pixels[..];
    NoRuns(f, s, start);
    var y := cy;
    DrawRun(f, s, TextRun(cx, y, likes, C_TEXT), start, []);
    y := y + FONT_LINE + 1;
    ghost var done := [] + [TextRun(cx, cy, likes, C_TEXT)];
    DrawRun(f, s, TextRun(cx, y, user, C_TEXT), start, done);
    done := done + [TextRun(cx, y, user, C_TEXT)];
    assert done == [TextRun(cx, cy, likes, C_TEXT), TextRun(cx, cy + FONT_LINE + 1, user, C_TEXT)];
    y := y + FONT_WIDE_LINE;

    var n;
    n, y := CaptionLines(f, s, cx, cy, cw, caption, expanded, start, done);
    ghost var ls := Wrapped(f.cs, caption, cw);
    ghost var text := if caption.Some? then caption.value else [];
    RangesInText(f.cs, caption, cw);
    ghost var body := CaptionRuns(f.cs, text, ls, 0, n, Truncated(|ls|, expanded), cx, cy, cw);
    if comments.Some? {
      DrawRun(f, s, TextRun(cx, y, comments.value, C_SHADOW), start, done + body);
      y := y + FONT_LINE;
    } else {
      assert done + body + [] == done + body;
    }
    height := y - cy;
  }

  /** The caption's part of caption_block: wraps it, and paints or skips each visible line. */
  method CaptionLines(f: Face, s: Surface?, cx: int, cy: int, cw: int, caption: Option<seq<byte>>, expanded: bool,
                      ghost start: seq<Pixel>, ghost done: seq<TextRun>) returns (visible: nat, y: int)
    requires s != null ==> s.Valid() && s.pixels[..] == DrawRuns(f, s.w, s.h, s.stride, start, done)
    modifies if s == null then {} else {s.pixels}
    ensures visible == VisibleLines(|Wrapped(f.cs, caption, cw)|, expanded) && y == LineTop(cy, visible)
    ensures
      var ls := Wrapped(f.cs, caption, cw);
      var text := if caption.Some? then caption.value else [];
      && (forall k :: 0 <= k < |ls| ==> ls[k].off + ls[k].len <= |text|)
      && (s != null ==>
        s.pixels[..] == DrawRuns(f, s.w, s.h, s.stride, start,
          done + CaptionRuns(f.cs, text, ls, 0, visible, Truncated(|ls|, expanded), cx, cy, cw)))
  {
    hide Wrapped, LineRuns, DrawRuns, CaptionRuns;
    var lines := new CapLine[HARD_CAP](_ => CapLine(0, 0));
    var total := WrapCaption(f.cs, caption, cw, lines);
    ghost var ls := lines[..total];
    RangesInText(f.cs, caption, cw);
    visible := if expanded || total <= LINES_COLLAPSED then total else LINES_COLLAPSED;
    var truncated := !expanded && total > LINES_COLLAPSED;
    var text := if caption.Some? then caption.value else [];
    ghost var body := CaptionRuns(f.cs, text, ls, 0, visible, truncated, cx, cy, cw);
    ghost var so := [];
    y := LineTop(cy, 0);
    assert done + [] == done && [] + body == body;
    for i := 0 to visible
      invariant y == LineTop(cy, i) && lines[..total] == ls
      invariant so + CaptionRuns(f.cs, text, ls, i, visible, truncated, cx, cy, cw) == body
      invariant s != null ==> s.Valid() && s.pixels[..] == DrawRuns(f, s.w, s.h, s.stride, start, done + so)
    {
      assert lines[i] == ls[i];
      CaptionRunsStep(f.cs, text, ls, i, visible, truncated, cx, cy, cw, so);
      DrawLine(f, s, text, lines[i], cx, y, cw, truncated && i == visible - 1, start, done + so);
      ghost var here := LineRuns(f.cs, text, ls[i], cx, y, cw, truncated && i == visible - 1);
      assert done + so + here == done + (so + here);
      so := so + here;
      y := y + FONT_WIDE_LINE;
    }
    NoMoreRuns(f.cs, text, ls, visible, truncated, cx, cy, cw);
    assert so + [] == so;
  }

  lemma CaptionRunsStep(cs: Charset, s: seq<byte>, ls: seq<CapLine>, i: nat, visible: nat, truncated: bool,
                        cx: int, cy: int, cw: int, so: seq<TextRun>)
    requires i < visible <= |ls| && forall k :: 0 <= k < |ls| ==> ls[k].off + ls[k].len <= |s|
    ensures
      var here := LineRuns(cs, s, ls[i], cx, LineTop(cy, i), cw, truncated && i == visible - 1);
      so + CaptionRuns(cs, s, ls, i, visible, truncated, cx, cy, cw) ==
      so + here + CaptionRuns(cs, s, ls, i + 1, visible, truncated, cx, cy, cw)
  {
    hide LineRuns;
  }

  lemma NoMoreRuns(cs: Charset, s: seq<byte>, ls: seq<CapLine>, visible: nat, truncated: bool, cx: int, cy: int,
                   cw: int)
    requires visible <= |ls| && forall k :: 0 <= k < |ls| ==> ls[k].off + ls[k].len <= |s|
    ensures CaptionRuns(cs, s, ls, visible, visible, truncated, cx, cy, cw) == []
  {
  }

  lemma NoRuns(f: Face, s: Surface?, px: seq<Pixel>)
    requires s != null ==> s.Valid()
    ensures s != null ==> DrawRuns(f, s.w, s.h, s.stride, px, []) == px
  {
  }

  // ---- Cards -------------------------------------------------------------

  /** The height of a card whose content column is `w` wide. */
  function CardHeight(cs: Charset, w: int, caption: Option<seq<byte>>, comments: bool, expanded: bool): (h: int)
    ensures h >= w + 86
  {
    40 + (w - 2 * POST_PAD) + 26 + BlockHeight(cs, w - 2 * POST_PAD, caption, comments, expanded) + POST_PAD
  }

  /** post_card_height */
  method PostCardHeight(f: Face, w: int, likes: seq<byte>, user: seq<byte>, caption: Option<seq<byte>>,
                        comments: Option<seq<byte>>, expanded: bool) returns (h: int)
    ensures h == CardHeight(f.cs, w, caption, comments.Some?, expanded)
  {
    hide BlockHeight, BlockRuns;
    var photoH := w - 2 * POST_PAD;
    var cw := w - 2 * POST_PAD;
    var capH := CaptionBlock(f, null, 0, 0, cw, likes, user, caption, comments, expanded);
    h := 40 + photoH + 26 + capH + POST_PAD;
  }
}
