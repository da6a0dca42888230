/** Caption wrapping in ui/feed.c: greedy lines over glyphs, and why no wrapping does better. */
module Caption {
  import opened CTypes
  import opened Font

  /** A line covers the glyphs from `start` up to `end`. */
  datatype Line = Line(start: nat, end: nat)

  function LineEnd(g: seq<Glyph>, a: nat, maxW: int): (e: nat)
    requires a <= |g|
    ensures a <= e <= |g|
  {
    FitEnd(g, a, a, maxW)
  }

  /** Past a forced newline, if one comes next. */
  function Skip(g: seq<Glyph>, e: nat): (n: nat)
    requires e <= |g|
    ensures e <= n <= |g|
  {
    if e < |g| && g[e].shape.Newline? then e + 1 else e
  }

  function NextLine(g: seq<Glyph>, a: nat, maxW: int): (n: nat)
    requires a <= |g|
    ensures a <= n <= |g| && (a < |g| ==> a < n)
  {
    Skip(g, LineEnd(g, a, maxW))
  }

  /** The greedy lines from glyph `a` on. */
  function Lines(g: seq<Glyph>, a: nat, maxW: int): (ls: seq<Line>)
    requires a <= |g|
    decreases |g| - a
  {
    if a == |g| then [] else [Line(a, LineEnd(g, a, maxW))] + Lines(g, NextLine(g, a, maxW), maxW)
  }

  // ---- Any other way of splitting ----------------------------------------

  /** A line any wrapping may use: no newline in it, and it fits or is at most one glyph. */
  ghost predicate Allowed(g: seq<Glyph>, l: Line, maxW: int) {
    && l.start <= l.end <= |g| && NoNewline(g, l.start, l.end)
    && (l.end - l.start <= 1 || Fits(Width(g, l.start, l.end), maxW))
  }

  /** The lines cover the text from `a` on; a newline after a line may be skipped, or left to an empty line. */
  ghost predicate Splits(g: seq<Glyph>, a: nat, ls: seq<Line>, maxW: int)
    decreases |ls|
  {
    if ls == [] then a == |g|
    else
      && ls[0].start == a && Allowed(g, ls[0], maxW)
      && (Splits(g, ls[0].end, ls[1..], maxW) || Splits(g, Skip(g, ls[0].end), ls[1..], maxW))
  }

  /** The greedy walk reaches the end of every run that fits. */
  lemma {:induction false} FitEndReaches(g: seq<Glyph>, p: nat, e: nat, b: nat, maxW: int)
    requires p <= e <= b <= |g| && NoNewline(g, p, b)
    requires b - p <= 1 || Fits(Width(g, p, b), maxW)
    ensures FitEnd(g, p, e, maxW) >= b
    decreases b - e
  {
    if e < b {
      PosMonotone(g, e + 1, b);
      FitEndReaches(g, p, e + 1, b, maxW);
    }
  }

  lemma WidthShrinks(g: seq<Glyph>, a: nat, p: nat, b: nat)
    requires a <= p <= b <= |g|
    ensures Width(g, p, b) <= Width(g, a, b)
  {
    PosMonotone(g, a, p);
    PosMonotone(g, a, b);
  }

  /** Wherever another line ends, a greedy line that starts no earlier leads at least as far. */
  lemma StaysAhead(g: seq<Glyph>, l: Line, p: nat, maxW: int)
    requires Allowed(g, l, maxW) && l.start <= p < |g|
    ensures NextLine(g, p, maxW) >= Skip(g, l.end)
  {
    if p < l.end {
      WidthShrinks(g, l.start, p, l.end);
      FitEndReaches(g, p, p, l.end, maxW);
    }
  }

  /** No split of the text from an earlier point uses fewer lines than the greedy one. */
  lemma {:induction false} GreedyIsLeast(g: seq<Glyph>, a: nat, ls: seq<Line>, p: nat, maxW: int)
    requires a <= p <= |g| && Splits(g, a, ls, maxW)
    ensures |Lines(g, p, maxW)| <= |ls|
    decreases |ls|
  {
    if p < |g| {
      StaysAhead(g, ls[0], p, maxW);
      if Splits(g, ls[0].end, ls[1..], maxW) {
        GreedyIsLeast(g, ls[0].end, ls[1..], NextLine(g, p, maxW), maxW);
      } else {
        GreedyIsLeast(g, Skip(g, ls[0].end), ls[1..], NextLine(g, p, maxW), maxW);
      }
    }
  }

  lemma {:induction false} FitEndAllowed(g: seq<Glyph>, a: nat, e: nat, maxW: int)
    requires a <= e <= |g| && Allowed(g, Line(a, e), maxW)
    ensures Allowed(g, Line(a, FitEnd(g, a, e, maxW)), maxW)
    decreases |g| - e
  {
    hide Width;
    if e < |g| && !g[e].shape.Newline? && (e == a || Fits(Width(g, a, e + 1), maxW)) {
      FitEndAllowed(g, a, e + 1, maxW);
    }
  }

  /** The greedy lines are themselves a split. */
  lemma {:induction false} GreedySplits(g: seq<Glyph>, a: nat, maxW: int)
    requires a <= |g|
    ensures Splits(g, a, Lines(g, a, maxW), maxW)
    decreases |g| - a
  {
    if a < |g| {
      FitEndAllowed(g, a, a, maxW);
      GreedySplits(g, NextLine(g, a, maxW), maxW);
      assert Lines(g, a, maxW)[1..] == Lines(g, NextLine(g, a, maxW), maxW);
    }
  }

  /** The greedy wrapping is a split with the least number of lines. */
  lemma Optimal(g: seq<Glyph>, ls: seq<Line>, maxW: int)
    requires Splits(g, 0, ls, maxW)
    ensures Splits(g, 0, Lines(g, 0, maxW), maxW) && |Lines(g, 0, maxW)| <= |ls|
  {
    GreedySplits(g, 0, maxW);
    GreedyIsLeast(g, 0, ls, 0, maxW);
  }

  /** A negative width means no limit. */
  predicate NoWider(narrow: int, wide: int) {
    wide < 0 || 0 <= narrow <= wide
  }

  lemma {:induction false} SplitsWider(g: seq<Glyph>, a: nat, ls: seq<Line>, narrow: int, wide: int)
    requires Splits(g, a, ls, narrow) && NoWider(narrow, wide)
    ensures Splits(g, a, ls, wide)
    decreases |ls|
  {
    if ls != [] {
      if Splits(g, ls[0].end, ls[1..], narrow) {
        SplitsWider(g, ls[0].end, ls[1..], narrow, wide);
      } else {
        SplitsWider(g, Skip(g, ls[0].end), ls[1..], narrow, wide);
      }
    }
  }

  /** A wider column never needs more lines. */
  lemma WiderNeedsNoMore(g: seq<Glyph>, narrow: int, wide: int)
    requires NoWider(narrow, wide)
    ensures |Lines(g, 0, wide)| <= |Lines(g, 0, narrow)|
  {
    GreedySplits(g, 0, narrow);
    SplitsWider(g, 0, Lines(g, 0, narrow), narrow, wide);
    GreedyIsLeast(g, 0, Lines(g, 0, narrow), 0, wide);
  }

  // ---- Lines as byte ranges ----------------------------------------------

  const HARD_CAP := 60

  datatype CapLine = CapLine(off: nat, len: nat)

  function Range(g: seq<Glyph>, l: Line): (c: CapLine)
    requires l.start <= l.end <= |g|
  {
    OffMonotone(g, l.start, l.end);
    CapLine(Off(g, l.start), Off(g, l.end) - Off(g, l.start))
  }

  /** The byte ranges of at most `cap` greedy lines from glyph `a` on. */
  function Ranges(g: seq<Glyph>, a: nat, maxW: int, cap: nat): (cs: seq<CapLine>)
    requires a <= |g|
    ensures |cs| <= cap
    ensures cs != [] ==> cs[0].off == Off(g, a)
    decreases cap
  {
    if a == |g| || cap == 0 then []
    else [Range(g, Line(a, LineEnd(g, a, maxW)))] + Ranges(g, NextLine(g, a, maxW), maxW, cap - 1)
  }

  /** Where wrapping with at most `cap` lines stops. */
  function Reach(g: seq<Glyph>, a: nat, maxW: int, cap: nat): (e: nat)
    requires a <= |g|
    ensures a <= e <= |g|
    decreases cap
  {
    if a == |g| || cap == 0 then a else Reach(g, NextLine(g, a, maxW), maxW, cap - 1)
  }

  /** The cap cuts the text off exactly when the greedy wrapping needs more lines. */
  lemma {:induction false} RangesAreLines(g: seq<Glyph>, a: nat, maxW: int, cap: nat)
    requires a <= |g|
    ensures |Ranges(g, a, maxW, cap)| == if |Lines(g, a, maxW)| <= cap then |Lines(g, a, maxW)| else cap
    ensures forall i :: 0 <= i < |Ranges(g, a, maxW, cap)| ==>
      var l := Lines(g, a, maxW)[i];
      l.start <= l.end <= |g| && Ranges(g, a, maxW, cap)[i] == Range(g, l)
    ensures Reach(g, a, maxW, cap) == |g| <==> |Lines(g, a, maxW)| <= cap
    decreases cap
  {
    hide LineEnd, NextLine, Range;
    if a < |g| && cap > 0 {
      var n := NextLine(g, a, maxW);
      RangesAreLines(g, n, maxW, cap - 1);
    }
  }

  /** The forced newline skipped after a line, if there is one. */
  function Separator(s: seq<byte>, p: nat): (t: seq<byte>) {
    if p < |s| && s[p] == NEWLINE then [NEWLINE] else []
  }

  /** The lines' bytes, each followed by the newline skipped after it. */
  function Rejoin(s: seq<byte>, ls: seq<CapLine>): (t: seq<byte>)
    requires forall i :: 0 <= i < |ls| ==> InText(s, ls[i])
  {
    if ls == [] then []
    else
      assert InText(s, ls[0]);
      s[ls[0].off..ls[0].off + ls[0].len] + Separator(s, ls[0].off + ls[0].len) + Rejoin(s, ls[1..])
  }

  /** A line lies in the text and has no newline in it. */
  ghost predicate InText(s: seq<byte>, c: CapLine) {
    c.off + c.len <= |s| && forall j :: c.off <= j < c.off + c.len ==> s[j] != NEWLINE
  }

  /** `d` starts right after `c`, or after the newline that follows `c`. */
  predicate Adjacent(s: seq<byte>, c: CapLine, d: CapLine) {
    d.off == c.off + c.len + |Separator(s, c.off + c.len)|
  }

  /** The lines are in order, no two overlap, and only a newline is left between them. */
  ghost predicate InOrder(s: seq<byte>, ls: seq<CapLine>) {
    (forall i :: 0 <= i < |ls| ==> InText(s, ls[i])) && forall i :: 0 <= i < |ls| - 1 ==> Adjacent(s, ls[i], ls[i + 1])
  }

  /** Off and newlines agree between bytes and glyphs at a boundary. */
  lemma AtBoundary(cs: Charset, s: seq<byte>, e: nat)
    requires e <= |Glyphs(cs, s)|
    ensures
      var g := Glyphs(cs, s);
      && Off(g, e) <= |s| && (e < |g| ==> Off(g, e) < |s|)
      && Off(g, Skip(g, e)) == Off(g, e) + |Separator(s, Off(g, e))|
  {
    hide Glyphs, GlyphLen;
    var g := Glyphs(cs, s);
    GlyphsFrom(cs, s, e);
    StopsAt(cs, s, Off(g, e), e);
    if e < |g| {
      GlyphsOfNothing(cs);
      assert Off(g, e) < |s|;
      if g[e].shape.Newline? {
        NewlineLen(cs, s, e);
      }
    } else {
      OffTotal(cs, s);
    }
  }

  lemma NewlineLen(cs: Charset, s: seq<byte>, e: nat)
    requires e < |Glyphs(cs, s)| && Glyphs(cs, s)[e].shape.Newline?
    ensures Glyphs(cs, s)[e].len == 1
  {
    hide Glyphs;
    var g := Glyphs(cs, s);
    GlyphsFrom(cs, s, e);
    GlyphsOfNothing(cs);
    var t := s[Off(g, e)..];
    assert t != [];
    GlyphsStep(cs, t);
    assert g[e..][0] == g[e];
  }

  /** A glyph other than a newline has no newline byte in it. */
  lemma GlyphBytes(cs: Charset, s: seq<byte>, k: nat)
    requires k < |Glyphs(cs, s)| && !Glyphs(cs, s)[k].shape.Newline?
    ensures Off(Glyphs(cs, s), k + 1) <= |s|
    ensures forall j :: Off(Glyphs(cs, s), k) <= j < Off(Glyphs(cs, s), k + 1) ==> s[j] != NEWLINE
  {
    hide Glyphs, CodePoint;
    var g := Glyphs(cs, s);
    GlyphsFrom(cs, s, k);
    GlyphsOfNothing(cs);
    var o := Off(g, k);
    var t := s[o..];
    assert t != [];
    GlyphsStep(cs, t);
    assert g[k..][0] == g[k];
    GlyphsFrom(cs, s, k + 1);
    forall j | o <= j < o + g[k].len ensures s[j] != NEWLINE {
      assert s[j] == t[j - o];
    }
  }

  lemma {:induction false} LineBytes(cs: Charset, s: seq<byte>, a: nat, b: nat)
    requires a <= b <= |Glyphs(cs, s)| && NoNewline(Glyphs(cs, s), a, b)
    ensures Off(Glyphs(cs, s), b) <= |s|
    ensures forall j :: Off(Glyphs(cs, s), a) <= j < Off(Glyphs(cs, s), b) ==> s[j] != NEWLINE
    decreases b - a
  {
    hide Glyphs;
    GlyphsFrom(cs, s, b);
    if a < b {
      LineBytes(cs, s, a, b - 1);
      GlyphBytes(cs, s, b - 1);
    }
  }

  /** One line in bytes: its range, the newline after it, and where the next one starts. */
  lemma LineInBytes(cs: Charset, s: seq<byte>, a: nat, maxW: int)
    requires a < |Glyphs(cs, s)|
    ensures
      var g := Glyphs(cs, s);
      var c := Range(g, Line(a, LineEnd(g, a, maxW)));
      && c.off == Off(g, a) && InText(s, c)
      && Off(g, NextLine(g, a, maxW)) == c.off + c.len + |Separator(s, c.off + c.len)|
      && Off(g, NextLine(g, a, maxW)) <= |s|
  {
    hide Glyphs, Width;
    var g := Glyphs(cs, s);
    FitEndAllowed(g, a, a, maxW);
    LineBytes(cs, s, a, LineEnd(g, a, maxW));
    AtBoundary(cs, s, LineEnd(g, a, maxW));
    GlyphsFrom(cs, s, NextLine(g, a, maxW));
  }

  /**
   * Wrapping loses nothing: the lines are ordered, disjoint and on glyph boundaries, hold no
   * newline, and together with the newlines skipped between them are the text from `a` up to where
   * wrapping stopped.
   */
  lemma {:induction false} Lossless(cs: Charset, s: seq<byte>, a: nat, maxW: int, cap: nat)
    requires a <= |Glyphs(cs, s)|
    ensures
      var g := Glyphs(cs, s);
      var ls := Ranges(g, a, maxW, cap);
      var end := Reach(g, a, maxW, cap);
      && InOrder(s, ls) && (ls != [] ==> ls[0].off == Off(g, a))
      && Off(g, a) <= Off(g, end) <= |s| && Rejoin(s, ls) == s[Off(g, a)..Off(g, end)]
    decreases cap
  {
    hide Glyphs, LineEnd, NextLine, Range, Separator, InText;
    var g := Glyphs(cs, s);
    GlyphsFrom(cs, s, a);
    if a < |g| && cap > 0 {
      hide InOrder, Rejoin;
      var n := NextLine(g, a, maxW);
      var c := Range(g, Line(a, LineEnd(g, a, maxW)));
      LineInBytes(cs, s, a, maxW);
      Lossless(cs, s, n, maxW, cap - 1);
      JoinLine(s, c, Ranges(g, n, maxW, cap - 1), Off(g, n), Off(g, Reach(g, n, maxW, cap - 1)));
    }
  }

  /** Putting a line in front of the rest. */
  lemma JoinLine(s: seq<byte>, c: CapLine, rest: seq<CapLine>, n: nat, end: nat)
    requires InText(s, c) && n == c.off + c.len + |Separator(s, c.off + c.len)| <= end <= |s|
    requires InOrder(s, rest) && (rest != [] ==> rest[0].off == n) && Rejoin(s, rest) == s[n..end]
    ensures InOrder(s, [c] + rest) && Rejoin(s, [c] + rest) == s[c.off..end]
  {
    OrderedCons(s, c, rest, n);
    var e := c.off + c.len;
    assert Rejoin(s, [c] + rest) == s[c.off..e] + Separator(s, e) + Rejoin(s, rest) by {
      assert ([c] + rest)[1..] == rest;
    }
    hide Rejoin, InOrder, InText;
    SeparatorIs(s, e);
    Concat3(s, c.off, e, n, end);
  }

  lemma SeparatorIs(s: seq<byte>, e: nat)
    requires e + |Separator(s, e)| <= |s|
    ensures Separator(s, e) == s[e..e + |Separator(s, e)|]
  {
  }

  lemma Concat3(s: seq<byte>, a: nat, b: nat, c: nat, d: nat)
    requires a <= b <= c <= d <= |s|
    ensures s[a..b] + s[b..c] + s[c..d] == s[a..d]
  {
  }

  lemma OrderedCons(s: seq<byte>, c: CapLine, rest: seq<CapLine>, n: nat)
    requires InText(s, c) && n == c.off + c.len + |Separator(s, c.off + c.len)|
    requires InOrder(s, rest) && (rest != [] ==> rest[0].off == n)
    ensures InOrder(s, [c] + rest)
  {
    hide Separator, InText;
    var ls := [c] + rest;
    forall i | 0 <= i < |ls| ensures InText(s, ls[i]) {
      assert i > 0 ==> ls[i] == rest[i - 1];
    }
    forall i | 0 <= i < |ls| - 1 ensures Adjacent(s, ls[i], ls[i + 1]) {
      assert ls[i + 1] == rest[i] && (i > 0 ==> ls[i] == rest[i - 1]);
    }
  }

  /** What wrap_caption gives: nothing for no caption, else at most HARD_CAP greedy lines. */
  function Wrapped(cs: Charset, caption: Option<seq<byte>>, maxW: int): (ls: seq<CapLine>)
    ensures |ls| <= HARD_CAP
  {
    if caption.None? then [] else Ranges(Glyphs(cs, caption.value), 0, maxW, HARD_CAP)
  }

  /** One turn of wrap_caption's loop, at the boundary of glyph `k`: the next line and where the one after it starts. */
  method NextRange(cs: Charset, s: seq<byte>, p: nat, maxW: int, ghost k: nat) returns (len: nat, p': nat)
    requires k <= |Glyphs(cs, s)| && p == Off(Glyphs(cs, s), k) < |s|
    ensures
      var g := Glyphs(cs, s);
      && k < |g| && CapLine(p, len) == Range(g, Line(k, LineEnd(g, k, maxW)))
      && p' == Off(g, NextLine(g, k, maxW)) <= |s|
  {
    hide Glyphs, LineEnd, NextLine, Range, Width;
    GlyphsFrom(cs, s, k);
    BeforeEnd(cs, s, k);
    var w;
    w, len := Measure(cs, s[p..], maxW);
    LineLength(cs, s, k, maxW);
    LineInBytes(cs, s, k, maxW);
    p' := p + len;
    if p' < |s| && s[p'] == NEWLINE {
      p' := p' + 1;
    }
  }

  /** wrap_caption; a missing caption is None. */
  method WrapCaption(cs: Charset, caption: Option<seq<byte>>, maxW: int, out: array<CapLine>) returns (n: nat)
    requires out.Length == HARD_CAP
    modifies out
    ensures n <= HARD_CAP && out[..n] == Wrapped(cs, caption, maxW)
  {
    hide Glyphs, LineEnd, NextLine, Range, Ranges;
    if caption.None? || |caption.value| == 0 {
      GlyphsOfNothing(cs);
      NoRanges([], 0, maxW, HARD_CAP);
      return 0;
    }
    var s := caption.value;
    ghost var g, k: nat := Glyphs(cs, s), 0;
    var p := 0;
    n := 0;
    ghost var done: seq<CapLine> := [];
    while p < |s| && n < HARD_CAP
      invariant n <= HARD_CAP && k <= |g| && p == Off(g, k) <= |s|
      invariant |done| == n && forall i :: 0 <= i < n ==> out[i] == done[i]
      invariant done + Ranges(g, k, maxW, HARD_CAP - n) == Ranges(g, 0, maxW, HARD_CAP)
      decreases HARD_CAP - n
    {
      var len, next := NextRange(cs, s, p, maxW, k);
      out[n] := CapLine(p, len);
      RangesStep(g, k, maxW, HARD_CAP - n, done);
      done := done + [CapLine(p, len)];
      n := n + 1;
      p := next;
      k := NextLine(g, k, maxW);
    }
    if p == |s| {
      AllRead(cs, s, k);
    }
    NoRanges(g, k, maxW, HARD_CAP - n);
    assert done + [] == done;
  }

  lemma RangesStep(g: seq<Glyph>, k: nat, maxW: int, cap: nat, done: seq<CapLine>)
    requires k < |g| && cap > 0
    ensures
      var c := Range(g, Line(k, LineEnd(g, k, maxW)));
      done + Ranges(g, k, maxW, cap) == done + [c] + Ranges(g, NextLine(g, k, maxW), maxW, cap - 1)
  {
    hide LineEnd, NextLine, Range;
  }

  lemma NoRanges(g: seq<Glyph>, k: nat, maxW: int, cap: nat)
    requires k <= |g| && (k == |g| || cap == 0)
    ensures Ranges(g, k, maxW, cap) == []
  {
  }

  lemma BeforeEnd(cs: Charset, s: seq<byte>, k: nat)
    requires k <= |Glyphs(cs, s)|
    ensures Off(Glyphs(cs, s), k) < |s| ==> k < |Glyphs(cs, s)|
  {
    OffTotal(cs, s);
  }

  lemma AllRead(cs: Charset, s: seq<byte>, k: nat)
    requires k <= |Glyphs(cs, s)| && Off(Glyphs(cs, s), k) == |s|
    ensures k == |Glyphs(cs, s)|
  {
    AtBoundary(cs, s, k);
  }

  /** Measuring the rest of the text from a boundary gives the greedy line's length. */
  lemma LineLength(cs: Charset, s: seq<byte>, a: nat, maxW: int)
    requires a <= |Glyphs(cs, s)| && Off(Glyphs(cs, s), a) <= |s|
    ensures
      var g := Glyphs(cs, s);
      var t := Glyphs(cs, s[Off(g, a)..]);
      && t == g[a..] && LineEnd(g, a, maxW) == a + FitEnd(t, 0, 0, maxW)
      && Off(t, FitEnd(t, 0, 0, maxW)) == Range(g, Line(a, LineEnd(g, a, maxW))).len
      && Width(t, 0, FitEnd(t, 0, 0, maxW)) == Width(g, a, LineEnd(g, a, maxW))
  {
    hide Glyphs;
    var g := Glyphs(cs, s);
    GlyphsFrom(cs, s, a);
    FitEndShift(g, a, 0, maxW);
    var e := FitEnd(g[a..], 0, 0, maxW);
    OffShift(g, a, e);
    PosShift(g, a, e);
    OffMonotone(g, a, a + e);
  }

  lemma {:induction false} FitEndShift(g: seq<Glyph>, a: nat, e: nat, maxW: int)
    requires a + e <= |g|
    ensures FitEnd(g, a, a + e, maxW) == a + FitEnd(g[a..], 0, e, maxW)
    decreases |g| - e
  {
    hide Pos;
    if a + e < |g| {
      assert g[a..][e] == g[a + e];
      PosShift(g, a, e + 1);
      assert Pos(g[a..], 0) == 0 by {
        PosZero(g[a..]);
      }
      FitEndShift(g, a, e + 1, maxW);
    }
  }

  lemma PosZero(g: seq<Glyph>)
    ensures Pos(g, 0) == 0
  {
  }
}
