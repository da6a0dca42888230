/** Text as core/font.c sees it: UTF-8 bytes read glyph by glyph, in two widths. */
module Font {
  import opened CTypes

  const FONT_W := 5
  const FONT_H := 7
  const FONT_ADV := 6
  const FONT_LINE := 8
  const FONT_WIDE_LINE := 19
  const HANGUL_W := 18
  const HANGUL_H := 18
  const HANGUL_ADV := 19
  const NEWLINE: byte := 10

  /** The code points that have a Hangul bitmap, in strictly ascending order. */
  type Charset = s: seq<nat> | Ascending(s) witness []

  predicate Ascending(s: seq<nat>) {
    forall i, j :: 0 <= i < j < |s| ==> s[i] < s[j]
  }

  /** hangul_lookup: a binary search that finds a code point exactly when the set has it. */
  method HangulLookup(cs: Charset, cp: nat) returns (idx: int)
    ensures idx == -1 || 0 <= idx < |cs|
    ensures idx >= 0 ==> cs[idx] == cp
    ensures idx < 0 ==> cp !in cs
  {
    var lo, hi := 0, |cs| - 1;
    while lo <= hi
      invariant 0 <= lo <= hi + 1 <= |cs|
      invariant forall i :: 0 <= i < lo ==> cs[i] < cp
      invariant forall i :: hi < i < |cs| ==> cs[i] > cp
      decreases hi + 1 - lo
    {
      var mid := (lo + hi) / 2;
      var v := cs[mid];
      if v == cp {
        return mid;
      }
      if v < cp {
        lo := mid + 1;
      } else {
        hi := mid - 1;
      }
    }
    return -1;
  }

  // ---- One glyph ---------------------------------------------------------

  datatype Shape = Newline | Latin(c: byte) | Hangul(cp: nat) | Blank

  /** The bytes one step of the text walk consumes, and what they show. */
  datatype Glyph = Glyph(len: nat, shape: Shape)

  /** The length a leading byte announces; 1 for an invalid one. */
  function SeqLen(c: byte): (n: nat)
    ensures 1 <= n <= 4
  {
    if 0xC0 <= c < 0xE0 then 2 else if 0xE0 <= c < 0xF0 then 3 else if 0xF0 <= c < 0xF8 then 4 else 1
  }

  /** Whether the text holds `n` bytes, all but the first of them continuation bytes. */
  predicate SeqValid(s: seq<byte>, n: nat) {
    n <= |s| && forall i :: 1 <= i < n ==> 0x80 <= s[i] <= 0xBF
  }

  function GlyphLen(s: seq<byte>): (n: nat)
    requires s != []
    ensures 1 <= n <= |s| && n <= 4
  {
    if 32 <= s[0] <= 126 then 1
    else
      var n := SeqLen(s[0]);
      if n > 1 && !SeqValid(s, n) then 1 else n
  }

  function CodePoint(s: seq<byte>): (cp: nat)
    requires |s| >= 3
  {
    s[0] as int % 16 * 4096 + s[1] as int % 64 * 64 + s[2] as int % 64
  }

  function ShapeOf(cs: Charset, s: seq<byte>): (g: Shape)
    requires s != []
  {
    if s[0] == NEWLINE then Newline
    else if 32 <= s[0] <= 126 then Latin(s[0])
    else if GlyphLen(s) == 3 && CodePoint(s) in cs then Hangul(CodePoint(s))
    else Blank
  }

  /** How far a glyph moves the cursor at scale 1. */
  function Advance(g: Glyph): (a: nat)
    ensures a == FONT_ADV || a == HANGUL_ADV
  {
    if g.shape.Hangul? then HANGUL_ADV else FONT_ADV
  }

  // ---- Texts as glyphs ---------------------------------------------------

  function Glyphs(cs: Charset, s: seq<byte>): (g: seq<Glyph>)
    decreases |s|
  {
    if s == [] then []
    else [Glyph(GlyphLen(s), ShapeOf(cs, s))] + Glyphs(cs, s[GlyphLen(s)..])
  }

  /** The byte offset of the k-th glyph. */
  function Off(g: seq<Glyph>, k: nat): (o: nat)
    requires k <= |g|
    decreases k
  {
    if k == 0 then 0 else Off(g, k - 1) + g[k - 1].len
  }

  /** The cursor's position before the k-th glyph, at scale 1. */
  function Pos(g: seq<Glyph>, k: nat): (x: nat)
    requires k <= |g|
    decreases k
  {
    if k == 0 then 0 else Pos(g, k - 1) + Advance(g[k - 1])
  }

  /** The width of a run of glyphs: the gap after the last one is dropped. */
  function Width(g: seq<Glyph>, a: nat, b: nat): (w: int)
    requires a <= b <= |g|
  {
    if a == b then 0 else Pos(g, b) - Pos(g, a) - 1
  }

  predicate Fits(w: int, maxW: int) {
    maxW < 0 || w <= maxW
  }

  predicate NoNewline(g: seq<Glyph>, a: nat, b: nat)
    requires b <= |g|
  {
    forall k :: a <= k < b ==> !g[k].shape.Newline?
  }

  /** Where the walk from glyph `a` stops, having taken the glyphs before `e`. */
  function FitEnd(g: seq<Glyph>, a: nat, e: nat, maxW: int): (r: nat)
    requires a <= e <= |g|
    ensures e <= r <= |g|
    decreases |g| - e
  {
    if e < |g| && !g[e].shape.Newline? && (e == a || Fits(Width(g, a, e + 1), maxW))
    then FitEnd(g, a, e + 1, maxW) else e
  }

  lemma {:induction false} PosMonotone(g: seq<Glyph>, a: nat, b: nat)
    requires a <= b <= |g|
    ensures Pos(g, a) + FONT_ADV * (b - a) <= Pos(g, b) <= Pos(g, a) + HANGUL_ADV * (b - a)
    decreases b - a
  {
    if a < b {
      PosMonotone(g, a, b - 1);
    }
  }

  // ---- Suffixes and prefixes of a text -----------------------------------

  lemma GlyphsStep(cs: Charset, s: seq<byte>)
    requires s != []
    ensures |Glyphs(cs, s)| > 0 && Glyphs(cs, s)[0] == Glyph(GlyphLen(s), ShapeOf(cs, s))
    ensures Glyphs(cs, s)[1..] == Glyphs(cs, s[GlyphLen(s)..])
  {
    hide GlyphLen, ShapeOf;
  }

  /** Walking on from a glyph boundary sees the remaining glyphs. */
  lemma {:induction false} GlyphsFrom(cs: Charset, s: seq<byte>, k: nat)
    requires k <= |Glyphs(cs, s)|
    ensures Off(Glyphs(cs, s), k) <= |s|
    ensures Glyphs(cs, s[Off(Glyphs(cs, s), k)..]) == Glyphs(cs, s)[k..]
    decreases k
  {
    hide GlyphLen, ShapeOf, Glyphs;
    var g := Glyphs(cs, s);
    if k == 0 {
      assert s[0..] == s && g[0..] == g;
    } else {
      GlyphsFrom(cs, s, k - 1);
      var o := Off(g, k - 1);
      var t := s[o..];
      assert t != [] by {
        GlyphsOfNothing(cs);
      }
      GlyphsStep(cs, t);
      assert g[k - 1..][0] == g[k - 1] && g[k - 1..][1..] == g[k..];
      assert t[GlyphLen(t)..] == s[Off(g, k)..];
    }
  }

  lemma GlyphsOfNothing(cs: Charset)
    ensures Glyphs(cs, []) == []
  {
  }

  /** The glyphs' bytes are the whole text. */
  lemma {:induction false} OffTotal(cs: Charset, s: seq<byte>)
    ensures Off(Glyphs(cs, s), |Glyphs(cs, s)|) == |s|
  {
    hide GlyphLen, ShapeOf, Glyphs;
    var g := Glyphs(cs, s);
    GlyphsFrom(cs, s, |g|);
    var t := s[Off(g, |g|)..];
    if t != [] {
      GlyphsStep(cs, t);
      assert false;
    }
  }

  /** Cutting a text off inside or after its first glyph's continuation bytes: the first glyph only needs its own
      bytes. */
  lemma GlyphCut(cs: Charset, s: seq<byte>, n: nat)
    requires s != [] && GlyphLen(s) <= n <= |s|
    ensures GlyphLen(s[..n]) == GlyphLen(s) && ShapeOf(cs, s[..n]) == ShapeOf(cs, s)
  {
    var m := SeqLen(s[0]);
    assert SeqValid(s[..n], m) ==> SeqValid(s, m);
    assert m <= n && SeqValid(s, m) ==> SeqValid(s[..n], m);
  }

  lemma {:induction false} OffMonotone(g: seq<Glyph>, a: nat, b: nat)
    requires a <= b <= |g|
    ensures Off(g, a) <= Off(g, b)
    decreases b - a
  {
    if a < b {
      OffMonotone(g, a, b - 1);
    }
  }

  lemma {:induction false} OffShift(g: seq<Glyph>, a: nat, k: nat)
    requires a + k <= |g|
    ensures Off(g, a + k) == Off(g, a) + Off(g[a..], k)
    decreases k
  {
    if k > 0 {
      OffShift(g, a, k - 1);
      assert g[a..][k - 1] == g[a + k - 1];
    }
  }

  lemma {:induction false} PosShift(g: seq<Glyph>, a: nat, k: nat)
    requires a + k <= |g|
    ensures Pos(g, a + k) == Pos(g, a) + Pos(g[a..], k)
    decreases k
  {
    hide Advance;
    if k > 0 {
      PosShift(g, a, k - 1);
      assert g[a..][k - 1] == g[a + k - 1];
    }
  }

  lemma OffStarts(g: seq<Glyph>)
    ensures Off(g, 0) == 0 && (g != [] ==> Off(g, 1) == g[0].len)
  {
  }

  /** Cutting a text at or after a glyph boundary leaves the glyphs before it as they were, malformed bytes included. */
  lemma {:induction false} CutAfter(cs: Charset, s: seq<byte>, k: nat, n: nat)
    requires k <= |Glyphs(cs, s)| && Off(Glyphs(cs, s), k) <= n <= |s|
    ensures Glyphs(cs, s[..n]) == Glyphs(cs, s)[..k] + Glyphs(cs, s[Off(Glyphs(cs, s), k)..n])
    decreases k
  {
    hide GlyphLen, ShapeOf, Glyphs, Off;
    var g := Glyphs(cs, s);
    OffStarts(g);
    if k == 0 {
      assert s[0..n] == s[..n] && g[..0] == [];
    } else {
      assert s != [] by {
        GlyphsOfNothing(cs);
      }
      GlyphsStep(cs, s);
      var len := GlyphLen(s);
      var rest := s[len..];
      OffShift(g, 1, k - 1);
      CutAfter(cs, rest, k - 1, n - len);
      var t := s[..n];
      GlyphCut(cs, s, n);
      GlyphsStep(cs, t);
      assert t[len..] == rest[..n - len];
      assert s[Off(g, k)..n] == rest[Off(g[1..], k - 1)..n - len];
      assert Glyphs(cs, t) == [g[0]] + Glyphs(cs, t)[1..];
      assert g[..k] == [g[0]] + g[1..][..k - 1];
    }
  }

  /** Cutting a text at a glyph boundary leaves exactly the glyphs before it. */
  lemma GlyphsCut(cs: Charset, s: seq<byte>, k: nat)
    requires k <= |Glyphs(cs, s)| && Off(Glyphs(cs, s), k) <= |s|
    ensures Glyphs(cs, s[..Off(Glyphs(cs, s), k)]) == Glyphs(cs, s)[..k]
  {
    hide Glyphs;
    var o := Off(Glyphs(cs, s), k);
    CutAfter(cs, s, k, o);
    GlyphsOfNothing(cs);
    assert s[o..o] == [];
  }

  /** Continuation bytes by themselves are a blank each. */
  lemma {:induction false} Continuations(cs: Charset, s: seq<byte>)
    requires forall i :: 0 <= i < |s| ==> 0x80 <= s[i] <= 0xBF
    ensures Glyphs(cs, s) == Repeat(Glyph(1, Blank), |s|)
    decreases |s|
  {
    if s != [] {
      Continuations(cs, s[1..]);
      assert Repeat(Glyph(1, Blank), |s|) == [Glyph(1, Blank)] + Repeat(Glyph(1, Blank), |s| - 1);
    }
  }

  /** A glyph cut short leaves stray bytes, which are a blank each. */
  lemma StrayBytes(cs: Charset, s: seq<byte>, r: nat)
    requires s != [] && r < GlyphLen(s)
    ensures Glyphs(cs, s[..r]) == Repeat(Glyph(1, Blank), r)
  {
    if r > 0 {
      var t := s[..r];
      assert SeqLen(s[0]) > r && SeqValid(s, SeqLen(s[0]));
      assert GlyphLen(t) == 1 && ShapeOf(cs, t) == Blank;
      Continuations(cs, t[1..]);
      assert Repeat(Glyph(1, Blank), r) == [Glyph(1, Blank)] + Repeat(Glyph(1, Blank), r - 1);
    }
  }

  // ---- Measuring ---------------------------------------------------------

  /** The walk shared by font_text_width and font_fit_width. */
  method Measure(cs: Charset, s: seq<byte>, maxW: int) returns (w: int, len: nat)
    ensures
      var g := Glyphs(cs, s);
      var e := FitEnd(g, 0, 0, maxW);
      len == Off(g, e) && w == Width(g, 0, e) && len <= |s|
  {
    hide Glyphs, GlyphLen, ShapeOf, CodePoint;
    ghost var g := Glyphs(cs, s);
    ghost var k := 0;
    var width, any, p := 0, false, 0;
    assert s[0..] == s && g[0..] == g;
    while p < |s| && s[p] != NEWLINE
      invariant p <= |s| && k <= |g| && p == Off(g, k) && Glyphs(cs, s[p..]) == g[k..]
      invariant width == Pos(g, k) && (any <==> k > 0)
      invariant FitEnd(g, 0, k, maxW) == FitEnd(g, 0, 0, maxW)
      decreases |s| - p
    {
      StopsAt(cs, s, p, k);
      GlyphsStep(cs, s[p..]);
      assert g[k..][0] == g[k] && g[k..][1..] == g[k + 1..];
      var adv, n := GlyphStep(cs, s[p..]);
      if maxW >= 0 && any && width + adv - 1 > maxW {
        break;
      }
      assert s[p..][n..] == s[p + n..];
      width := width + adv;
      any := true;
      p := p + n;
      k := k + 1;
    }
    StopsAt(cs, s, p, k);
    len := p;
    w := if any then width - 1 else 0;
  }

  lemma StopsAt(cs: Charset, s: seq<byte>, p: nat, k: nat)
    requires p <= |s| && k <= |Glyphs(cs, s)| && Glyphs(cs, s[p..]) == Glyphs(cs, s)[k..]
    ensures p == |s| ==> k == |Glyphs(cs, s)|
    ensures p < |s| ==> k < |Glyphs(cs, s)| && (s[p] == NEWLINE <==> Glyphs(cs, s)[k].shape.Newline?)
  {
    hide GlyphLen, Glyphs;
    if p == |s| {
      GlyphsOfNothing(cs);
      assert s[p..] == [];
    } else {
      GlyphsStep(cs, s[p..]);
      assert Glyphs(cs, s)[k..][0] == Glyphs(cs, s)[k];
    }
  }

  /** One step of the walk: the advance and byte length of the glyph at the cursor. */
  method GlyphStep(cs: Charset, s: seq<byte>) returns (adv: nat, n: nat)
    requires s != [] && s[0] != NEWLINE
    ensures n == GlyphLen(s) && adv == Advance(Glyph(n, ShapeOf(cs, s)))
  {
    if 32 <= s[0] <= 126 {
      return FONT_ADV, 1;
    }
    n := SeqLen(s[0]);
    if n > 1 {
      var valid := CheckSequence(s, n);
      if !valid {
        n := 1;
      }
    }
    adv := FONT_ADV;
    if n == 3 {
      var idx := HangulLookup(cs, CodePoint(s));
      if idx >= 0 {
        adv := HANGUL_ADV;
      }
    }
  }

  /** utf8_seq_valid */
  method CheckSequence(s: seq<byte>, n: nat) returns (ok: bool)
    requires s != [] && n > 0
    ensures ok <==> SeqValid(s, n)
  {
    for i := 1 to n
      invariant SeqValid(s, i)
    {
      if i >= |s| || !(0x80 <= s[i] <= 0xBF) {
        return false;
      }
    }
    return true;
  }

  /** font_text_width */
  method TextWidth(cs: Charset, s: seq<byte>, scale: int) returns (w: int)
    ensures
      var g := Glyphs(cs, s);
      w == Width(g, 0, FitEnd(g, 0, 0, -1)) * (if scale < 1 then 1 else scale)
  {
    var v, len := Measure(cs, s, -1);
    w := v * (if scale < 1 then 1 else scale);
  }
}
