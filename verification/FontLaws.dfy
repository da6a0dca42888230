/** How core/font.c reads a text: the characters of UTF-8 (RFC 3629), and bytes that are none. */
module FontLaws {
  import opened CTypes
  import opened Font

  /** UTF-8 by the table of RFC 3629 section 3. */
  function Encoded(cp: nat): (s: seq<byte>)
    requires cp <= 0x10FFFF
    ensures 1 <= |s| <= 4
  {
    if cp <= 0x7F then [cp]
    else if cp <= 0x7FF then [192 + cp / 64, 128 + cp % 64]
    else if cp <= 0xFFFF then [224 + cp / 4096, 128 + cp / 64 % 64, 128 + cp % 64]
    else [240 + cp / 262144, 128 + cp / 4096 % 64, 128 + cp / 64 % 64, 128 + cp % 64]
  }

  /** What a character is drawn as: printable ASCII and the font's own syllables have a bitmap. */
  function Drawn(cs: Charset, cp: nat): (g: Shape) {
    if cp == 10 then Newline
    else if 32 <= cp <= 126 then Latin(cp)
    else if 0x800 <= cp <= 0xFFFF && cp in cs then Hangul(cp)
    else Blank
  }

  /** A character of UTF-8 is one glyph as long as its bytes, whatever follows it. */
  lemma ReadsCharacter(cs: Charset, cp: nat, rest: seq<byte>)
    requires cp <= 0x10FFFF
    ensures Glyphs(cs, Encoded(cp) + rest) == [Glyph(|Encoded(cp)|, Drawn(cs, cp))] + Glyphs(cs, rest)
  {
    hide Glyphs;
    var (u, s) := (Encoded(cp), Encoded(cp) + rest);
    if 0x800 <= cp <= 0xFFFF {
      ThreeBack(cp);
    }
    assert forall i :: 0 <= i < |u| ==> s[i] == u[i];
    assert SeqValid(s, |u|);
    GlyphsStep(cs, s);
    assert s[|u|..] == rest;
    assert Glyphs(cs, s) == [Glyphs(cs, s)[0]] + Glyphs(cs, s)[1..];
  }

  lemma ThreeBack(cp: nat)
    requires 0x800 <= cp <= 0xFFFF
    ensures cp / 4096 * 4096 + cp / 64 % 64 * 64 + cp % 64 == cp
  {
    var q := cp / 64;
    assert cp == q * 64 + cp % 64 && q == q / 64 * 64 + q % 64 && cp / 4096 == q / 64;
  }

  /** A byte that starts no sequence, or one whose continuation bytes are not there, is a blank by itself. */
  lemma ReadsStrayByte(cs: Charset, s: seq<byte>)
    requires s != [] && s[0] >= 128
    requires
      var n := if s[0] < 0xC0 || s[0] >= 0xF8 then 1 else if s[0] < 0xE0 then 2 else if s[0] < 0xF0 then 3 else 4;
      n == 1 || |s| < n || exists i :: 1 <= i < n && !(128 <= s[i] < 192)
    ensures Glyphs(cs, s) == [Glyph(1, Blank)] + Glyphs(cs, s[1..])
  {
    hide Glyphs;
    GlyphsStep(cs, s);
    assert Glyphs(cs, s) == [Glyphs(cs, s)[0]] + Glyphs(cs, s)[1..];
  }

  /** The columns that n glyphs take with the gap after each: a syllable is 18 wide, everything else 5. */
  function ColumnsOf(g: seq<Glyph>, n: nat): (w: nat)
    requires n <= |g|
  {
    if n == 0 then 0 else ColumnsOf(g, n - 1) + if g[n - 1].shape.Hangul? then 19 else 6
  }

  lemma {:induction false} ColumnsAre(g: seq<Glyph>, n: nat)
    requires n <= |g|
    ensures ColumnsOf(g, n) == Pos(g, n)
  {
    if n > 0 {
      ColumnsAre(g, n - 1);
    }
  }

  /** What the walk has taken fits, and it stops only at a newline, at the end, or where one more glyph would not. */
  lemma {:induction false} WalkStops(g: seq<Glyph>, e: nat, maxW: int)
    requires e <= |g| && NoNewline(g, 0, e) && (maxW >= 0 && e > 1 ==> ColumnsOf(g, e) - 1 <= maxW)
    ensures
      var r := FitEnd(g, 0, e, maxW);
      && NoNewline(g, 0, r) && (maxW >= 0 && r > 1 ==> ColumnsOf(g, r) - 1 <= maxW)
      && (r < |g| && !g[r].shape.Newline? ==> r > 0 && 0 <= maxW < ColumnsOf(g, r + 1) - 1)
    decreases |g| - e
  {
    if e < |g| {
      ColumnsAre(g, e + 1);
      if !g[e].shape.Newline? && (e == 0 || Fits(Width(g, 0, e + 1), maxW)) {
        WalkStops(g, e + 1, maxW);
      }
    }
  }

  /** A line takes the longest run of glyphs before a newline that is at most `maxW` pixels wide without its last gap,
      but one glyph at least, and every glyph when the width is negative. */
  lemma TakesMost(g: seq<Glyph>, maxW: int)
    ensures
      var r := FitEnd(g, 0, 0, maxW);
      && NoNewline(g, 0, r) && (maxW >= 0 && r > 1 ==> ColumnsOf(g, r) - 1 <= maxW)
      && (r < |g| && !g[r].shape.Newline? ==> r > 0 && 0 <= maxW < ColumnsOf(g, r + 1) - 1)
  {
    WalkStops(g, 0, maxW);
  }
}
