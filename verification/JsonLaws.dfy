/** What the JSON parser promises about whole texts, nesting and UTF-8. */
module JsonLaws {
  import opened CTypes
  import opened Json
  import opened JsonText
  import opened JsonMeaning

  // ---- Whole texts -------------------------------------------------------

  /** Whatever follows a value's text without continuing it: blanks alone are accepted, with at most 128 levels
      nested. */
  lemma WhatFollows(s: Syntax, before: seq<byte>, after: seq<byte>)
    requires Readable(s) && Blanks(before)
    requires after != [] ==> !Continues(s, after[0])
    ensures ParseText(before + Text(s) + after)
      == if Nesting(s) <= 128 && Blanks(after) then Some(Kept(s)) else None
  {
    hide ParseValue, Text, StartsWith, SkipBlanks, Kept, Nesting;
    var t := before + Text(s) + after;
    var q := |before| + |Text(s)|;
    Rendered(s, before, after);
    ReadsAtTop(s, before, t);
    BlanksToEnd(t, q, after);
  }

  /** Every rendering of a value is accepted exactly when it nests at most 128 deep, and gives what the parser keeps
      of it. */
  lemma ParsesEveryRendering(s: Syntax, before: seq<byte>, after: seq<byte>)
    requires Readable(s) && Blanks(before) && Blanks(after)
    ensures ParseText(before + Text(s) + after) == if Nesting(s) <= 128 then Some(Kept(s)) else None
  {
    hide Text, Kept, Nesting, ParseText;
    WhatFollows(s, before, after);
  }

  /** Parsing undoes a rendering exactly when it nests at most 128 deep and its meaning can be held without loss. */
  lemma RoundTrip(s: Syntax, before: seq<byte>, after: seq<byte>)
    requires Readable(s) && Blanks(before) && Blanks(after)
    ensures ParseText(before + Text(s) + after) == Some(Meaning(s)) <==> Nesting(s) <= 128 && Lossless(s)
  {
    hide Text, Kept, Nesting, ParseText, Meaning;
    ParsesEveryRendering(s, before, after);
    KeptIsMeaning(s);
  }

  /** The escapes \uD800 and \u0041: the decoder merges them into U+2441, and the A is lost. */
  lemma MergedEscapes()
    ensures
      var s := SStr([Pair([0x44, 0x38, 0x30, 0x30], [0x30, 0x30, 0x34, 0x31])]);
      && Readable(s) && ParseText(Text(s)) == Some(Str([0xE2, 0x91, 0x81]))
      && Meaning(s) == Str([0xED, 0xA0, 0x80, 0x41])
  {
    var x := Pair([0x44, 0x38, 0x30, 0x30], [0x30, 0x30, 0x34, 0x31]);
    var s := SStr([x]);
    PairMeans(x);
    hide Text, Meaning, ParseText;
    ParsesEveryRendering(s, [], []);
    assert [] + Text(s) + [] == Text(s);
  }

  lemma PairMeans(x: Item)
    requires x == Pair([0x44, 0x38, 0x30, 0x30], [0x30, 0x30, 0x34, 0x31])
    ensures
      var s := SStr([x]);
      && ReadableItems([x]) && Kept(s) == Str([0xE2, 0x91, 0x81]) && Meaning(s) == Str([0xED, 0xA0, 0x80, 0x41])
  {
    assert QuadValue(x.high) == 0xD800 && QuadValue(x.low) == 0x41;
    assert [x][1..] == [];
    assert ItemsValue([x]) == ItemValue(x) + ItemsValue([]) == [0xE2, 0x91, 0x81];
    var low := Unit(x.low);
    MeaningOfFirst([x]);
    MeaningStep(low, []);
    assert [low] + [] == [low] && CharMeaning(low) == [0x41] && CharsMeaning([low]) == [0x41];
  }

  /** Text other than blanks after a value is rejected, unless it continues a number it follows at once. */
  lemma TrailingTextRejected(s: Syntax, before: seq<byte>, after: seq<byte>, junk: seq<byte>)
    requires Readable(s) && Blanks(before) && Blanks(after)
    requires junk != [] && !Blank(junk[0])
    requires after == [] ==> !Continues(s, junk[0])
    ensures ParseText(before + Text(s) + after + junk) == None
  {
    hide Text, Kept, Nesting, ParseText;
    assert before + Text(s) + after + junk == before + Text(s) + (after + junk);
    assert (after + junk)[|after|] == junk[0];
    WhatFollows(s, before, after + junk);
  }

  // ---- Numbers that run on -----------------------------------------------

  /** The number with one more byte at its end. */
  function Grow(s: Syntax, c: byte): (n: Syntax)
    requires Continues(s, c)
  {
    if s.exp.Exponent? then
      if Digit(c) then s.(exp := s.exp.(digits := s.exp.digits + [c])) else s.(exp := s.exp.(sign := [c]))
    else if c == 0x65 || c == 0x45 then s.(exp := Exponent(c, [], []))
    else if s.frac.Some? then s.(frac := Some(s.frac.value + [c]))
    else if c == DOT then s.(frac := Some([]))
    else s.(whole := s.whole + [c])
  }

  lemma GrowsText(s: Syntax, c: byte)
    requires Readable(s) && Continues(s, c)
    ensures Readable(Grow(s, c)) && Grow(s, c).SNum? && Text(Grow(s, c)) == Text(s) + [c]
  {
    var n := Grow(s, c);
    var m := if s.minus then [MINUS] else [];
    var f, x := FractionText(s.frac), ExponentText(s.exp);
    GrowsTail(s, c);
    hide FractionText, ExponentText;
    if n.whole == s.whole {
      assert m + (s.whole + (f + x)) + [c] == m + (s.whole + (f + x + [c]));
    } else {
      assert m + (s.whole + []) + [c] == m + (s.whole + [c] + []);
    }
  }

  /** Only a digit of the whole part goes before the fraction and the exponent. */
  lemma GrowsTail(s: Syntax, c: byte)
    requires Readable(s) && Continues(s, c)
    ensures
      var n := Grow(s, c);
      var tail, longer := FractionText(s.frac) + ExponentText(s.exp), FractionText(n.frac) + ExponentText(n.exp);
      n.SNum? && if n.whole == s.whole then longer == tail + [c] else n.whole == s.whole + [c] && tail == [] == longer
  {
    var n := Grow(s, c);
    var f, x := FractionText(s.frac), ExponentText(s.exp);
    if s.exp.Exponent? || c == 0x65 || c == 0x45 {
      assert ExponentText(n.exp) == x + [c];
      assert f + (x + [c]) == f + x + [c];
    } else if n.frac.Some? {
      assert x == [] && FractionText(n.frac) == f + [c];
      assert f + [c] + [] == f + [] + [c];
    }
  }

  /** The number as far as the text after it continues it, and what is left of that text. */
  function RunOn(s: Syntax, junk: seq<byte>): (r: (Syntax, seq<byte>))
    decreases |junk|
  {
    if junk != [] && Continues(s, junk[0]) then RunOn(Grow(s, junk[0]), junk[1..]) else (s, junk)
  }

  /** A number takes in whatever continues it; the text is accepted exactly when only blanks are left after that. */
  lemma {:induction false} NumberRunsOn(s: Syntax, before: seq<byte>, junk: seq<byte>)
    requires Readable(s) && s.SNum? && Blanks(before)
    ensures
      var (n, rest) := RunOn(s, junk);
      && n.SNum? && Readable(n) && Text(n) + rest == Text(s) + junk
      && ParseText(before + Text(s) + junk) == if Blanks(rest) then Some(Num(Text(n))) else None
    decreases |junk|
  {
    hide ParseText, Text, Readable;
    if junk != [] && Continues(s, junk[0]) {
      GrowsText(s, junk[0]);
      assert Text(s) + junk == Text(s) + [junk[0]] + junk[1..];
      assert before + Text(s) + junk == before + (Text(s) + [junk[0]]) + junk[1..];
      NumberRunsOn(Grow(s, junk[0]), before, junk[1..]);
    } else {
      WhatFollows(s, before, junk);
    }
  }

  // ---- Where the pieces of a text lie ------------------------------------

  lemma Rendered(s: Syntax, before: seq<byte>, after: seq<byte>)
    requires after != [] ==> !Continues(s, after[0])
    ensures
      var t := before + Text(s) + after;
      && StartsWith(t, 0, before) && StartsWith(t, |before|, Text(s)) && t[|before| + |Text(s)|..] == after
      && Ends(s, t, |before| + |Text(s)|)
  {
    hide Text, Continues;
    var t := before + Text(s) + after;
    var q := |before| + |Text(s)|;
    assert t[..|before|] == before && t[|before|..q] == Text(s);
    if after != [] {
      assert t[q] == after[0];
    }
  }

  lemma ReadsAtTop(s: Syntax, before: seq<byte>, t: seq<byte>)
    requires Readable(s) && Blanks(before)
    requires StartsWith(t, 0, before) && StartsWith(t, |before|, Text(s)) && Ends(s, t, |before| + |Text(s)|)
    ensures |Text(s)| > 0 && t != []
    ensures ParseValue(t, 0, 0) == if Nesting(s) <= MAX_DEPTH then Some((Kept(s), |before| + |Text(s)|)) else None
  {
    hide ParseValue, Text, SkipBlanks, Kept, Nesting, Ends;
    ValueStart(s);
    First(t, |before|, Text(s));
    BlanksBefore(t, 0, before, 0);
    ReadsValue(s, t, |before|, 0);
  }

  /** Skipping blanks reaches the end exactly when there is nothing else. */
  lemma {:induction false} BlanksToEnd(t: seq<byte>, q: nat, after: seq<byte>)
    requires q <= |t| && t[q..] == after
    ensures SkipBlanks(t, q) == |t| <==> Blanks(after)
    decreases |after|
  {
    if after != [] {
      assert t[q] == after[0] && t[q + 1..] == after[1..];
      BlanksToEnd(t, q + 1, after[1..]);
      if Blank(after[0]) && Blanks(after[1..]) {
        assert forall i :: 0 < i < |after| ==> after[i] == after[1..][i - 1];
      }
    }
  }

  // ---- Nesting of whatever is accepted -----------------------------------

  function Depth(v: Value): (d: nat) {
    match v
    case Arr(items) => 1 + ItemsDepth(items)
    case Obj(members) => 1 + MembersDepth(members)
    case _ => 0
  }

  function ItemsDepth(vs: seq<Value>): (d: nat) {
    if vs == [] then 0 else Max(Depth(vs[0]), ItemsDepth(vs[1..]))
  }

  function MembersDepth(ms: seq<Member>): (d: nat) {
    if ms == [] then 0 else Max(Depth(ms[0].value), MembersDepth(ms[1..]))
  }

  /** No accepted text nests deeper than the limit, well-formed or not. */
  lemma AcceptedDepth(t: seq<byte>)
    ensures ParseText(t).Some? ==> Depth(ParseText(t).value) <= 128
  {
    hide ParseValue;
    ValueDepth(t, 0, 0);
  }

  lemma {:induction false} ValueDepth(t: seq<byte>, p: nat, depth: nat)
    requires p <= |t| && depth <= MAX_DEPTH
    ensures ParseValue(t, p, depth).Some? ==> depth + Depth(ParseValue(t, p, depth).value.0) <= MAX_DEPTH
    decreases |t| - p, 1
  {
    hide ParseString, NumberEnd, ParseElements, ParseMembers, SkipBlanks;
    var q := SkipBlanks(t, p);
    if q < |t| && t[q] == LBRACE && depth < MAX_DEPTH {
      var r := SkipBlanks(t, q + 1);
      if ParseMembers(t, r, depth + 1).Some? {
        FieldsDepth(t, r, depth + 1);
      }
    } else if q < |t| && t[q] == LBRACKET && depth < MAX_DEPTH {
      var r := SkipBlanks(t, q + 1);
      if ParseElements(t, r, depth + 1).Some? {
        ElementsDepth(t, r, depth + 1);
      }
    }
  }

  lemma {:induction false} ElementsDepth(t: seq<byte>, p: nat, depth: nat)
    requires p <= |t| && depth <= MAX_DEPTH && ParseElements(t, p, depth).Some?
    ensures depth + ItemsDepth(ParseElements(t, p, depth).value.0) <= MAX_DEPTH
    decreases |t| - p, 2
  {
    hide ParseValue, ParseElements, SkipBlanks;
    ElementsStep(t, p, depth);
    ElementsEnd(t, p, depth);
    ValueDepth(t, p, depth);
    var (v, b) := ParseValue(t, p, depth).value;
    var c := SkipBlanks(t, b);
    if t[c] == COMMA {
      ElementsDepth(t, c + 1, depth);
    } else {
      assert [v] + [] == [v];
      assert ParseElements(t, p, depth) == Some(([v], c + 1));
    }
  }

  /** A list that is read has a first value and then a separator. */
  lemma ElementsEnd(t: seq<byte>, p: nat, depth: nat)
    requires p <= |t| && ParseElements(t, p, depth).Some?
    ensures ParseValue(t, p, depth).Some?
    ensures
      var c := SkipBlanks(t, ParseValue(t, p, depth).value.1);
      c < |t| && (t[c] == COMMA || t[c] == RBRACKET) && (t[c] == COMMA ==> ParseElements(t, c + 1, depth).Some?)
  {
    hide ParseValue, SkipBlanks;
  }

  lemma {:induction false} FieldsDepth(t: seq<byte>, p: nat, depth: nat)
    requires p <= |t| && depth <= MAX_DEPTH && ParseMembers(t, p, depth).Some?
    ensures depth + MembersDepth(ParseMembers(t, p, depth).value.0) <= MAX_DEPTH
    decreases |t| - p, 2
  {
    hide ParseKey, ParseValue, ParseMembers, SkipBlanks;
    MembersEnd(t, p, depth);
    var (key, k) := ParseKey(t, p).value;
    FieldsStep(t, p, k, key, depth);
    ValueDepth(t, k, depth);
    var (v, b) := ParseValue(t, k, depth).value;
    var c := SkipBlanks(t, b);
    if t[c] == COMMA {
      FieldsDepth(t, c + 1, depth);
    } else {
      assert [Member(key, v)] + [] == [Member(key, v)];
    }
  }

  lemma MembersEnd(t: seq<byte>, p: nat, depth: nat)
    requires p <= |t| && ParseMembers(t, p, depth).Some?
    ensures ParseKey(t, p).Some? && ParseValue(t, ParseKey(t, p).value.1, depth).Some?
    ensures
      var c := SkipBlanks(t, ParseValue(t, ParseKey(t, p).value.1, depth).value.1);
      c < |t| && (t[c] == COMMA || t[c] == RBRACE) && (t[c] == COMMA ==> ParseMembers(t, c + 1, depth).Some?)
  {
    hide ParseKey, ParseValue, SkipBlanks;
  }

  // ---- UTF-8 -------------------------------------------------------------

  predicate Tail(b: byte) {
    0x80 <= b <= 0xBF
  }

  /** The well-formed byte sequences of RFC 3629 section 4. */
  predicate WellFormedUtf8(s: seq<byte>) {
    || (|s| == 1 && s[0] <= 0x7F)
    || (|s| == 2 && 0xC2 <= s[0] <= 0xDF && Tail(s[1]))
    || (|s| == 3 && Tail(s[2]) &&
        ((s[0] == 0xE0 && 0xA0 <= s[1] <= 0xBF) || (0xE1 <= s[0] <= 0xEC && Tail(s[1])) ||
         (s[0] == 0xED && 0x80 <= s[1] <= 0x9F) || (0xEE <= s[0] <= 0xEF && Tail(s[1]))))
    || (|s| == 4 && Tail(s[2]) && Tail(s[3]) &&
        ((s[0] == 0xF0 && 0x90 <= s[1] <= 0xBF) || (0xF1 <= s[0] <= 0xF3 && Tail(s[1])) ||
         (s[0] == 0xF4 && 0x80 <= s[1] <= 0x8F)))
  }

  /** The code point a well-formed sequence stands for. */
  function Utf8Value(s: seq<byte>): (cp: int)
    requires WellFormedUtf8(s)
  {
    var a: int := s[0];
    if |s| == 1 then a
    else
      var b: int := s[1];
      if |s| == 2 then (a - 0xC0) * 0x40 + (b - 0x80)
      else
        var c: int := s[2];
        if |s| == 3 then (a - 0xE0) * 0x1000 + (b - 0x80) * 0x40 + (c - 0x80)
        else
          var d: int := s[3];
          (a - 0xF0) * 0x4_0000 + (b - 0x80) * 0x1000 + (c - 0x80) * 0x40 + (d - 0x80)
  }

  predicate Scalar(cp: int) {
    0 <= cp <= 0x10FFFF && !(0xD800 <= cp <= 0xDFFF)
  }

  /** The decoder writes the well-formed UTF-8 of a code point exactly when the code point is a scalar value. */
  lemma Utf8Correct(cp: nat)
    requires cp < 0x20_0000
    ensures WellFormedUtf8(Utf8(cp)) <==> Scalar(cp)
    ensures Scalar(cp) ==> Utf8Value(Utf8(cp)) == cp
  {
    var a := cp / 0x40;
    var b := a / 0x40;
    var c := b / 0x40;
    assert cp / 0x1000 == b && cp / 0x4_0000 == c;
    assert cp == a * 0x40 + cp % 0x40 && a == b * 0x40 + a % 0x40 && b == c * 0x40 + b % 0x40;
  }

  /** A surrogate pair names the scalar values above 0xFFFF, each of them once. */
  lemma AstralCorrect(high: nat, low: nat)
    requires HighSurrogate(high) && LowSurrogate(low)
    ensures 0x1_0000 <= Astral(high, low) <= 0x10FFFF
    ensures (Astral(high, low) - 0x1_0000) / 0x400 + 0xD800 == high
    ensures (Astral(high, low) - 0x1_0000) % 0x400 + 0xDC00 == low
  {
  }
}
