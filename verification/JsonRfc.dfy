/** How the accepted language goes beyond RFC 8259: a text has one reading, and is JSON exactly when that is strict. */
module JsonRfc {
  import opened CTypes
  import opened Json
  import opened JsonText
  import opened JsonStrings
  import opened JsonLaws
  import opened JsonSound
  import N = Numerals

  // ---- The characters of RFC 8259 ----------------------------------------

  /** Where a character stands in a table. */
  predicate Stands(c: byte, table: string, k: int) {
    0 <= k < |table| && c as char == table[k]
  }

  /** Sections 2 and 6: blanks, digits and hexadecimal digits of either case. */
  lemma Alphabet(c: byte)
    ensures Blank(c) <==> c as char in " \t\n\r"
    ensures Digit(c) <==> c as char in "0123456789"
    ensures forall d :: 0 <= d < 16 ==>
      (HexDigit(c) == d <==> Stands(c, "0123456789abcdef", d) || Stands(c, "0123456789ABCDEF", d))
  {
    assert Blank(c) <==> c as char == ' ' || c as char == '\t' || c as char == '\n' || c as char == '\r';
    assert Digit(c) ==> "0123456789"[c - 48] == c as char;
    var lower, upper := "0123456789abcdef", "0123456789ABCDEF";
    assert lower[10] == 'a' && lower[11] == 'b' && lower[12] == 'c' && lower[13] == 'd' && lower[14] == 'e';
    assert upper[10] == 'A' && upper[11] == 'B' && upper[12] == 'C' && upper[13] == 'D' && upper[14] == 'E';
  }

  /** Section 7: the characters after a backslash and what they stand for; no others are taken, save `u`. */
  lemma ShortEscapes(c: byte)
    ensures forall k :: Stands(c, "\"\\/bfnrt", k) ==> Stands(ShortEscape(c), "\"\\/\U{08}\U{0C}\n\r\t", k)
    ensures ShortEscape(c) != 0 <==> c as char in "\"\\/bfnrt"
  {
  }

  /** The marks and the three names. */
  lemma Marks()
    ensures [QUOTE, BACKSLASH, LOWER_U] == Ascii("\"\\u")
    ensures [LBRACE, RBRACE, LBRACKET, RBRACKET, COLON, COMMA] == Ascii("{}[]:,")
    ensures [MINUS, PLUS, DOT] == Ascii("-+.")
    ensures Text(STrue) == Ascii("true") && Text(SFalse) == Ascii("false") && Text(SNull) == Ascii("null")
  {
  }

  lemma OneMoreDigit(s: seq<byte>, k: nat)
    requires HexQuad(s) && k < 4 && N.AllDigits(s, 16)
    ensures N.Value(s[..k + 1], 16) == 16 * N.Value(s[..k], 16) + HexDigit(s[k])
  {
    assert s[..k + 1][..k] == s[..k];
  }

  /** Four hexadecimal digits stand for the number they write. */
  lemma QuadIsNumber(s: seq<byte>)
    ensures HexQuad(s) <==> |s| == 4 && N.AllDigits(s, 16)
    ensures HexQuad(s) ==> QuadValue(s) == N.Value(s, 16)
  {
    if |s| == 4 {
      forall i | 0 <= i < 4 ensures HexDigit(s[i]) >= 0 <==> N.IsDigit(s[i], 16) {
      }
    }
    if HexQuad(s) {
      assert N.Value(s[..0], 16) == 0;
      OneMoreDigit(s, 0);
      OneMoreDigit(s, 1);
      OneMoreDigit(s, 2);
      OneMoreDigit(s, 3);
      assert s[..4] == s;
    }
  }

  // ---- RFC 8259, sections 2 to 7 -----------------------------------------

  /** Section 6: digits on both sides of a dot and after an exponent mark, no needless zero in front. */
  predicate StrictNumber(s: Syntax)
    requires s.SNum?
  {
    && s.whole != [] && (|s.whole| > 1 ==> s.whole[0] != 0x30)
    && s.frac != Some([]) && (s.exp.Exponent? ==> s.exp.digits != [])
  }

  /** Section 7: a control character must be escaped. Bytes from 0x80 on are not checked to be UTF-8. */
  predicate StrictItems(xs: seq<Item>) {
    forall i :: 0 <= i < |xs| && xs[i].Raw? ==> xs[i].b >= 0x20
  }

  predicate Strict(s: Syntax) {
    match s
    case SNum(_, _, _, _) => StrictNumber(s)
    case SStr(items) => StrictItems(items)
    case SArr(_, elems) => StrictElements(elems)
    case SObj(_, fields) => StrictFields(fields)
    case _ => true
  }

  predicate StrictElements(es: Elements) {
    es.Elements? ==> Strict(es.value) && StrictElements(es.more)
  }

  predicate StrictFields(fs: Fields) {
    fs.Fields? ==> StrictItems(fs.key) && Strict(fs.value) && StrictFields(fs.more)
  }

  // ---- A number has one reading ------------------------------------------

  lemma SamePrefix(t: seq<byte>, p: nat, r: seq<byte>, s: seq<byte>)
    requires StartsWith(t, p, r) && StartsWith(t, p, s) && |r| == |s|
    ensures r == s
  {
  }

  lemma ExponentIsUnique(x: Exponent, y: Exponent)
    requires ReadableExponent(x) && ReadableExponent(y) && ExponentText(x) == ExponentText(y)
    ensures x == y
  {
    var u, v := ExponentText(x), ExponentText(y);
    if x.Exponent? {
      assert u[0] == x.e && u[1..] == x.sign + x.digits;
      assert v[0] == y.e && v[1..] == y.sign + y.digits;
      SignIsUnique(x.sign, x.digits, y.sign, y.digits);
    }
  }

  lemma SignIsUnique(a: seq<byte>, d: seq<byte>, b: seq<byte>, e: seq<byte>)
    requires Digits(d) && Digits(e) && a + d == b + e
    requires (a == [] || a == [PLUS] || a == [MINUS]) && (b == [] || b == [PLUS] || b == [MINUS])
    ensures a == b && d == e
  {
    var u, v := a + d, b + e;
    assert a != [] ==> u[0] == a[0];
    assert b != [] ==> v[0] == b[0];
    assert a == [] && d != [] ==> u[0] == d[0] && Digit(d[0]);
    assert b == [] && e != [] ==> v[0] == e[0] && Digit(e[0]);
    assert u[|a|..] == d && v[|b|..] == e;
  }

  /** Where a number's parts end, from the text alone. */
  lemma NumberParts(t: seq<byte>, p: nat, s: Syntax)
    requires s.SNum? && Readable(s) && StartsWith(t, p, Text(s)) && Ends(s, t, p + |Text(s)|)
    ensures
      var a := if p < |t| && t[p] == MINUS then p + 1 else p;
      && a <= |t| && s.minus == (a == p + 1)
      && var b := SkipDigits(t, a);
      var c := if b < |t| && t[b] == DOT then SkipDigits(t, b + 1) else b;
      && b == a + |s.whole| && StartsWith(t, a, s.whole)
      && c == b + |FractionText(s.frac)| && StartsWith(t, b, FractionText(s.frac))
      && c + |ExponentText(s.exp)| == p + |Text(s)| && StartsWith(t, c, ExponentText(s.exp))
  {
    hide ExponentText, FractionText, SkipDigits, StartsWith, Digits, Text, ReadableExponent;
    var a, b, c := NumberLayout(t, p, s);
    TailStart(t, c, s);
    ReadsFraction(t, b, s.frac);
    SkipsDigits(t, a, s.whole);
  }

  lemma FractionIsUnique(r: Option<seq<byte>>, s: Option<seq<byte>>)
    requires FractionText(r) == FractionText(s)
    ensures r == s
  {
    if r.Some? && s.Some? {
      assert FractionText(r)[1..] == r.value && FractionText(s)[1..] == s.value;
    }
  }

  lemma NumberIsUnique(t: seq<byte>, p: nat, r: Syntax, s: Syntax)
    requires r.SNum? && Readable(r) && StartsWith(t, p, Text(r)) && Ends(r, t, p + |Text(r)|)
    requires s.SNum? && Readable(s) && StartsWith(t, p, Text(s)) && Ends(s, t, p + |Text(s)|)
    ensures r == s
  {
    hide ExponentText, FractionText, SkipDigits, Text, NumberEnd, Ends;
    NumberParts(t, p, r);
    NumberParts(t, p, s);
    ReadsNumber(t, p, r);
    ReadsNumber(t, p, s);
    hide StartsWith, ParseNumber;
    var a := if t[p] == MINUS then p + 1 else p;
    var b := SkipDigits(t, a);
    SamePrefix(t, a, r.whole, s.whole);
    SamePrefix(t, b, FractionText(r.frac), FractionText(s.frac));
    FractionIsUnique(r.frac, s.frac);
    SamePrefix(t, b + |FractionText(r.frac)|, ExponentText(r.exp), ExponentText(s.exp));
    ExponentIsUnique(r.exp, s.exp);
  }

  // ---- Number tokens -----------------------------------------------------

  /** A number by RFC 8259 section 6. */
  ghost predicate RfcNumber(w: seq<byte>) {
    exists s: Syntax :: s.SNum? && Readable(s) && StrictNumber(s) && Text(s) == w
  }

  /**
   * The parser takes a number token of the looser form, and it is an RFC 8259 number exactly when its whole part is
   * there without a needless zero in front, and digits follow a dot and an exponent mark.
   */
  lemma LooseNumbers(s: Syntax)
    requires s.SNum? && Readable(s)
    ensures ParseText(Text(s)) == Some(Num(Text(s)))
    ensures RfcNumber(Text(s)) <==> StrictNumber(s)
  {
    hide Text, ParseText, Readable, StrictNumber;
    assert [] + Text(s) + [] == Text(s);
    NumberRunsOn(s, [], []);
    if RfcNumber(Text(s)) {
      var r: Syntax :| r.SNum? && Readable(r) && StrictNumber(r) && Text(r) == Text(s);
      var t := Text(s);
      assert t[0..|t|] == t;
      NumberIsUnique(t, 0, r, s);
    }
  }

  /** A text is taken as a number, whole, exactly when it is of the looser form. */
  lemma NumberTokens(w: seq<byte>)
    ensures ParseText(w) == Some(Num(w)) <==> exists s: Syntax :: s.SNum? && Readable(s) && Text(s) == w
  {
    hide Text, ParseText, Readable;
    Language(w, Num(w));
    if ParseText(w) == Some(Num(w)) {
      var before, s, after :| Blanks(before) && Blanks(after) && Readable(s) && Nesting(s) <= 128
        && Kept(s) == Num(w) && w == before + Text(s) + after;
      KeptNumber(s, w);
    }
    if s: Syntax :| s.SNum? && Readable(s) && Text(s) == w {
      LooseNumbers(s);
    }
  }

  lemma KeptNumber(s: Syntax, w: seq<byte>)
    requires Readable(s) && Kept(s) == Num(w)
    ensures s.SNum? && Text(s) == w
  {
  }

  // ---- A text has one reading --------------------------------------------

  /** The first item of a string, from the text alone. */
  lemma ItemIsUnique(t: seq<byte>, p: nat, x: Item, y: Item)
    requires ReadableItem(x) && StartsWith(t, p, ItemText(x)) && (LoneHigh(x) ==> NoUnit(t, p + |ItemText(x)|))
    requires ReadableItem(y) && StartsWith(t, p, ItemText(y)) && (LoneHigh(y) ==> NoUnit(t, p + |ItemText(y)|))
    ensures x == y
  {
    hide Hex, Utf8;
    First(t, p, ItemText(x));
    First(t, p, ItemText(y));
    if !x.Raw? && !y.Raw? {
      EscapeIsUnique(t, p, x, y);
    }
  }

  lemma EscapeIsUnique(t: seq<byte>, p: nat, x: Item, y: Item)
    requires ReadableItem(x) && StartsWith(t, p, ItemText(x)) && (LoneHigh(x) ==> NoUnit(t, p + |ItemText(x)|))
    requires ReadableItem(y) && StartsWith(t, p, ItemText(y)) && (LoneHigh(y) ==> NoUnit(t, p + |ItemText(y)|))
    requires !x.Raw? && !y.Raw?
    ensures x == y
  {
    hide Utf8, Escape, HighSurrogate, ItemValue;
    ReadsEscape(t, p, x);
    ReadsEscape(t, p, y);
    var s, r := ItemText(x), ItemText(y);
    assert |s| == |r|;
    SamePrefix(t, p, s, r);
    assert s[1] == r[1];
    if x.Unit? {
      assert x.hex == s[2..] && y.hex == s[2..];
    } else if x.Pair? {
      assert x.high == s[2..6] && y.high == s[2..6] && x.low == s[8..] && y.low == s[8..];
    }
  }

  lemma {:induction false} ItemsAreUnique(t: seq<byte>, p: nat, xs: seq<Item>, ys: seq<Item>)
    requires ReadableItems(xs) && StartsWith(t, p, ItemsText(xs) + [QUOTE])
    requires ReadableItems(ys) && StartsWith(t, p, ItemsText(ys) + [QUOTE])
    ensures xs == ys
    decreases |xs|
  {
    hide ItemText, StartsWith, ReadableItem, LoneHigh, NoUnit;
    if xs == [] || ys == [] {
      EmptyItems(t, p, xs);
      EmptyItems(t, p, ys);
    } else {
      FirstItem(t, p, xs);
      FirstItem(t, p, ys);
      ItemIsUnique(t, p, xs[0], ys[0]);
      ItemsAreUnique(t, p + |ItemText(xs[0])|, xs[1..], ys[1..]);
      assert xs == [xs[0]] + xs[1..] && ys == [ys[0]] + ys[1..];
    }
  }

  /** No items are there exactly when the quote is next. */
  lemma EmptyItems(t: seq<byte>, p: nat, xs: seq<Item>)
    requires ReadableItems(xs) && StartsWith(t, p, ItemsText(xs) + [QUOTE])
    ensures p < |t| && (xs == [] <==> t[p] == QUOTE)
  {
    First(t, p, ItemsText(xs) + [QUOTE]);
  }

  lemma FirstItem(t: seq<byte>, p: nat, xs: seq<Item>)
    requires xs != [] && ReadableItems(xs) && StartsWith(t, p, ItemsText(xs) + [QUOTE])
    ensures
      var q := p + |ItemText(xs[0])|;
      && StartsWith(t, p, ItemText(xs[0])) && StartsWith(t, q, ItemsText(xs[1..]) + [QUOTE])
      && (LoneHigh(xs[0]) ==> NoUnit(t, q))
  {
    hide ItemText, StartsWith, NoUnit, ReadableItem, LoneHigh;
    var s := ItemText(xs[0]);
    assert ItemsText(xs) + [QUOTE] == s + (ItemsText(xs[1..]) + [QUOTE]);
    Split(t, p, s, ItemsText(xs[1..]) + [QUOTE]);
    if LoneHigh(xs[0]) {
      NoUnitAhead(t, p + |s|, xs[1..]);
    }
  }

  lemma StringIsUnique(t: seq<byte>, p: nat, xs: seq<Item>, ys: seq<Item>)
    requires ReadableItems(xs) && StartsWith(t, p, StringText(xs))
    requires ReadableItems(ys) && StartsWith(t, p, StringText(ys))
    ensures xs == ys
  {
    hide ItemsText, StartsWith, ReadableItems;
    Split(t, p, [QUOTE], ItemsText(xs) + [QUOTE]);
    Split(t, p, [QUOTE], ItemsText(ys) + [QUOTE]);
    ItemsAreUnique(t, p + 1, xs, ys);
  }

  /** Two readable values with the same text at `p`, neither continued by what follows, are the same. */
  lemma {:induction false} ValueIsUnique(t: seq<byte>, p: nat, r: Syntax, s: Syntax)
    requires Readable(r) && StartsWith(t, p, Text(r)) && Ends(r, t, p + |Text(r)|)
    requires Readable(s) && StartsWith(t, p, Text(s)) && Ends(s, t, p + |Text(s)|)
    ensures r == s
    decreases r, 1
  {
    hide StringText, ElementsText, FieldsText, ReadableItems, ReadableElements, ReadableFields, FractionText,
         ExponentText;
    First(t, p, Text(r));
    First(t, p, Text(s));
    Starts(r);
    Starts(s);
    match r
    case SNum(_, _, _, _) => NumberIsUnique(t, p, r, s);
    case SStr(items) => StringIsUnique(t, p, items, s.items);
    case SArr(_, _) => ArrayIsUnique(t, p, r, s);
    case SObj(_, _) => ObjectIsUnique(t, p, r, s);
    case _ =>
  }

  /** A value's first byte tells its kind. */
  lemma Starts(s: Syntax)
    requires Readable(s)
    ensures |Text(s)| > 0
    ensures
      var c := Text(s)[0];
      && (s.SNull? <==> c == 0x6E) && (s.STrue? <==> c == 0x74) && (s.SFalse? <==> c == 0x66)
      && (s.SStr? <==> c == QUOTE) && (s.SArr? <==> c == LBRACKET) && (s.SObj? <==> c == LBRACE)
      && (s.SNum? <==> c == MINUS || Digit(c))
  {
    if s.SNum? && !s.minus {
      assert Text(s)[0] == s.whole[0];
    }
  }

  lemma {:induction false} ArrayIsUnique(t: seq<byte>, p: nat, r: Syntax, s: Syntax)
    requires r.SArr? && Readable(r) && StartsWith(t, p, Text(r))
    requires s.SArr? && Readable(s) && StartsWith(t, p, Text(s))
    ensures r == s
    decreases r, 0
  {
    hide ElementsText, StartsWith, Blanks, SkipBlanks, ReadableElements;
    ArrayLayout(t, p, r);
    ArrayLayout(t, p, s);
    if r.elems.NoElements? {
      SamePrefix(t, p + 1, r.inside, s.inside);
    } else {
      ElementsAreUnique(t, p + 1, r.elems, s.elems);
    }
  }

  /** What follows the bracket tells an empty array from one with elements; the latter holds no other blanks. */
  lemma ArrayLayout(t: seq<byte>, p: nat, s: Syntax)
    requires s.SArr? && Readable(s) && StartsWith(t, p, Text(s))
    ensures
      p + 1 <= |t| && var a := SkipBlanks(t, p + 1);
      && a < |t| && (s.elems.NoElements? <==> t[a] == RBRACKET)
      && (s.elems.NoElements? ==> a == p + 1 + |s.inside| && StartsWith(t, p + 1, s.inside))
      && (s.elems.Elements? ==> StartsWith(t, p + 1, ElementsText(s.elems)))
  {
    hide ElementsText, StartsWith, Blanks, SkipBlanks;
    First(t, p, Text(s));
    if s.elems.NoElements? {
      Split(t, p, [LBRACKET], s.inside + [RBRACKET]);
      Split(t, p + 1, s.inside, [RBRACKET]);
      AfterValue(t, p + 1, s.inside, RBRACKET);
    } else {
      Split(t, p, [LBRACKET], ElementsText(s.elems));
      var a, b, c := ElementsLayout(s.elems, t, p + 1);
    }
  }

  /** The blanks before the first element, its value, and what follows it. */
  lemma FirstElement(t: seq<byte>, p: nat, es: Elements) returns (a: nat, b: nat, c: nat)
    requires es.Elements? && ReadableElements(es) && StartsWith(t, p, ElementsText(es))
    ensures p <= a <= |t| && a == SkipBlanks(t, p) == p + |es.before| && StartsWith(t, p, es.before)
    ensures StartsWith(t, a, Text(es.value)) && Readable(es.value)
    ensures b == a + |Text(es.value)| <= |t| && EndsNumber(t, b)
    ensures c == SkipBlanks(t, b) == b + |es.after| < |t| && StartsWith(t, b, es.after)
    ensures t[c] == (if es.more.Elements? then COMMA else RBRACKET) && ReadableElements(es.more)
    ensures es.more.Elements? ==> StartsWith(t, c + 1, ElementsText(es.more))
  {
    hide SkipBlanks, Text, StartsWith, Blanks, Readable, EndsNumber;
    a, b, c := ValueLayout(t, p, es.before, es.value, es.after, MoreElementsText(es.more));
    Split(t, p, es.before, Text(es.value) + (es.after + MoreElementsText(es.more)));
    Split(t, a, Text(es.value), es.after + MoreElementsText(es.more));
    Split(t, b, es.after, MoreElementsText(es.more));
    if es.more.Elements? {
      assert MoreElementsText(es.more)[1..] == ElementsText(es.more);
    }
  }

  lemma {:induction false} ElementsAreUnique(t: seq<byte>, p: nat, es: Elements, fs: Elements)
    requires es.Elements? && ReadableElements(es) && StartsWith(t, p, ElementsText(es))
    requires fs.Elements? && ReadableElements(fs) && StartsWith(t, p, ElementsText(fs))
    ensures es == fs
    decreases es, 0
  {
    hide ElementsText, Text, StartsWith, Blanks, SkipBlanks, Readable, ReadableElements, EndsNumber, Ends;
    var a, b, c := FirstElement(t, p, es);
    var a', b', c' := FirstElement(t, p, fs);
    SamePrefix(t, p, es.before, fs.before);
    EndsAny(es.value, t, b);
    EndsAny(fs.value, t, b');
    ValueIsUnique(t, a, es.value, fs.value);
    SamePrefix(t, b, es.after, fs.after);
    if es.more.Elements? {
      ElementsAreUnique(t, c + 1, es.more, fs.more);
    }
  }

  lemma {:induction false} ObjectIsUnique(t: seq<byte>, p: nat, r: Syntax, s: Syntax)
    requires r.SObj? && Readable(r) && StartsWith(t, p, Text(r))
    requires s.SObj? && Readable(s) && StartsWith(t, p, Text(s))
    ensures r == s
    decreases r, 0
  {
    hide FieldsText, StartsWith, Blanks, SkipBlanks, ReadableFields;
    ObjectLayout(t, p, r);
    ObjectLayout(t, p, s);
    if r.fields.NoFields? {
      SamePrefix(t, p + 1, r.inside, s.inside);
    } else {
      FieldsAreUnique(t, p + 1, r.fields, s.fields);
    }
  }

  lemma ObjectLayout(t: seq<byte>, p: nat, s: Syntax)
    requires s.SObj? && Readable(s) && StartsWith(t, p, Text(s))
    ensures
      p + 1 <= |t| && var a := SkipBlanks(t, p + 1);
      && a < |t| && (s.fields.NoFields? <==> t[a] == RBRACE)
      && (s.fields.NoFields? ==> a == p + 1 + |s.inside| && StartsWith(t, p + 1, s.inside))
      && (s.fields.Fields? ==> StartsWith(t, p + 1, FieldsText(s.fields)))
  {
    hide FieldsText, StartsWith, Blanks, SkipBlanks, KeyText, ReadableItems, StringText;
    First(t, p, Text(s));
    if s.fields.NoFields? {
      Split(t, p, [LBRACE], s.inside + [RBRACE]);
      Split(t, p + 1, s.inside, [RBRACE]);
      AfterValue(t, p + 1, s.inside, RBRACE);
    } else {
      Split(t, p, [LBRACE], FieldsText(s.fields));
      var k, a, b, c := FieldsLayout(s.fields, t, p + 1);
      ReadsKey(t, p + 1, s.fields);
    }
  }

  /** A key and the blanks around it. */
  lemma KeyParts(t: seq<byte>, p: nat, fs: Fields) returns (q: nat, b: nat)
    requires fs.Fields? && ReadableKey(fs) && StartsWith(t, p, KeyText(fs))
    ensures p <= q <= |t| && q == SkipBlanks(t, p) == p + |fs.beforeKey| && StartsWith(t, p, fs.beforeKey)
    ensures StartsWith(t, q, StringText(fs.key)) && b == q + |StringText(fs.key)| <= |t|
    ensures SkipBlanks(t, b) == b + |fs.afterKey| && StartsWith(t, b, fs.afterKey)
    ensures p + |KeyText(fs)| == b + |fs.afterKey| + 1
  {
    hide StartsWith, Blanks, StringText, SkipBlanks, KeyText, ReadableItems;
    q := KeyLayout(t, p, fs);
    SkipsBlanks(t, p, fs.beforeKey);
    b := q + |StringText(fs.key)|;
    Split(t, b, fs.afterKey, [COLON]);
    First(t, b + |fs.afterKey|, [COLON]);
    SkipsBlanks(t, b, fs.afterKey);
  }

  lemma KeyIsUnique(t: seq<byte>, p: nat, fs: Fields, gs: Fields)
    requires fs.Fields? && ReadableKey(fs) && StartsWith(t, p, KeyText(fs))
    requires gs.Fields? && ReadableKey(gs) && StartsWith(t, p, KeyText(gs))
    ensures fs.beforeKey == gs.beforeKey && fs.key == gs.key && fs.afterKey == gs.afterKey
    ensures |KeyText(fs)| == |KeyText(gs)|
  {
    hide StartsWith, Blanks, StringText, SkipBlanks, KeyText, ReadableItems;
    var q, b := KeyParts(t, p, fs);
    var q', b' := KeyParts(t, p, gs);
    SamePrefix(t, p, fs.beforeKey, gs.beforeKey);
    StringIsUnique(t, q, fs.key, gs.key);
    SamePrefix(t, b, fs.afterKey, gs.afterKey);
  }

  /** The blanks before the first field's value, the value, and what follows it. */
  lemma FirstField(t: seq<byte>, p: nat, fs: Fields) returns (k: nat, a: nat, b: nat, c: nat)
    requires fs.Fields? && ReadableFields(fs) && StartsWith(t, p, FieldsText(fs))
    ensures StartsWith(t, p, KeyText(fs)) && ReadableKey(fs) && k == p + |KeyText(fs)| <= |t|
    ensures k <= a <= |t| && a == SkipBlanks(t, k) == k + |fs.before| && StartsWith(t, k, fs.before)
    ensures StartsWith(t, a, Text(fs.value)) && Readable(fs.value)
    ensures b == a + |Text(fs.value)| <= |t| && EndsNumber(t, b)
    ensures c == SkipBlanks(t, b) == b + |fs.after| < |t| && StartsWith(t, b, fs.after)
    ensures t[c] == (if fs.more.Fields? then COMMA else RBRACE) && ReadableFields(fs.more)
    ensures fs.more.Fields? ==> StartsWith(t, c + 1, FieldsText(fs.more))
  {
    hide SkipBlanks, Text, StartsWith, Blanks, Readable, EndsNumber, KeyText, ReadableItems;
    Split(t, p, KeyText(fs), fs.before + (Text(fs.value) + (fs.after + MoreFieldsText(fs.more))));
    k := p + |KeyText(fs)|;
    a, b, c := ValueLayout(t, k, fs.before, fs.value, fs.after, MoreFieldsText(fs.more));
    Split(t, k, fs.before, Text(fs.value) + (fs.after + MoreFieldsText(fs.more)));
    Split(t, a, Text(fs.value), fs.after + MoreFieldsText(fs.more));
    Split(t, b, fs.after, MoreFieldsText(fs.more));
    if fs.more.Fields? {
      assert MoreFieldsText(fs.more)[1..] == FieldsText(fs.more);
    }
  }

  lemma {:induction false} FieldsAreUnique(t: seq<byte>, p: nat, fs: Fields, gs: Fields)
    requires fs.Fields? && ReadableFields(fs) && StartsWith(t, p, FieldsText(fs))
    requires gs.Fields? && ReadableFields(gs) && StartsWith(t, p, FieldsText(gs))
    ensures fs == gs
    decreases fs, 0
  {
    hide FieldsText, Text, StartsWith, Blanks, SkipBlanks, Readable, ReadableFields, EndsNumber, Ends, KeyText,
         ReadableKey;
    var k, a, b, c := FirstField(t, p, fs);
    var k', a', b', c' := FirstField(t, p, gs);
    KeyIsUnique(t, p, fs, gs);
    SamePrefix(t, k, fs.before, gs.before);
    EndsAny(fs.value, t, b);
    EndsAny(gs.value, t, b');
    ValueIsUnique(t, a, fs.value, gs.value);
    SamePrefix(t, b, fs.after, gs.after);
    if fs.more.Fields? {
      FieldsAreUnique(t, c + 1, fs.more, gs.more);
    }
  }

  // ---- Whole texts -------------------------------------------------------

  /** A text by the grammar of RFC 8259, however deep. */
  ghost predicate RfcText(t: seq<byte>) {
    exists before, s, after ::
      Blanks(before) && Blanks(after) && Readable(s) && Strict(s) && t == before + Text(s) + after
  }

  /** Two readings of a whole text are the same value. */
  lemma TextIsUnique(b: seq<byte>, r: Syntax, a: seq<byte>, b': seq<byte>, s: Syntax, a': seq<byte>)
    requires Blanks(b) && Blanks(a) && Readable(r) && Blanks(b') && Blanks(a') && Readable(s)
    requires b + Text(r) + a == b' + Text(s) + a'
    ensures r == s
  {
    hide Text, Readable, StartsWith, SkipBlanks, Ends, Continues;
    var t := b + Text(r) + a;
    BlankContinuesNone(r, a);
    BlankContinuesNone(s, a');
    Rendered(r, b, a);
    Rendered(s, b', a');
    ValueStart(r);
    ValueStart(s);
    First(t, |b|, Text(r));
    First(t, |b'|, Text(s));
    SkipsBlanks(t, 0, b);
    SkipsBlanks(t, 0, b');
    ValueIsUnique(t, |b|, r, s);
  }

  lemma BlankContinuesNone(s: Syntax, after: seq<byte>)
    requires Blanks(after)
    ensures after != [] ==> !Continues(s, after[0])
  {
  }

  /**
   * An accepted text is JSON by RFC 8259 exactly when the value it renders is strict: its numbers have their digits and
   * no needless zero, and its strings no bare control characters.
   */
  lemma AcceptedIsRfc(before: seq<byte>, s: Syntax, after: seq<byte>)
    requires Blanks(before) && Blanks(after) && Readable(s)
    ensures RfcText(before + Text(s) + after) <==> Strict(s)
  {
    hide Text, Readable, Strict;
    if RfcText(before + Text(s) + after) {
      var b, r, a :| Blanks(b) && Blanks(a) && Readable(r) && Strict(r) && before + Text(s) + after == b + Text(r) + a;
      TextIsUnique(before, s, after, b, r, a);
    }
  }
}
