/** The texts the parser takes for a JSON value, those of RFC 8259 among them, and that it reads each of them back. */
module JsonText {
  import opened CTypes
  import opened Json

  // ---- Concrete syntax ---------------------------------------------------

  /** One way to write a character (or, for Raw, one byte of it) inside a string. */
  datatype Item =
    | Raw(b: byte)
    | Short(c: byte)
    | Unit(hex: seq<byte>)
    | Pair(high: seq<byte>, low: seq<byte>)

  datatype Exponent = NoExponent | Exponent(e: byte, sign: seq<byte>, digits: seq<byte>)

  /** A value as written: every choice of blanks, escapes and number form; `inside` is what an empty container holds. */
  datatype Syntax =
    | SNull
    | STrue
    | SFalse
    | SNum(minus: bool, whole: seq<byte>, frac: Option<seq<byte>>, exp: Exponent)
    | SStr(items: seq<Item>)
    | SArr(inside: seq<byte>, elems: Elements)
    | SObj(inside: seq<byte>, fields: Fields)

  datatype Elements = NoElements | Elements(before: seq<byte>, value: Syntax, after: seq<byte>, more: Elements)

  datatype Fields =
    | NoFields
    | Fields(beforeKey: seq<byte>, key: seq<Item>, afterKey: seq<byte>,
             before: seq<byte>, value: Syntax, after: seq<byte>, more: Fields)

  predicate Blanks(s: seq<byte>) {
    forall i :: 0 <= i < |s| ==> Blank(s[i])
  }

  predicate Digits(s: seq<byte>) {
    forall i :: 0 <= i < |s| ==> Digit(s[i])
  }

  predicate HexQuad(s: seq<byte>) {
    |s| == 4 && forall i :: 0 <= i < 4 ==> HexDigit(s[i]) >= 0
  }

  function QuadValue(s: seq<byte>): (v: nat)
    requires HexQuad(s)
    ensures v < 0x1_0000
  {
    HexDigit(s[0]) * 0x1000 + HexDigit(s[1]) * 0x100 + HexDigit(s[2]) * 0x10 + HexDigit(s[3])
  }

  predicate ReadableItem(x: Item) {
    match x
    case Raw(b) => b != QUOTE && b != BACKSLASH
    case Short(c) => c != LOWER_U && ShortEscape(c) != 0
    case Unit(hex) => HexQuad(hex)
    case Pair(high, low) => HexQuad(high) && HexQuad(low) && HighSurrogate(QuadValue(high))
  }

  /** A \u escape that names a high surrogate and is no pair. */
  predicate LoneHigh(x: Item)
    requires ReadableItem(x)
  {
    x.Unit? && HighSurrogate(QuadValue(x.hex))
  }

  /** Items as the decoder tells them apart: a high surrogate with a \u escape after it is a pair. */
  predicate ReadableItems(xs: seq<Item>) {
    xs != [] ==>
      && ReadableItem(xs[0]) && ReadableItems(xs[1..])
      && (LoneHigh(xs[0]) && |xs| > 1 ==> !xs[1].Unit? && !xs[1].Pair?)
  }

  predicate ReadableExponent(x: Exponent) {
    x.Exponent? ==>
      (x.e == 0x65 || x.e == 0x45) && (x.sign == [] || x.sign == [PLUS] || x.sign == [MINUS]) && Digits(x.digits)
  }

  /** What the parser takes: the grammar of RFC 8259 with looser numbers and with any bytes in strings. */
  predicate Readable(s: Syntax) {
    match s
    case SNull => true
    case STrue => true
    case SFalse => true
    case SNum(minus, whole, frac, exp) =>
      && Digits(whole) && (frac.Some? ==> Digits(frac.value)) && ReadableExponent(exp)
      && (whole == [] ==> minus && (frac.Some? || exp.Exponent?))
    case SStr(items) => ReadableItems(items)
    case SArr(inside, elems) => Blanks(inside) && ReadableElements(elems) && (elems.Elements? ==> inside == [])
    case SObj(inside, fields) => Blanks(inside) && ReadableFields(fields) && (fields.Fields? ==> inside == [])
  }

  predicate ReadableElements(es: Elements) {
    es.Elements? ==> Blanks(es.before) && Readable(es.value) && Blanks(es.after) && ReadableElements(es.more)
  }

  /** A field's key and the blanks around it. */
  predicate ReadableKey(fs: Fields)
    requires fs.Fields?
  {
    Blanks(fs.beforeKey) && ReadableItems(fs.key) && Blanks(fs.afterKey)
  }

  predicate ReadableFields(fs: Fields) {
    fs.Fields? ==>
      ReadableKey(fs) && Blanks(fs.before) && Readable(fs.value) && Blanks(fs.after) && ReadableFields(fs.more)
  }

  // ---- The text ----------------------------------------------------------

  function ItemText(x: Item): (s: seq<byte>)
    ensures |s| > 0
  {
    match x
    case Raw(b) => [b]
    case Short(c) => [BACKSLASH, c]
    case Unit(hex) => [BACKSLASH, LOWER_U] + hex
    case Pair(high, low) => [BACKSLASH, LOWER_U] + high + ([BACKSLASH, LOWER_U] + low)
  }

  function ItemsText(xs: seq<Item>): (s: seq<byte>) {
    if xs == [] then [] else ItemText(xs[0]) + ItemsText(xs[1..])
  }

  function StringText(xs: seq<Item>): (s: seq<byte>)
    ensures |s| >= 2 && s[0] == QUOTE
  {
    [QUOTE] + (ItemsText(xs) + [QUOTE])
  }

  function ExponentText(x: Exponent): (s: seq<byte>) {
    if x.Exponent? then [x.e] + (x.sign + x.digits) else []
  }

  function FractionText(frac: Option<seq<byte>>): (s: seq<byte>) {
    if frac.None? then [] else [DOT] + frac.value
  }

  function Text(s: Syntax): (r: seq<byte>) {
    match s
    case SNull => NULL_TEXT
    case STrue => TRUE_TEXT
    case SFalse => FALSE_TEXT
    case SNum(minus, whole, frac, exp) =>
      (if minus then [MINUS] else []) + (whole + (FractionText(frac) + ExponentText(exp)))
    case SStr(items) => StringText(items)
    case SArr(inside, elems) => [LBRACKET] + (if elems.NoElements? then inside + [RBRACKET] else ElementsText(elems))
    case SObj(inside, fields) => [LBRACE] + (if fields.NoFields? then inside + [RBRACE] else FieldsText(fields))
  }

  /** The closing bracket, or a comma and the elements after it. */
  function MoreElementsText(es: Elements): (r: seq<byte>)
    ensures |r| > 0 && r[0] == if es.NoElements? then RBRACKET else COMMA
    decreases es, 1
  {
    if es.NoElements? then [RBRACKET] else [COMMA] + ElementsText(es)
  }

  function ElementsText(es: Elements): (r: seq<byte>)
    requires es.Elements?
    decreases es, 0
  {
    es.before + (Text(es.value) + (es.after + MoreElementsText(es.more)))
  }

  /** A field's key up to and including the colon. */
  function KeyText(fs: Fields): (r: seq<byte>)
    requires fs.Fields?
  {
    fs.beforeKey + (StringText(fs.key) + (fs.afterKey + [COLON]))
  }

  /** The closing brace, or a comma and the fields after it. */
  function MoreFieldsText(fs: Fields): (r: seq<byte>)
    ensures |r| > 0 && r[0] == if fs.NoFields? then RBRACE else COMMA
    decreases fs, 1
  {
    if fs.NoFields? then [RBRACE] else [COMMA] + FieldsText(fs)
  }

  function FieldsText(fs: Fields): (r: seq<byte>)
    requires fs.Fields?
    decreases fs, 0
  {
    KeyText(fs) + (fs.before + (Text(fs.value) + (fs.after + MoreFieldsText(fs.more))))
  }

  // ---- The value ---------------------------------------------------------

  /** The bytes the decoder makes of a string item: the UTF-8 form of the code point it assembles. */
  function ItemValue(x: Item): (s: seq<byte>)
    requires ReadableItem(x)
  {
    match x
    case Raw(b) => [b]
    case Short(c) => [ShortEscape(c)]
    case Unit(hex) => Utf8(QuadValue(hex))
    case Pair(high, low) => Utf8(Astral(QuadValue(high), QuadValue(low)))
  }

  function ItemsValue(xs: seq<Item>): (s: seq<byte>)
    requires ReadableItems(xs)
  {
    if xs == [] then [] else ItemValue(xs[0]) + ItemsValue(xs[1..])
  }

  function Max(a: nat, b: nat): (m: nat) {
    if a > b then a else b
  }

  /** How many containers deep a value nests. */
  function Nesting(s: Syntax): (d: nat) {
    match s
    case SArr(_, elems) => 1 + ElementsNesting(elems)
    case SObj(_, fields) => 1 + FieldsNesting(fields)
    case _ => 0
  }

  function ElementsNesting(es: Elements): (d: nat) {
    if es.NoElements? then 0 else Max(Nesting(es.value), ElementsNesting(es.more))
  }

  function FieldsNesting(fs: Fields): (d: nat) {
    if fs.NoFields? then 0 else Max(Nesting(fs.value), FieldsNesting(fs.more))
  }

  /** What the parser keeps of a value: a key is held as a C string and ends at its first NUL. */
  function Kept(s: Syntax): (v: Value)
    requires Readable(s)
  {
    match s
    case SNull => Null
    case STrue => Bool(true)
    case SFalse => Bool(false)
    case SNum(_, _, _, _) => Num(Text(s))
    case SStr(items) => Str(ItemsValue(items))
    case SArr(_, elems) => Arr(ElementsKept(elems))
    case SObj(_, fields) => Obj(FieldsKept(fields))
  }

  function ElementsKept(es: Elements): (vs: seq<Value>)
    requires ReadableElements(es)
  {
    if es.NoElements? then [] else [Kept(es.value)] + ElementsKept(es.more)
  }

  function FieldsKept(fs: Fields): (ms: seq<Member>)
    requires ReadableFields(fs)
  {
    if fs.NoFields? then [] else [Member(CString(ItemsValue(fs.key)), Kept(fs.value))] + FieldsKept(fs.more)
  }

  // ---- Reading tokens ----------------------------------------------------

  lemma Split(t: seq<byte>, p: nat, a: seq<byte>, b: seq<byte>)
    requires StartsWith(t, p, a + b)
    ensures StartsWith(t, p, a) && StartsWith(t, p + |a|, b)
  {
    assert t[p..p + |a|] == t[p..p + |a + b|][..|a|];
    assert t[p + |a|..p + |a| + |b|] == t[p..p + |a + b|][|a|..];
  }

  lemma First(t: seq<byte>, p: nat, s: seq<byte>)
    requires StartsWith(t, p, s) && |s| > 0
    ensures p < |t| && t[p] == s[0]
  {
    assert t[p..p + |s|][0] == t[p];
  }

  lemma {:induction false} SkipsBlanks(t: seq<byte>, p: nat, s: seq<byte>)
    requires StartsWith(t, p, s) && Blanks(s)
    requires p + |s| < |t| ==> !Blank(t[p + |s|])
    ensures SkipBlanks(t, p) == p + |s|
    decreases |s|
  {
    if s != [] {
      assert s == [s[0]] + s[1..];
      Split(t, p, [s[0]], s[1..]);
      First(t, p, s);
      SkipsBlanks(t, p + 1, s[1..]);
    }
  }

  lemma {:induction false} SkipsDigits(t: seq<byte>, p: nat, s: seq<byte>)
    requires StartsWith(t, p, s) && Digits(s)
    requires p + |s| < |t| ==> !Digit(t[p + |s|])
    ensures SkipDigits(t, p) == p + |s|
    decreases |s|
  {
    if s != [] {
      assert s == [s[0]] + s[1..];
      Split(t, p, [s[0]], s[1..]);
      First(t, p, s);
      SkipsDigits(t, p + 1, s[1..]);
    }
  }

  lemma ReadsHex(t: seq<byte>, p: nat, s: seq<byte>)
    requires StartsWith(t, p, s) && HexQuad(s)
    ensures Hex(t, p, 4, 0) == HexRun(true, QuadValue(s), p + 4)
  {
    var u := t[p..p + 4];
    assert u[0] == t[p] && u[1] == t[p + 1] && u[2] == t[p + 2] && u[3] == t[p + 3];
    var a := HexDigit(s[0]);
    var b := a * 16 + HexDigit(s[1]);
    var c := b * 16 + HexDigit(s[2]);
    assert Hex(t, p + 4, 0, c * 16 + HexDigit(s[3])) == HexRun(true, QuadValue(s), p + 4);
    assert Hex(t, p + 3, 1, c) == HexRun(true, QuadValue(s), p + 4);
    assert Hex(t, p + 2, 2, b) == HexRun(true, QuadValue(s), p + 4);
    assert Hex(t, p + 1, 3, a) == HexRun(true, QuadValue(s), p + 4);
  }

  /** Each escape is read whole, as the code point the decoder assembles from it. */
  lemma ReadsEscape(t: seq<byte>, p: nat, x: Item)
    requires ReadableItem(x) && !x.Raw? && StartsWith(t, p, ItemText(x))
    requires LoneHigh(x) ==> NoUnit(t, p + |ItemText(x)|)
    ensures Escape(t, p + 1) == Done(ItemValue(x), p + |ItemText(x)|)
  {
    hide Utf8, Hex, StartsWith, ShortEscape;
    match x
    case Raw(_) =>
    case Short(c) =>
      assert ItemText(x) == [BACKSLASH] + [c];
      Split(t, p, [BACKSLASH], [c]);
      First(t, p + 1, [c]);
    case Unit(hex) =>
      MarkedQuad(t, p, hex);
    case Pair(high, low) =>
      Split(t, p, [BACKSLASH, LOWER_U] + high, [BACKSLASH, LOWER_U] + low);
      MarkedQuad(t, p, high);
      MarkedQuad(t, p + 6, low);
  }

  lemma MarkedQuad(t: seq<byte>, p: nat, hex: seq<byte>)
    requires HexQuad(hex) && StartsWith(t, p, [BACKSLASH, LOWER_U] + hex)
    ensures p + 6 <= |t| && t[p] == BACKSLASH && t[p + 1] == LOWER_U
    ensures Hex(t, p + 2, 4, 0) == HexRun(true, QuadValue(hex), p + 6)
  {
    Split(t, p, [BACKSLASH, LOWER_U], hex);
    assert t[p..p + 2][0] == t[p] && t[p..p + 2][1] == t[p + 1];
    ReadsHex(t, p + 2, hex);
  }

  /** No \u escape starts at `q`. */
  predicate NoUnit(t: seq<byte>, q: nat) {
    q + 1 < |t| ==> t[q] != BACKSLASH || t[q + 1] != LOWER_U
  }

  lemma ReadsItem(t: seq<byte>, p: nat, x: Item)
    requires ReadableItem(x) && StartsWith(t, p, ItemText(x))
    requires LoneHigh(x) ==> NoUnit(t, p + |ItemText(x)|)
    ensures StringTail(t, p) == Prepend(ItemValue(x), StringTail(t, p + |ItemText(x)|))
  {
    hide Escape, Utf8;
    First(t, p, ItemText(x));
    if !x.Raw? {
      ReadsEscape(t, p, x);
    }
  }

  /** The text of items with no \u escape in front starts with none. */
  lemma NoUnitAhead(t: seq<byte>, q: nat, xs: seq<Item>)
    requires ReadableItems(xs) && StartsWith(t, q, ItemsText(xs) + [QUOTE])
    requires xs != [] ==> !xs[0].Unit? && !xs[0].Pair?
    ensures NoUnit(t, q)
  {
    if xs == [] {
      assert [] + [QUOTE] == [QUOTE];
      First(t, q, [QUOTE]);
    } else {
      var s := ItemText(xs[0]);
      assert ItemsText(xs) + [QUOTE] == s + (ItemsText(xs[1..]) + [QUOTE]);
      Split(t, q, s, ItemsText(xs[1..]) + [QUOTE]);
      First(t, q, s);
      if xs[0].Short? {
        assert t[q..q + 2][1] == t[q + 1];
      }
    }
  }

  lemma {:induction false} ReadsItems(t: seq<byte>, p: nat, xs: seq<Item>)
    requires ReadableItems(xs) && StartsWith(t, p, ItemsText(xs) + [QUOTE])
    ensures StringTail(t, p) == Done(ItemsValue(xs), p + |ItemsText(xs)| + 1)
    decreases |xs|
  {
    hide ItemValue, ItemText, StringTail, StartsWith, ReadableItem, LoneHigh, NoUnit;
    if xs == [] {
      assert [] + [QUOTE] == [QUOTE];
      First(t, p, [QUOTE]);
      ClosesString(t, p);
    } else {
      var s := ItemText(xs[0]);
      assert ItemsText(xs) + [QUOTE] == s + (ItemsText(xs[1..]) + [QUOTE]);
      Split(t, p, s, ItemsText(xs[1..]) + [QUOTE]);
      ReadsItems(t, p + |s|, xs[1..]);
      if LoneHigh(xs[0]) {
        NoUnitAhead(t, p + |s|, xs[1..]);
      }
      ReadsItem(t, p, xs[0]);
    }
  }

  lemma ClosesString(t: seq<byte>, p: nat)
    requires p < |t| && t[p] == QUOTE
    ensures StringTail(t, p) == Done([], p + 1)
  {
  }

  lemma ReadsString(t: seq<byte>, p: nat, xs: seq<Item>)
    requires ReadableItems(xs) && StartsWith(t, p, StringText(xs))
    ensures ParseString(t, p) == Some((ItemsValue(xs), p + |StringText(xs)|))
    ensures p < |t| && t[p] == QUOTE
  {
    hide ItemsText, ItemsValue, StringTail;
    First(t, p, StringText(xs));
    Split(t, p, [QUOTE], ItemsText(xs) + [QUOTE]);
    ReadsItems(t, p + 1, xs);
  }

  /** Whether a byte right after a number's text belongs to the number too. */
  predicate Continues(s: Syntax, c: byte) {
    && s.SNum?
    && (|| Digit(c)
        || (c == DOT && s.frac.None? && s.exp.NoExponent?)
        || ((c == 0x65 || c == 0x45) && s.exp.NoExponent?)
        || ((c == PLUS || c == MINUS) && s.exp.Exponent? && s.exp.sign == [] && s.exp.digits == []))
  }

  /** The value ends at `q`: what follows there does not continue it. */
  predicate Ends(s: Syntax, t: seq<byte>, q: nat) {
    q < |t| ==> !Continues(s, t[q])
  }

  /** The text at `q` continues no number at all. */
  predicate EndsNumber(t: seq<byte>, q: nat) {
    q < |t| ==> !Digit(t[q]) && t[q] != DOT && t[q] != 0x65 && t[q] != 0x45 && t[q] != PLUS && t[q] != MINUS
  }

  lemma EndsAny(s: Syntax, t: seq<byte>, q: nat)
    requires EndsNumber(t, q)
    ensures Ends(s, t, q)
  {
  }

  /** Where the parts of a number lie. */
  lemma NumberLayout(t: seq<byte>, p: nat, s: Syntax) returns (a: nat, b: nat, c: nat)
    requires s.SNum? && Readable(s) && StartsWith(t, p, Text(s))
    ensures a == if s.minus then p + 1 else p
    ensures b == a + |s.whole| && c == b + |FractionText(s.frac)| && p + |Text(s)| == c + |ExponentText(s.exp)|
    ensures StartsWith(t, a, s.whole) && StartsWith(t, c, ExponentText(s.exp))
    ensures StartsWith(t, b, FractionText(s.frac))
    ensures p < |t| && (t[p] == MINUS <==> s.minus) && (s.minus || Digit(t[p]))
  {
    hide ExponentText, FractionText, StartsWith, ReadableExponent;
    var m := if s.minus then [MINUS] else [];
    var f, x := FractionText(s.frac), ExponentText(s.exp);
    Split(t, p, m, s.whole + (f + x));
    a := p + |m|;
    Split(t, a, s.whole, f + x);
    b := a + |s.whole|;
    Split(t, b, f, x);
    c := b + |f|;
    if s.minus {
      First(t, p, m);
    } else {
      First(t, a, s.whole);
    }
  }

  /** What stops the digits before an exponent, or before the end of the number. */
  lemma TailStart(t: seq<byte>, c: nat, s: Syntax)
    requires s.SNum? && ReadableExponent(s.exp) && StartsWith(t, c, ExponentText(s.exp))
    requires Ends(s, t, c + |ExponentText(s.exp)|)
    ensures c < |t| ==> !Digit(t[c]) && (t[c] == DOT ==> s.frac.Some?)
    ensures (c < |t| && (t[c] == 0x65 || t[c] == 0x45)) <==> s.exp.Exponent?
  {
    if s.exp.Exponent? {
      First(t, c, ExponentText(s.exp));
    }
  }

  /** The fraction, if any, ends at `c`. */
  lemma ReadsFraction(t: seq<byte>, b: nat, frac: Option<seq<byte>>)
    requires (frac.Some? ==> Digits(frac.value)) && StartsWith(t, b, FractionText(frac))
    requires
      var c := b + |FractionText(frac)|;
      c < |t| ==> !Digit(t[c]) && (t[c] == DOT ==> frac.Some?)
    ensures
      var c := b + |FractionText(frac)|;
      c == if b < |t| && t[b] == DOT then SkipDigits(t, b + 1) else b
    ensures b < |t| ==> !Digit(t[b])
  {
    if frac.Some? {
      First(t, b, FractionText(frac));
      Split(t, b, [DOT], frac.value);
      SkipsDigits(t, b + 1, frac.value);
    }
  }

  /** Where an exponent's digits lie. */
  lemma ExponentParts(t: seq<byte>, p: nat, x: Exponent) returns (q: nat)
    requires ReadableExponent(x) && x.Exponent? && StartsWith(t, p, ExponentText(x))
    ensures p < |t| && t[p] == x.e && q == p + 1 + |x.sign| <= |t| && StartsWith(t, q, x.digits)
    ensures q + |x.digits| == p + |ExponentText(x)|
    ensures x.sign != [] ==> t[p + 1] == x.sign[0]
    ensures x.digits != [] ==> q < |t| && Digit(t[q])
  {
    hide StartsWith;
    q := p + 1 + |x.sign|;
    First(t, p, ExponentText(x));
    Split(t, p, [x.e], x.sign + x.digits);
    Split(t, p + 1, x.sign, x.digits);
    if x.sign != [] {
      First(t, p + 1, x.sign);
    }
    if x.digits != [] {
      First(t, q, x.digits);
    }
    StartsInText(t, q, x.digits);
  }

  lemma StartsInText(t: seq<byte>, p: nat, s: seq<byte>)
    requires StartsWith(t, p, s)
    ensures p + |s| <= |t|
  {
  }

  lemma ReadsExponent(t: seq<byte>, p: nat, s: Syntax)
    requires s.SNum? && ReadableExponent(s.exp) && s.exp.Exponent?
    requires StartsWith(t, p, ExponentText(s.exp)) && Ends(s, t, p + |ExponentText(s.exp)|)
    ensures
      var d := p + 1;
      d <= |t| &&
      SkipDigits(t, if d < |t| && (t[d] == PLUS || t[d] == MINUS) then d + 1 else d) == p + |ExponentText(s.exp)|
  {
    hide StartsWith, SkipDigits, ExponentText;
    var q := ExponentParts(t, p, s.exp);
    SkipsDigits(t, q, s.exp.digits);
  }

  lemma ReadsNumber(t: seq<byte>, p: nat, s: Syntax)
    requires s.SNum? && Readable(s) && StartsWith(t, p, Text(s)) && Ends(s, t, p + |Text(s)|)
    ensures ParseNumber(t, p) == Some((Num(Text(s)), p + |Text(s)|))
  {
    assert t[p..p + |Text(s)|] == Text(s);
    NotJustMinus(s);
    hide NumberEnd, ExponentText, FractionText, SkipDigits, StartsWith, Digits, Text, ReadableExponent;
    var a, b, c := NumberLayout(t, p, s);
    TailStart(t, c, s);
    ReadsFraction(t, b, s.frac);
    SkipsDigits(t, a, s.whole);
    if s.exp.Exponent? {
      ReadsExponent(t, c, s);
    } else {
      NoExponentText(s.exp);
    }
    NumberEndIs(t, p, a, b, c, p + |Text(s)|);
  }

  lemma NoExponentText(x: Exponent)
    requires x.NoExponent?
    ensures ExponentText(x) == []
  {
  }

  lemma NotJustMinus(s: Syntax)
    requires s.SNum? && Readable(s)
    ensures |Text(s)| > 0 && Text(s) != [MINUS]
  {
    if s.whole != [] && !s.minus {
      assert Text(s)[0] == s.whole[0];
    }
  }

  lemma NumberEndIs(t: seq<byte>, p: nat, a: nat, b: nat, c: nat, q: nat)
    requires p <= a <= b <= c <= |t|
    requires a == if p < |t| && t[p] == MINUS then p + 1 else p
    requires b == SkipDigits(t, a) && c == if b < |t| && t[b] == DOT then SkipDigits(t, b + 1) else b
    requires q == if c < |t| && (t[c] == 0x65 || t[c] == 0x45) then
      SkipDigits(t, if c + 1 < |t| && (t[c + 1] == PLUS || t[c + 1] == MINUS) then c + 2 else c + 1) else c
    ensures NumberEnd(t, p) == q
  {
  }

  // ---- Reading values ----------------------------------------------------

  lemma ValueStart(s: Syntax)
    requires Readable(s)
    ensures |Text(s)| > 0 && !Blank(Text(s)[0]) && Text(s)[0] != RBRACKET && Text(s)[0] != RBRACE
  {
  }

  lemma SkipsNone(t: seq<byte>, p: nat)
    requires p < |t| && !Blank(t[p])
    ensures SkipBlanks(t, p) == p
  {
  }

  /** Blanks before a value do not matter. */
  lemma BlanksBefore(t: seq<byte>, p: nat, ws: seq<byte>, depth: nat)
    requires Blanks(ws) && StartsWith(t, p, ws) && p + |ws| < |t| && !Blank(t[p + |ws|])
    ensures SkipBlanks(t, p) == p + |ws|
    ensures ParseValue(t, p, depth) == ParseValue(t, p + |ws|, depth)
  {
    SkipsBlanks(t, p, ws);
    SkipsNone(t, p + |ws|);
  }

  /** What a separator or the end of the text does to a number: it ends it. */
  lemma AfterValue(t: seq<byte>, q: nat, ws: seq<byte>, stop: byte)
    requires Blanks(ws) && StartsWith(t, q, ws + [stop])
    requires stop == COMMA || stop == RBRACKET || stop == RBRACE
    ensures EndsNumber(t, q)
    ensures SkipBlanks(t, q) == q + |ws| < |t| && t[q + |ws|] == stop
  {
    First(t, q, ws + [stop]);
    Split(t, q, ws, [stop]);
    First(t, q + |ws|, [stop]);
    SkipsBlanks(t, q, ws);
  }

  /** Where a value, the blanks around it and its separator lie. */
  lemma ValueLayout(t: seq<byte>, p: nat, before: seq<byte>, v: Syntax, after: seq<byte>, stop: seq<byte>)
    returns (a: nat, b: nat, c: nat)
    requires Blanks(before) && Readable(v) && Blanks(after) && StartsWith(t, p, before + (Text(v) + (after + stop)))
    requires stop != [] && (stop[0] == COMMA || stop[0] == RBRACKET || stop[0] == RBRACE)
    ensures a == p + |before| < |t| && SkipBlanks(t, p) == a == SkipBlanks(t, a) && t[a] != RBRACKET
    ensures b == a + |Text(v)| <= |t| && StartsWith(t, a, Text(v)) && EndsNumber(t, b)
    ensures c == b + |after| < |t| && SkipBlanks(t, b) == c && t[c] == stop[0]
    ensures StartsWith(t, c + 1, stop[1..])
  {
    hide SkipBlanks, Text, StartsWith, Blanks, Readable, EndsNumber;
    Split(t, p, before, Text(v) + (after + stop));
    a := p + |before|;
    Split(t, a, Text(v), after + stop);
    b := a + |Text(v)|;
    c := b + |after|;
    SeparatorAt(t, b, after, stop);
    ValueStart(v);
    First(t, a, Text(v));
    SkipsBlanks(t, p, before);
    SkipsNone(t, a);
  }

  lemma SeparatorAt(t: seq<byte>, b: nat, ws: seq<byte>, stop: seq<byte>)
    requires Blanks(ws) && stop != [] && StartsWith(t, b, ws + stop)
    requires stop[0] == COMMA || stop[0] == RBRACKET || stop[0] == RBRACE
    ensures EndsNumber(t, b) && SkipBlanks(t, b) == b + |ws| < |t| && t[b + |ws|] == stop[0]
    ensures StartsWith(t, b + |ws| + 1, stop[1..])
  {
    assert ws + stop == ws + [stop[0]] + stop[1..];
    Split(t, b, ws + [stop[0]], stop[1..]);
    AfterValue(t, b, ws, stop[0]);
  }

  /** The first value of a list of elements, its separator, and the rest of the list. */
  lemma ElementsLayout(es: Elements, t: seq<byte>, p: nat) returns (a: nat, b: nat, c: nat)
    requires es.Elements? && ReadableElements(es) && StartsWith(t, p, ElementsText(es))
    ensures p <= a < |t| && SkipBlanks(t, p) == a && t[a] != RBRACKET && SkipBlanks(t, a) == a
    ensures b == a + |Text(es.value)| <= |t| && StartsWith(t, a, Text(es.value)) && EndsNumber(t, b)
    ensures b <= c < |t| && SkipBlanks(t, b) == c && t[c] == if es.more.NoElements? then RBRACKET else COMMA
    ensures es.more.Elements? ==> StartsWith(t, c + 1, ElementsText(es.more))
    ensures p + |ElementsText(es)| == c + 1 + if es.more.NoElements? then 0 else |ElementsText(es.more)|
  {
    hide SkipBlanks, Text, StartsWith, Blanks, Readable, EndsNumber;
    a, b, c := ValueLayout(t, p, es.before, es.value, es.after, MoreElementsText(es.more));
    if es.more.Elements? {
      assert MoreElementsText(es.more)[1..] == ElementsText(es.more);
    }
  }

  /** The first field of a list, its separator, and the rest of the list. */
  lemma FieldsLayout(fs: Fields, t: seq<byte>, p: nat) returns (k: nat, a: nat, b: nat, c: nat)
    requires fs.Fields? && ReadableFields(fs) && StartsWith(t, p, FieldsText(fs))
    ensures StartsWith(t, p, KeyText(fs)) && k == p + |KeyText(fs)| <= |t|
    ensures k <= a <= |t| && SkipBlanks(t, k) == a && SkipBlanks(t, a) == a
    ensures b == a + |Text(fs.value)| <= |t| && StartsWith(t, a, Text(fs.value)) && EndsNumber(t, b)
    ensures b <= c < |t| && SkipBlanks(t, b) == c && t[c] == if fs.more.NoFields? then RBRACE else COMMA
    ensures fs.more.Fields? ==> StartsWith(t, c + 1, FieldsText(fs.more))
    ensures p + |FieldsText(fs)| == c + 1 + if fs.more.NoFields? then 0 else |FieldsText(fs.more)|
  {
    hide SkipBlanks, Text, StartsWith, Blanks, Readable, EndsNumber, KeyText;
    Split(t, p, KeyText(fs), fs.before + (Text(fs.value) + (fs.after + MoreFieldsText(fs.more))));
    k := p + |KeyText(fs)|;
    a, b, c := ValueLayout(t, k, fs.before, fs.value, fs.after, MoreFieldsText(fs.more));
    if fs.more.Fields? {
      assert MoreFieldsText(fs.more)[1..] == FieldsText(fs.more);
    }
  }

  lemma KeyLayout(t: seq<byte>, p: nat, fs: Fields) returns (q: nat)
    requires fs.Fields? && StartsWith(t, p, KeyText(fs))
    ensures q == p + |fs.beforeKey| < |t| && t[q] == QUOTE && StartsWith(t, p, fs.beforeKey)
    ensures StartsWith(t, q, StringText(fs.key)) && StartsWith(t, q + |StringText(fs.key)|, fs.afterKey + [COLON])
    ensures |KeyText(fs)| == |fs.beforeKey| + |StringText(fs.key)| + |fs.afterKey| + 1
  {
    hide StartsWith, StringText;
    Split(t, p, fs.beforeKey, StringText(fs.key) + (fs.afterKey + [COLON]));
    q := p + |fs.beforeKey|;
    Split(t, q, StringText(fs.key), fs.afterKey + [COLON]);
    First(t, q, StringText(fs.key));
  }

  lemma ReadsKey(t: seq<byte>, p: nat, fs: Fields)
    requires fs.Fields? && ReadableKey(fs) && StartsWith(t, p, KeyText(fs))
    ensures ParseKey(t, p) == Some((CString(ItemsValue(fs.key)), p + |KeyText(fs)|))
    ensures SkipBlanks(t, p) < |t| && t[SkipBlanks(t, p)] == QUOTE
  {
    hide ParseString, ItemsValue, StartsWith, Blanks, StringText, SkipBlanks, KeyText, CString;
    var q := KeyLayout(t, p, fs);
    SkipsBlanks(t, p, fs.beforeKey);
    ReadsString(t, q, fs.key);
    var b := q + |StringText(fs.key)|;
    Split(t, b, fs.afterKey, [COLON]);
    First(t, b + |fs.afterKey|, [COLON]);
    SkipsBlanks(t, b, fs.afterKey);
  }

  // ---- One step of each parsing function ---------------------------------

  /** Every parser but the tokens' skips the blanks before what it reads. */
  lemma SameValue(t: seq<byte>, p: nat, q: nat, depth: nat)
    requires p <= |t| && SkipBlanks(t, p) == q == SkipBlanks(t, q)
    ensures ParseValue(t, p, depth) == ParseValue(t, q, depth)
  {
    hide ParseString, ParseObject, ParseArray, ParseNumber, ParseLiteral, SkipBlanks;
  }

  lemma SameElements(t: seq<byte>, p: nat, q: nat, depth: nat)
    requires p <= |t| && SkipBlanks(t, p) == q == SkipBlanks(t, q)
    ensures ParseElements(t, p, depth) == ParseElements(t, q, depth)
  {
    SameValue(t, p, q, depth);
    hide ParseValue, SkipBlanks;
  }

  lemma SameMembers(t: seq<byte>, p: nat, q: nat, depth: nat)
    requires p <= |t| && SkipBlanks(t, p) == q == SkipBlanks(t, q)
    ensures ParseMembers(t, p, depth) == ParseMembers(t, q, depth)
  {
    hide ParseString, ParseValue, SkipBlanks;
    assert ParseKey(t, p) == ParseKey(t, q);
  }

  lemma SkipTwice(t: seq<byte>, p: nat)
    requires p <= |t|
    ensures SkipBlanks(t, SkipBlanks(t, p)) == SkipBlanks(t, p)
  {
  }

  lemma ElementsStep(t: seq<byte>, p: nat, depth: nat)
    requires p <= |t|
    ensures ParseValue(t, p, depth).None? ==> ParseElements(t, p, depth).None?
    ensures ParseValue(t, p, depth).Some? ==>
      var (v, b) := ParseValue(t, p, depth).value;
      var c := SkipBlanks(t, b);
      && (c < |t| && t[c] == RBRACKET ==> ParseElements(t, p, depth) == Some(([v], c + 1)))
      && (c < |t| && t[c] == COMMA ==>
        var rest := ParseElements(t, c + 1, depth);
        ParseElements(t, p, depth) == if rest.None? then None else Some(([v] + rest.value.0, rest.value.1)))
  {
    hide ParseValue, SkipBlanks;
  }

  lemma FieldsStep(t: seq<byte>, p: nat, k: nat, key: seq<byte>, depth: nat)
    requires p <= k <= |t| && ParseKey(t, p) == Some((key, k))
    ensures ParseValue(t, k, depth).None? ==> ParseMembers(t, p, depth).None?
    ensures ParseValue(t, k, depth).Some? ==>
      var (v, b) := ParseValue(t, k, depth).value;
      var c := SkipBlanks(t, b);
      && (c < |t| && t[c] == RBRACE ==> ParseMembers(t, p, depth) == Some(([Member(key, v)], c + 1)))
      && (c < |t| && t[c] == COMMA ==>
        var rest := ParseMembers(t, c + 1, depth);
        ParseMembers(t, p, depth) == if rest.None? then None else Some(([Member(key, v)] + rest.value.0, rest.value.1)))
  {
    hide ParseValue, ParseKey, SkipBlanks;
  }

  // ---- Values ------------------------------------------------------------

  /**
   * A value's text is read back as that value when it nests no deeper than the limit allows from
   * here, and rejected when it nests deeper.
   */
  lemma {:induction false} ReadsValue(s: Syntax, t: seq<byte>, p: nat, depth: nat)
    requires Readable(s) && depth <= MAX_DEPTH
    requires StartsWith(t, p, Text(s)) && Ends(s, t, p + |Text(s)|)
    ensures ParseValue(t, p, depth) ==
      if depth + Nesting(s) <= MAX_DEPTH then Some((Kept(s), p + |Text(s)|)) else None
    decreases s, 1
  {
    hide ParseString, ParseNumber, NumberEnd, ParseElements, ParseMembers, StringText, ElementsText, FieldsText;
    ValueStart(s);
    First(t, p, Text(s));
    SkipsNone(t, p);
    match s
    case SNull =>
    case STrue =>
    case SFalse =>
    case SNum(_, _, _, _) =>
      ReadsNumber(t, p, s);
    case SStr(items) =>
      ReadsString(t, p, items);
    case SArr(inside, elems) =>
      ReadsArray(s, t, p, depth);
    case SObj(inside, fields) =>
      ReadsObject(s, t, p, depth);
  }

  lemma {:induction false} ReadsArray(s: Syntax, t: seq<byte>, p: nat, depth: nat)
    requires s.SArr? && Readable(s) && depth <= MAX_DEPTH
    requires StartsWith(t, p, Text(s))
    ensures p < |t| && ParseArray(t, p + 1, depth + 1) ==
      if depth + Nesting(s) <= MAX_DEPTH then Some((Kept(s), p + |Text(s)|)) else None
    decreases s, 0
  {
    hide ParseElements, ElementsText, StartsWith, Blanks, SkipBlanks;
    First(t, p, Text(s));
    if s.elems.NoElements? {
      ReadsEmptyArray(s, t, p, depth);
    } else if depth + 1 <= MAX_DEPTH {
      Split(t, p, [LBRACKET], ElementsText(s.elems));
      var a, b, c := ElementsLayout(s.elems, t, p + 1);
      SameElements(t, p + 1, a, depth + 1);
      ReadsElements(s.elems, t, p + 1, depth + 1);
    }
  }

  lemma ReadsEmptyArray(s: Syntax, t: seq<byte>, p: nat, depth: nat)
    requires s.SArr? && s.elems.NoElements? && Readable(s) && depth <= MAX_DEPTH
    requires StartsWith(t, p, Text(s))
    ensures p < |t| && ParseArray(t, p + 1, depth + 1) ==
      if depth + Nesting(s) <= MAX_DEPTH then Some((Kept(s), p + |Text(s)|)) else None
  {
    hide ParseElements, StartsWith, Blanks, SkipBlanks;
    First(t, p, Text(s));
    Split(t, p, [LBRACKET], s.inside + [RBRACKET]);
    AfterValue(t, p + 1, s.inside, RBRACKET);
  }

  lemma {:induction false} ReadsElements(es: Elements, t: seq<byte>, p: nat, depth: nat)
    requires es.Elements? && ReadableElements(es) && depth <= MAX_DEPTH
    requires StartsWith(t, p, ElementsText(es))
    ensures ParseElements(t, p, depth) ==
      if depth + ElementsNesting(es) <= MAX_DEPTH then Some((ElementsKept(es), p + |ElementsText(es)|)) else None
    decreases es, 0
  {
    hide ParseValue, ParseElements, SkipBlanks, Text, ElementsText, StartsWith, Blanks, Readable, Kept, Nesting,
         EndsNumber, Ends;
    var a, b, c := ElementsLayout(es, t, p);
    SameValue(t, p, a, depth);
    EndsAny(es.value, t, b);
    ReadsValue(es.value, t, a, depth);
    ElementsStep(t, p, depth);
    if es.more.Elements? {
      ReadsElements(es.more, t, c + 1, depth);
    } else {
      assert [Kept(es.value)] + [] == [Kept(es.value)];
    }
  }

  lemma NoFieldsKept()
    ensures FieldsKept(NoFields) == []
  {
  }

  lemma ReadsEmptyObject(s: Syntax, t: seq<byte>, p: nat, depth: nat)
    requires s.SObj? && s.fields.NoFields? && Readable(s) && depth <= MAX_DEPTH
    requires StartsWith(t, p, Text(s))
    ensures p < |t| && ParseObject(t, p + 1, depth + 1) ==
      if depth + Nesting(s) <= MAX_DEPTH then Some((Kept(s), p + |Text(s)|)) else None
  {
    hide ParseMembers, ParseKey, StartsWith, Blanks, SkipBlanks, ItemsValue, FieldsKept, CString;
    NoFieldsKept();
    First(t, p, Text(s));
    Split(t, p, [LBRACE], s.inside + [RBRACE]);
    AfterValue(t, p + 1, s.inside, RBRACE);
  }

  lemma {:induction false} ReadsObject(s: Syntax, t: seq<byte>, p: nat, depth: nat)
    requires s.SObj? && Readable(s) && depth <= MAX_DEPTH
    requires StartsWith(t, p, Text(s))
    ensures p < |t| && ParseObject(t, p + 1, depth + 1) ==
      if depth + Nesting(s) <= MAX_DEPTH then Some((Kept(s), p + |Text(s)|)) else None
    decreases s, 0
  {
    hide ParseMembers, ParseKey, ParseValue, FieldsText, KeyText, StartsWith, Blanks, SkipBlanks, ItemsValue,
         FieldsKept, CString;
    First(t, p, Text(s));
    if s.fields.NoFields? {
      ReadsEmptyObject(s, t, p, depth);
    } else if depth + 1 <= MAX_DEPTH {
      Split(t, p, [LBRACE], FieldsText(s.fields));
      var k, a, b, c := FieldsLayout(s.fields, t, p + 1);
      ReadsKey(t, p + 1, s.fields);
      SkipTwice(t, p + 1);
      SameMembers(t, p + 1, SkipBlanks(t, p + 1), depth + 1);
      ReadsFields(s.fields, t, p + 1, depth + 1);
    }
  }

  lemma {:induction false} ReadsFields(fs: Fields, t: seq<byte>, p: nat, depth: nat)
    requires fs.Fields? && ReadableFields(fs) && depth <= MAX_DEPTH
    requires StartsWith(t, p, FieldsText(fs))
    ensures ParseMembers(t, p, depth) ==
      if depth + FieldsNesting(fs) <= MAX_DEPTH then Some((FieldsKept(fs), p + |FieldsText(fs)|)) else None
    decreases fs, 0
  {
    hide ParseKey, ParseValue, ParseMembers, SkipBlanks, Text, FieldsText, KeyText, ItemsValue, StartsWith, Blanks,
         Readable;
    hide Kept, Nesting, EndsNumber, Ends, CString;
    var k, a, b, c := FieldsLayout(fs, t, p);
    ReadsKey(t, p, fs);
    SameValue(t, k, a, depth);
    EndsAny(fs.value, t, b);
    ReadsValue(fs.value, t, a, depth);
    FieldsStep(t, p, k, CString(ItemsValue(fs.key)), depth);
    if fs.more.Fields? {
      ReadsFields(fs.more, t, c + 1, depth);
    } else {
      var m := Member(CString(ItemsValue(fs.key)), Kept(fs.value));
      assert [m] + [] == [m];
    }
  }
}
