/** Everything the JSON parser accepts is a rendering of what it returns: the accepted language, both ways. */
module JsonSound {
  import opened CTypes
  import opened Json
  import opened JsonText
  import opened JsonStrings
  import opened JsonLaws

  // ---- Tokens ------------------------------------------------------------

  /** A decoded string is a run of readable items and a quote. */
  lemma {:induction false} FoundItems(t: seq<byte>, p: nat) returns (xs: seq<Item>)
    requires p <= |t| && StringTail(t, p).Done?
    ensures
      var d := StringTail(t, p);
      ReadableItems(xs) && ItemsText(xs) + [QUOTE] == t[p..d.next] && ItemsValue(xs) == d.text
    ensures xs != [] && Marked(xs[0]) ==> !NoUnit(t, p)
    decreases |t| - p
  {
    hide Escape, ItemText, ItemValue, LoneHigh, ReadableItem, NoUnit, Utf8;
    if t[p] == QUOTE {
      xs := [];
      assert [] + [QUOTE] == [t[p]] == t[p..p + 1];
    } else if t[p] != BACKSLASH {
      var rest := FoundItems(t, p + 1);
      RawIsItem(t, p);
      xs := [Raw(t[p])] + rest;
      JoinItem(t, p, p + 1, Raw(t[p]), rest);
    } else {
      var next := Escape(t, p + 1).next;
      var x := FoundEscape(t, p);
      var rest := FoundItems(t, next);
      UnitAt(t, p);
      xs := [x] + rest;
      JoinItem(t, p, next, x, rest);
    }
  }

  lemma JoinItem(t: seq<byte>, p: nat, next: nat, x: Item, xs: seq<Item>)
    requires p <= next <= |t| && ItemText(x) == t[p..next] && StringTail(t, next).Done?
    requires ReadableItem(x) && ReadableItems(xs) && (LoneHigh(x) && xs != [] ==> !Marked(xs[0]))
    requires ItemsText(xs) + [QUOTE] == t[next..StringTail(t, next).next]
    ensures ReadableItems([x] + xs) && ItemsText([x] + xs) + [QUOTE] == t[p..StringTail(t, next).next]
    ensures ItemsValue([x] + xs) == ItemValue(x) + ItemsValue(xs)
  {
    hide StringTail, ItemText, ItemValue, LoneHigh, ReadableItem;
    var ys := [x] + xs;
    var end := StringTail(t, next).next;
    assert ys[1..] == xs;
    assert ItemsText(ys) + [QUOTE] == ItemText(x) + (ItemsText(xs) + [QUOTE]);
    assert t[p..end] == t[p..next] + t[next..end];
  }

  lemma FoundString(t: seq<byte>, p: nat) returns (xs: seq<Item>)
    requires p <= |t| && ParseString(t, p).Some?
    ensures
      var (v, q) := ParseString(t, p).value;
      ReadableItems(xs) && StringText(xs) == t[p..q] && ItemsValue(xs) == v
  {
    hide StringTail, ItemsText, ItemsValue, ReadableItems;
    xs := FoundItems(t, p + 1);
    var q := ParseString(t, p).value.1;
    assert t[p..q] == [t[p]] + t[p + 1..q];
  }

  lemma TwoParts(t: seq<byte>, a: nat, b: nat, c: nat)
    requires a <= b <= c <= |t|
    ensures t[a..c] == t[a..b] + t[b..c]
  {
  }

  lemma OneInFront(t: seq<byte>, a: nat, b: nat)
    requires a < b <= |t|
    ensures t[a..b] == [t[a]] + t[a + 1..b]
  {
  }

  lemma {:induction false} DigitsSkipped(t: seq<byte>, p: nat)
    requires p <= |t|
    ensures Digits(t[p..SkipDigits(t, p)])
    ensures SkipDigits(t, p) < |t| ==> !Digit(t[SkipDigits(t, p)])
    decreases |t| - p
  {
    var q := SkipDigits(t, p);
    if p < |t| && Digit(t[p]) {
      DigitsSkipped(t, p + 1);
      forall i | 0 <= i < q - p ensures Digit(t[p..q][i]) {
        assert i > 0 ==> t[p..q][i] == t[p + 1..q][i - 1];
      }
    }
  }

  lemma {:induction false} BlanksSkipped(t: seq<byte>, p: nat)
    requires p <= |t|
    ensures Blanks(t[p..SkipBlanks(t, p)])
    decreases |t| - p
  {
    var q := SkipBlanks(t, p);
    if p < |t| && Blank(t[p]) {
      BlanksSkipped(t, p + 1);
      forall i | 0 <= i < q - p ensures Blank(t[p..q][i]) {
        assert i > 0 ==> t[p..q][i] == t[p + 1..q][i - 1];
      }
    }
  }

  /** The fraction scanned from `b` on, which ends at `c`. */
  lemma FoundFraction(t: seq<byte>, b: nat) returns (frac: Option<seq<byte>>, c: nat)
    requires b <= |t|
    ensures b <= c <= |t| && c == (if b < |t| && t[b] == DOT then SkipDigits(t, b + 1) else b)
    ensures (frac.Some? ==> Digits(frac.value)) && FractionText(frac) == t[b..c]
    ensures frac.Some? <==> b < |t| && t[b] == DOT
  {
    if b < |t| && t[b] == DOT {
      c := SkipDigits(t, b + 1);
      DigitsSkipped(t, b + 1);
      frac := Some(t[b + 1..c]);
      assert t[b..c] == [DOT] + t[b + 1..c];
    } else {
      c, frac := b, None;
    }
  }

  /** The exponent scanned from `c` on, which ends at `q`. */
  lemma FoundExponent(t: seq<byte>, c: nat) returns (x: Exponent, q: nat)
    requires c <= |t|
    ensures c <= q <= |t|
    ensures q == if c < |t| && (t[c] == 0x65 || t[c] == 0x45) then
      SkipDigits(t, if c + 1 < |t| && (t[c + 1] == PLUS || t[c + 1] == MINUS) then c + 2 else c + 1) else c
    ensures ReadableExponent(x) && ExponentText(x) == t[c..q]
    ensures x.Exponent? <==> c < |t| && (t[c] == 0x65 || t[c] == 0x45)
  {
    if c < |t| && (t[c] == 0x65 || t[c] == 0x45) {
      var d := if c + 1 < |t| && (t[c + 1] == PLUS || t[c + 1] == MINUS) then c + 2 else c + 1;
      q := SkipDigits(t, d);
      DigitsSkipped(t, d);
      hide SkipDigits, Digits;
      x := Exponent(t[c], if d == c + 2 then [t[c + 1]] else [], t[d..q]);
      assert t[c + 1..d] == x.sign;
      TwoParts(t, c + 1, d, q);
      OneInFront(t, c, q);
    } else {
      q, x := c, NoExponent;
    }
  }

  /** A scanned number is a readable one. */
  lemma FoundNumber(t: seq<byte>, p: nat) returns (s: Syntax)
    requires p < |t| && (t[p] == MINUS || Digit(t[p])) && ParseNumber(t, p).Some?
    ensures s.SNum? && Readable(s) && Text(s) == t[p..NumberEnd(t, p)]
  {
    hide SkipDigits, FractionText, ExponentText, ReadableExponent, Digits, NumberEnd;
    var a := if t[p] == MINUS then p + 1 else p;
    var b := SkipDigits(t, a);
    DigitsSkipped(t, a);
    var frac, c := FoundFraction(t, b);
    var x, q := FoundExponent(t, c);
    NumberEndIs(t, p, a, b, c, q);
    s := SNum(a == p + 1, t[a..b], frac, x);
    NumberJoined(t, p, a, b, c, q);
  }

  lemma NumberJoined(t: seq<byte>, p: nat, a: nat, b: nat, c: nat, q: nat)
    requires p < |t| && a == (if t[p] == MINUS then p + 1 else p) && a <= b <= c <= q <= |t|
    ensures (if a == p + 1 then [MINUS] else []) + (t[a..b] + (t[b..c] + t[c..q])) == t[p..q]
  {
    TwoParts(t, b, c, q);
    TwoParts(t, a, b, q);
    if a == p + 1 {
      OneInFront(t, p, q);
    } else {
      assert [] + t[p..q] == t[p..q];
    }
  }

  // ---- Values ------------------------------------------------------------

  /** A value the parser reads is some blanks and the text of a readable value that nests within the limit. */
  lemma {:induction false} FoundValue(t: seq<byte>, p: nat, depth: nat) returns (ws: seq<byte>, s: Syntax)
    requires p <= |t| && depth <= MAX_DEPTH && ParseValue(t, p, depth).Some?
    ensures
      var (v, q) := ParseValue(t, p, depth).value;
      Blanks(ws) && Readable(s) && ws + Text(s) == t[p..q] && Kept(s) == v && depth + Nesting(s) <= MAX_DEPTH
    decreases |t| - p, 3
  {
    hide SkipBlanks, Blanks, ParseString, ParseNumber, ParseObject, ParseArray, Readable, Text, Kept, Nesting,
         StartsWith;
    var (v, q) := ParseValue(t, p, depth).value;
    var a := SkipBlanks(t, p);
    BlanksSkipped(t, p);
    ws := t[p..a];
    s := FoundAt(t, p, depth, a);
  }

  /** The value at `a`, after the blanks. */
  lemma {:induction false} FoundAt(t: seq<byte>, p: nat, depth: nat, a: nat) returns (s: Syntax)
    requires p <= |t| && depth <= MAX_DEPTH && ParseValue(t, p, depth).Some? && a == SkipBlanks(t, p)
    ensures
      var (v, q) := ParseValue(t, p, depth).value;
      a <= q <= |t| && Readable(s) && Text(s) == t[a..q] && Kept(s) == v && depth + Nesting(s) <= MAX_DEPTH
    decreases |t| - p, 2
  {
    hide SkipBlanks, ParseString, ParseNumber, ParseObject, ParseArray, ReadableItems, ReadableElements, ReadableFields;
    if t[a] == LBRACE {
      s := FoundObject(t, a, depth);
    } else if t[a] == LBRACKET {
      s := FoundArray(t, a, depth);
    } else if t[a] == QUOTE {
      var xs := FoundString(t, a);
      s := SStr(xs);
    } else if t[a] == 0x74 {
      s := STrue;
    } else if t[a] == 0x66 {
      s := SFalse;
    } else if t[a] == 0x6E {
      s := SNull;
    } else {
      s := FoundNumeral(t, a);
    }
  }

  lemma FoundNumeral(t: seq<byte>, p: nat) returns (s: Syntax)
    requires p < |t| && (t[p] == MINUS || Digit(t[p])) && ParseNumber(t, p).Some?
    ensures
      var (v, q) := ParseNumber(t, p).value;
      q <= |t| && Readable(s) && Text(s) == t[p..q] && Kept(s) == v && Nesting(s) == 0
  {
    s := FoundNumber(t, p);
  }

  lemma {:induction false} FoundArray(t: seq<byte>, a: nat, depth: nat) returns (s: Syntax)
    requires a < |t| && t[a] == LBRACKET && depth <= MAX_DEPTH && ParseArray(t, a + 1, depth + 1).Some?
    ensures
      var (v, q) := ParseArray(t, a + 1, depth + 1).value;
      Readable(s) && Text(s) == t[a..q] && Kept(s) == v && depth + Nesting(s) <= MAX_DEPTH
    decreases |t| - a, 1
  {
    hide SkipBlanks, ParseElements, Blanks, ReadableElements, ElementsText, ElementsKept, ElementsNesting;
    var b := SkipBlanks(t, a + 1);
    var ws := t[a + 1..b];
    BlanksSkipped(t, a + 1);
    var q := ParseArray(t, a + 1, depth + 1).value.1;
    if b < |t| && t[b] == RBRACKET {
      s := SArr(ws, NoElements);
      EmptyKept();
      assert t[a..q] == [t[a]] + (ws + [t[b]]);
    } else {
      var es := FoundElements(t, b, depth + 1);
      s := SArr([], es.(before := ws + es.before));
      BlanksInFront(ws, es);
      assert t[a..q] == [t[a]] + (ws + t[b..q]);
    }
  }

  lemma EmptyKept()
    ensures ElementsKept(NoElements) == [] && FieldsKept(NoFields) == []
    ensures ReadableElements(NoElements) && ReadableFields(NoFields) && Blanks([])
    ensures ElementsNesting(NoElements) == 0 && FieldsNesting(NoFields) == 0
  {
  }

  /** More blanks before the first element. */
  lemma BlanksInFront(ws: seq<byte>, es: Elements)
    requires Blanks(ws) && es.Elements? && ReadableElements(es)
    ensures
      var fs := es.(before := ws + es.before);
      && ReadableElements(fs) && ElementsText(fs) == ws + ElementsText(es) && ElementsKept(fs) == ElementsKept(es)
      && ElementsNesting(fs) == ElementsNesting(es) && Blanks([])
  {
    hide Text, Readable, Kept, Nesting;
  }

  lemma {:induction false} FoundElements(t: seq<byte>, p: nat, depth: nat) returns (es: Elements)
    requires p <= |t| && depth <= MAX_DEPTH && ParseElements(t, p, depth).Some?
    ensures
      var (vs, q) := ParseElements(t, p, depth).value;
      && es.Elements? && ReadableElements(es) && ElementsText(es) == t[p..q] && ElementsKept(es) == vs
      && depth + ElementsNesting(es) <= MAX_DEPTH
    decreases |t| - p, 4
  {
    hide SkipBlanks, ParseValue, ParseElements, Blanks, Readable, Text, Kept, Nesting;
    ElementsEnd(t, p, depth);
    ElementsStep(t, p, depth);
    var ws, s := FoundValue(t, p, depth);
    var b := ParseValue(t, p, depth).value.1;
    var c := SkipBlanks(t, b);
    BlanksSkipped(t, b);
    EmptyKept();
    if t[c] == COMMA {
      var more := FoundElements(t, c + 1, depth);
      es := Elements(ws, s, t[b..c], more);
      ElementsLaid(t, p, b, c, ParseElements(t, p, depth).value.1, ws, s, more);
    } else {
      es := Elements(ws, s, t[b..c], NoElements);
      ElementsLaid(t, p, b, c, c + 1, ws, s, NoElements);
    }
  }

  lemma ElementsLaid(t: seq<byte>, p: nat, b: nat, c: nat, q: nat, ws: seq<byte>, s: Syntax, more: Elements)
    requires p <= b <= c < q <= |t| && ws + Text(s) == t[p..b]
    requires t[c] == (if more.Elements? then COMMA else RBRACKET)
    requires t[c + 1..q] == if more.Elements? then ElementsText(more) else []
    ensures ElementsText(Elements(ws, s, t[b..c], more)) == t[p..q]
  {
    hide Text;
    TwoParts(t, p, b, q);
    TwoParts(t, b, c, q);
    OneInFront(t, c, q);
    Regroup(ws, Text(s), t[b..c] + ([t[c]] + t[c + 1..q]));
  }

  lemma {:induction false} FoundObject(t: seq<byte>, a: nat, depth: nat) returns (s: Syntax)
    requires a < |t| && t[a] == LBRACE && depth <= MAX_DEPTH && ParseObject(t, a + 1, depth + 1).Some?
    ensures
      var (v, q) := ParseObject(t, a + 1, depth + 1).value;
      Readable(s) && Text(s) == t[a..q] && Kept(s) == v && depth + Nesting(s) <= MAX_DEPTH
    decreases |t| - a, 1
  {
    hide SkipBlanks, ParseMembers, Blanks, ReadableFields, FieldsText, FieldsKept, FieldsNesting;
    var b := SkipBlanks(t, a + 1);
    var ws := t[a + 1..b];
    BlanksSkipped(t, a + 1);
    var q := ParseObject(t, a + 1, depth + 1).value.1;
    if b < |t| && t[b] == RBRACE {
      s := SObj(ws, NoFields);
      EmptyKept();
      assert t[a..q] == [t[a]] + (ws + [t[b]]);
    } else {
      var fs := FoundFields(t, b, depth + 1);
      s := SObj([], fs.(beforeKey := ws + fs.beforeKey));
      BlanksBeforeKey(ws, fs);
      assert t[a..q] == [t[a]] + (ws + t[b..q]);
    }
  }

  /** More blanks before the first key. */
  lemma BlanksBeforeKey(ws: seq<byte>, fs: Fields)
    requires Blanks(ws) && fs.Fields? && ReadableFields(fs)
    ensures
      var gs := fs.(beforeKey := ws + fs.beforeKey);
      && ReadableFields(gs) && FieldsText(gs) == ws + FieldsText(fs) && FieldsKept(gs) == FieldsKept(fs)
      && FieldsNesting(gs) == FieldsNesting(fs) && Blanks([])
  {
    hide Text, Readable, Kept, Nesting, StringText, ReadableItems, ItemsValue, CString;
    var gs := fs.(beforeKey := ws + fs.beforeKey);
    assert KeyText(gs) == ws + KeyText(fs);
  }

  /** A key read, with the blanks around it and its colon. */
  lemma FoundKey(t: seq<byte>, p: nat) returns (before: seq<byte>, key: seq<Item>, after: seq<byte>)
    requires p <= |t| && ParseKey(t, p).Some?
    ensures
      var (k, q) := ParseKey(t, p).value;
      && Blanks(before) && ReadableItems(key) && Blanks(after) && CString(ItemsValue(key)) == k
      && before + (StringText(key) + (after + [COLON])) == t[p..q]
  {
    hide SkipBlanks, ParseString, Blanks, ReadableItems, StringText, ItemsValue, CString;
    var a := SkipBlanks(t, p);
    BlanksSkipped(t, p);
    key := FoundString(t, a);
    var b := ParseString(t, a).value.1;
    var c := SkipBlanks(t, b);
    BlanksSkipped(t, b);
    before, after := t[p..a], t[b..c];
    TwoParts(t, p, a, c + 1);
    TwoParts(t, a, b, c + 1);
    TwoParts(t, b, c, c + 1);
    OneInFront(t, c, c + 1);
    assert [t[c]] + t[c + 1..c + 1] == [COLON];
  }

  lemma {:induction false} FoundFields(t: seq<byte>, p: nat, depth: nat) returns (fs: Fields)
    requires p <= |t| && depth <= MAX_DEPTH && ParseMembers(t, p, depth).Some?
    ensures
      var (ms, q) := ParseMembers(t, p, depth).value;
      && fs.Fields? && ReadableFields(fs) && FieldsText(fs) == t[p..q] && FieldsKept(fs) == ms
      && depth + FieldsNesting(fs) <= MAX_DEPTH
    decreases |t| - p, 4
  {
    hide SkipBlanks, ParseValue, ParseKey, ParseMembers, Blanks, Readable, Text, Kept, Nesting, StringText, CString;
    hide ReadableItems, ItemsValue;
    MembersEnd(t, p, depth);
    var (k, start) := ParseKey(t, p).value;
    FieldsStep(t, p, start, k, depth);
    var bk, key, ak := FoundKey(t, p);
    var ws, s := FoundValue(t, start, depth);
    var b := ParseValue(t, start, depth).value.1;
    var c := SkipBlanks(t, b);
    BlanksSkipped(t, b);
    EmptyKept();
    if t[c] == COMMA {
      var more := FoundFields(t, c + 1, depth);
      fs := Fields(bk, key, ak, ws, s, t[b..c], more);
      FieldsLaid(t, p, start, b, c, ParseMembers(t, p, depth).value.1, fs);
    } else {
      fs := Fields(bk, key, ak, ws, s, t[b..c], NoFields);
      FieldsLaid(t, p, start, b, c, c + 1, fs);
    }
  }

  lemma Regroup(a: seq<byte>, b: seq<byte>, c: seq<byte>)
    ensures a + b + c == a + (b + c)
  {
  }

  lemma FieldsLaid(t: seq<byte>, p: nat, start: nat, b: nat, c: nat, q: nat, fs: Fields)
    requires fs.Fields? && p <= start <= b <= c < q <= |t|
    requires KeyText(fs) == t[p..start] && fs.before + Text(fs.value) == t[start..b] && fs.after == t[b..c]
    requires t[c] == (if fs.more.Fields? then COMMA else RBRACE)
    requires t[c + 1..q] == if fs.more.Fields? then FieldsText(fs.more) else []
    ensures FieldsText(fs) == t[p..q]
  {
    hide Text, KeyText;
    TwoParts(t, p, start, q);
    TwoParts(t, start, b, q);
    TwoParts(t, b, c, q);
    OneInFront(t, c, q);
    Regroup(fs.before, Text(fs.value), fs.after + ([t[c]] + t[c + 1..q]));
  }

  // ---- The accepted language ---------------------------------------------

  /** A rendering of a value that the parser can hold. */
  ghost predicate Renders(t: seq<byte>, v: Value) {
    exists before, s, after ::
      Blanks(before) && Blanks(after) && Readable(s) && Nesting(s) <= 128 && Kept(s) == v
      && t == before + Text(s) + after
  }

  /** The parser returns a value exactly on its renderings; malformed text of every kind is refused. */
  lemma Language(t: seq<byte>, v: Value)
    ensures ParseText(t) == Some(v) <==> Renders(t, v)
  {
    hide ParseValue, SkipBlanks, Blanks, Readable, Nesting, Kept, Text;
    if ParseText(t) == Some(v) {
      var q := ParseValue(t, 0, 0).value.1;
      var before, s := FoundValue(t, 0, 0);
      BlanksSkipped(t, q);
      TwoParts(t, 0, q, |t|);
      assert t[0..|t|] == t;
    }
    if Renders(t, v) {
      var before, s, after :| Blanks(before) && Blanks(after) && Readable(s) && Nesting(s) <= 128 && Kept(s) == v
        && t == before + Text(s) + after;
      ParsesEveryRendering(s, before, after);
    }
  }
}
