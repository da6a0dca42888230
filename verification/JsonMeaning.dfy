/** What a JSON text means, apart from how it is decoded, and exactly when the parser keeps that meaning. */
module JsonMeaning {
  import opened CTypes
  import opened Json
  import opened JsonText

  // ---- Strings -----------------------------------------------------------

  predicate LowSurrogate(cp: nat) {
    0xDC00 <= cp <= 0xDFFF
  }

  /** A string as it is written: every \u escape by itself. */
  predicate Single(ys: seq<Item>) {
    forall i :: 0 <= i < |ys| ==> ReadableItem(ys[i]) && !ys[i].Pair?
  }

  function Escapes(xs: seq<Item>): (ys: seq<Item>)
    requires ReadableItems(xs)
    ensures Single(ys) && ItemsText(ys) == ItemsText(xs)
  {
    if xs == [] then []
    else if xs[0].Pair? then
      var (high, low, rest) := (Unit(xs[0].high), Unit(xs[0].low), Escapes(xs[1..]));
      TwoInFront(high, low, rest);
      [high, low] + rest
    else
      OneInFront(xs[0], Escapes(xs[1..]));
      [xs[0]] + Escapes(xs[1..])
  }

  lemma OneInFront(y: Item, ys: seq<Item>)
    ensures ItemsText([y] + ys) == ItemText(y) + ItemsText(ys)
  {
    assert ([y] + ys)[1..] == ys;
  }

  lemma TwoInFront(high: Item, low: Item, ys: seq<Item>)
    ensures ItemsText([high, low] + ys) == ItemText(high) + ItemText(low) + ItemsText(ys)
  {
    OneInFront(low, ys);
    OneInFront(high, [low] + ys);
    assert [high] + ([low] + ys) == [high, low] + ys;
  }

  predicate NamesHigh(y: Item)
    requires ReadableItem(y)
  {
    y.Unit? && HighSurrogate(QuadValue(y.hex))
  }

  predicate NamesLow(y: Item)
    requires ReadableItem(y)
  {
    y.Unit? && LowSurrogate(QuadValue(y.hex))
  }

  /** The scalar value of a surrogate pair (RFC 2781 section 2.2): ten bits from each half. */
  function PairScalar(high: nat, low: nat): (cp: nat)
    ensures cp < 0x20_0000
  {
    0x1_0000 + high % 0x400 * 0x400 + low % 0x400
  }

  /** One item by itself; an escape stands for its own code point, a lone surrogate included. */
  function CharMeaning(y: Item): (s: seq<byte>)
    requires ReadableItem(y) && !y.Pair?
    ensures |s| >= 1
  {
    match y
    case Raw(b) => [b]
    case Short(c) => [ShortEscape(c)]
    case Unit(hex) => Utf8(QuadValue(hex))
  }

  /** What a string stands for, in UTF-8: two escapes make one character only if they name a high and a low
      surrogate. */
  function CharsMeaning(ys: seq<Item>): (s: seq<byte>)
    requires Single(ys)
    decreases |ys|
  {
    if ys == [] then []
    else if |ys| >= 2 && NamesHigh(ys[0]) && NamesLow(ys[1]) then
      Utf8(PairScalar(QuadValue(ys[0].hex), QuadValue(ys[1].hex))) + CharsMeaning(ys[2..])
    else CharMeaning(ys[0]) + CharsMeaning(ys[1..])
  }

  function StringMeaning(xs: seq<Item>): (s: seq<byte>)
    requires ReadableItems(xs)
  {
    CharsMeaning(Escapes(xs))
  }

  /** A high surrogate's escape with an escape after it that names no low surrogate. */
  predicate MismatchAt(ys: seq<Item>, i: nat)
    requires Single(ys) && i + 1 < |ys|
  {
    NamesHigh(ys[i]) && ys[i + 1].Unit? && !NamesLow(ys[i + 1])
  }

  predicate Mismatched(ys: seq<Item>)
    requires Single(ys)
  {
    exists i :: 0 <= i < |ys| - 1 && MismatchAt(ys, i)
  }

  /** The same on what the decoder takes for a pair. */
  predicate ProperPair(x: Item)
    requires ReadableItem(x)
  {
    x.Pair? ==> LowSurrogate(QuadValue(x.low))
  }

  lemma MismatchedRest(y: Item, ys: seq<Item>)
    requires ReadableItem(y) && !y.Pair? && Single(ys)
    ensures Single([y] + ys)
    ensures Mismatched([y] + ys) <==> Mismatched(ys) || (ys != [] && MismatchAt([y] + ys, 0))
  {
    var zs := [y] + ys;
    forall i | 0 <= i < |ys| - 1 ensures MismatchAt(zs, i + 1) <==> MismatchAt(ys, i) {
      assert zs[i + 1] == ys[i] && zs[i + 2] == ys[i + 1];
    }
    hide MismatchAt, ReadableItem;
    if Mismatched(zs) {
      var i :| 0 <= i < |zs| - 1 && MismatchAt(zs, i);
      assert i > 0 ==> MismatchAt(ys, i - 1);
    }
  }

  predicate ProperPairs(xs: seq<Item>)
    requires ReadableItems(xs)
  {
    xs != [] ==> ProperPair(xs[0]) && ProperPairs(xs[1..])
  }

  /** The escapes of a string by the decoder's first item. */
  lemma EscapesOf(xs: seq<Item>)
    requires ReadableItems(xs) && xs != []
    ensures
      var (x, rest) := (xs[0], Escapes(xs[1..]));
      if x.Pair? then Escapes(xs) == [Unit(x.high)] + ([Unit(x.low)] + rest) && NamesHigh(Unit(x.high))
      else Escapes(xs) == [x] + rest && (NamesHigh(x) && rest != [] ==> !rest[0].Unit?)
  {
    if xs[0].Pair? {
      var (high, low, rest) := (Unit(xs[0].high), Unit(xs[0].low), Escapes(xs[1..]));
      assert [high, low] + rest == [high] + ([low] + rest);
    } else if |xs| > 1 {
      FirstEscape(xs[1..]);
    }
  }

  lemma FirstEscape(xs: seq<Item>)
    requires ReadableItems(xs)
    ensures if xs == [] then Escapes(xs) == []
            else Escapes(xs) != [] && Escapes(xs)[0] == if xs[0].Pair? then Unit(xs[0].high) else xs[0]
  {
  }

  /** The decoder's pairs are where an escape follows a high surrogate's. */
  lemma {:induction false} MismatchedIsImproper(xs: seq<Item>)
    requires ReadableItems(xs)
    ensures Mismatched(Escapes(xs)) <==> !ProperPairs(xs)
    decreases |xs|
  {
    hide Escapes, ReadableItem, HighSurrogate, QuadValue, Mismatched;
    if xs == [] {
      NoEscapes();
    } else {
      var (x, rest) := (xs[0], Escapes(xs[1..]));
      EscapesOf(xs);
      MismatchedIsImproper(xs[1..]);
      if x.Pair? {
        PairNames(x);
        MismatchedRest(Unit(x.low), rest);
        MismatchedRest(Unit(x.high), [Unit(x.low)] + rest);
      } else {
        MismatchedRest(x, rest);
      }
    }
  }

  lemma NoEscapes()
    ensures Escapes([]) == [] && !Mismatched([])
  {
  }

  /** A low surrogate is no high one. */
  lemma PairNames(x: Item)
    requires ReadableItem(x) && x.Pair?
    ensures HexQuad(x.high) && HexQuad(x.low) && HighSurrogate(QuadValue(x.high))
    ensures ReadableItem(Unit(x.high)) && NamesHigh(Unit(x.high)) && ReadableItem(Unit(x.low))
    ensures NamesLow(Unit(x.low)) <==> ProperPair(x)
    ensures ProperPair(x) ==> !NamesHigh(Unit(x.low))
  {
  }

  // ---- What the decoder makes of it --------------------------------------

  /** One step of a string's meaning. */
  lemma MeaningStep(y: Item, ys: seq<Item>)
    requires ReadableItem(y) && !y.Pair? && Single(ys)
    ensures Single([y] + ys)
    ensures CharsMeaning([y] + ys) ==
      if ys != [] && NamesHigh(y) && NamesLow(ys[0]) then
        Utf8(PairScalar(QuadValue(y.hex), QuadValue(ys[0].hex))) + CharsMeaning(ys[1..])
      else CharMeaning(y) + CharsMeaning(ys)
  {
    hide ReadableItem, HighSurrogate, QuadValue, Utf8, CharMeaning;
    var zs := [y] + ys;
    assert zs[1..] == ys;
    if ys != [] {
      assert zs[2..] == ys[1..];
    }
  }

  /** An escape in front makes the meaning of what follows longer than what the decoder makes of that. */
  lemma {:induction false} OneMore(y: Item, xs: seq<Item>)
    requires ReadableItem(y) && y.Unit? && ReadableItems(xs)
    ensures Single([y] + Escapes(xs)) && |CharsMeaning([y] + Escapes(xs))| > |ItemsValue(xs)|
    decreases |xs|, 1
  {
    hide Escapes, ReadableItem, HighSurrogate, QuadValue, Utf8, CharsMeaning, ItemValue;
    var ys := Escapes(xs);
    FirstEscape(xs);
    MeaningStep(y, ys);
    if ys != [] && NamesHigh(y) && NamesLow(ys[0]) {
      EscapesOf(xs);
      LowAlone(y, ys[0]);
      assert ys[1..] == Escapes(xs[1..]);
      NoLonger(xs[1..]);
    } else {
      NoLonger(xs);
    }
  }

  lemma LowAlone(y: Item, z: Item)
    requires ReadableItem(y) && ReadableItem(z) && NamesHigh(y) && NamesLow(z)
    ensures !NamesHigh(z) && |ItemValue(z)| == 3
    ensures |Utf8(PairScalar(QuadValue(y.hex), QuadValue(z.hex)))| == 4
  {
  }

  /** What the decoder makes of a string is never longer than its meaning. */
  lemma {:induction false} NoLonger(xs: seq<Item>)
    requires ReadableItems(xs)
    ensures |ItemsValue(xs)| <= |StringMeaning(xs)|
    decreases |xs|, 0
  {
    hide Escapes, ReadableItem, HighSurrogate, QuadValue, Utf8, StringMeaning, ProperPair;
    if xs != [] {
      var x := xs[0];
      MeaningOfFirst(xs);
      NoLonger(xs[1..]);
      if !ProperPair(x) {
        OneMore(Unit(x.low), xs[1..]);
        HighBytes(QuadValue(x.high));
      }
    }
  }

  lemma HighBytes(high: nat)
    requires HighSurrogate(high)
    ensures |Utf8(high)| == 3 && Utf8(high)[0] == 0xED
  {
  }

  /** A string's first item: it stands for what the decoder makes of it, unless it is a mismatched pair. */
  lemma MeaningOfFirst(xs: seq<Item>)
    requires ReadableItems(xs) && xs != []
    ensures
      var x := xs[0];
      if ProperPair(x) then StringMeaning(xs) == ItemValue(x) + StringMeaning(xs[1..])
      else
        && x.Pair? && HexQuad(x.high) && HexQuad(x.low) && HighSurrogate(QuadValue(x.high)) && ReadableItem(Unit(x.low))
        && Single([Unit(x.low)] + Escapes(xs[1..]))
        && StringMeaning(xs) == Utf8(QuadValue(x.high)) + CharsMeaning([Unit(x.low)] + Escapes(xs[1..]))
  {
    var (x, ys) := (xs[0], Escapes(xs[1..]));
    EscapesOf(xs);
    if x.Pair? {
      PairNames(x);
      PairMeaning(x, ys);
    } else {
      hide Escapes, ReadableItem, HighSurrogate, QuadValue, Utf8, CharsMeaning;
      MeaningStep(x, ys);
    }
  }

  lemma PairMeaning(x: Item, ys: seq<Item>)
    requires ReadableItem(x) && x.Pair? && Single(ys)
    ensures ReadableItem(Unit(x.high)) && ReadableItem(Unit(x.low)) && Single([Unit(x.low)] + ys)
    ensures Single([Unit(x.high)] + ([Unit(x.low)] + ys))
    ensures CharsMeaning([Unit(x.high)] + ([Unit(x.low)] + ys)) ==
      if ProperPair(x) then ItemValue(x) + CharsMeaning(ys)
      else Utf8(QuadValue(x.high)) + CharsMeaning([Unit(x.low)] + ys)
  {
    hide ReadableItem, QuadValue, Utf8, CharsMeaning;
    PairNames(x);
    var zs := [Unit(x.low)] + ys;
    MeaningStep(Unit(x.high), zs);
    assert zs[1..] == ys;
    if ProperPair(x) {
      PairIsAstral(QuadValue(x.high), QuadValue(x.low));
    }
  }

  lemma PairIsAstral(high: nat, low: nat)
    requires HighSurrogate(high) && LowSurrogate(low)
    ensures PairScalar(high, low) == Astral(high, low)
  {
  }

  /** The decoder keeps a string's meaning exactly when every escape right after a high surrogate's names a low one. */
  lemma DecodedIsMeaning(xs: seq<Item>)
    requires ReadableItems(xs)
    ensures ItemsValue(xs) == StringMeaning(xs) <==> !Mismatched(Escapes(xs))
  {
    hide ItemsValue, StringMeaning, Escapes, Mismatched, ProperPairs;
    MismatchedIsImproper(xs);
    DecodedIfProper(xs);
  }

  lemma {:induction false} DecodedIfProper(xs: seq<Item>)
    requires ReadableItems(xs)
    ensures ItemsValue(xs) == StringMeaning(xs) <==> ProperPairs(xs)
    decreases |xs|
  {
    hide Escapes, ReadableItem, HighSurrogate, QuadValue, Utf8, StringMeaning, ItemValue, ProperPair, CharsMeaning;
    EmptyMeaning();
    if xs != [] {
      var (x, rest) := (xs[0], xs[1..]);
      MeaningOfFirst(xs);
      DecodedIfProper(rest);
      if ProperPair(x) {
        Cancel(ItemValue(x), ItemsValue(rest), StringMeaning(rest));
      } else {
        OneMore(Unit(x.low), rest);
        MergedIs(x);
        Merged(QuadValue(x.high), QuadValue(x.low), ItemsValue(rest), CharsMeaning([Unit(x.low)] + Escapes(rest)));
      }
    }
  }

  lemma MergedIs(x: Item)
    requires ReadableItem(x) && x.Pair?
    ensures HexQuad(x.high) && HexQuad(x.low) && HighSurrogate(QuadValue(x.high))
    ensures ItemValue(x) == Utf8(Astral(QuadValue(x.high), QuadValue(x.low)))
  {
  }

  lemma EmptyMeaning()
    ensures StringMeaning([]) == []
  {
  }

  lemma Cancel(a: seq<byte>, s: seq<byte>, r: seq<byte>)
    ensures a + s == a + r <==> s == r
  {
    if a + s == a + r {
      assert s == (a + s)[|a|..] == (a + r)[|a|..] == r;
    }
  }

  /** A merged code point is as long as what it was merged from only in four bytes, which start differently. */
  lemma Merged(high: nat, low: nat, s: seq<byte>, r: seq<byte>)
    requires HighSurrogate(high) && low < 0x1_0000 && |s| < |r|
    ensures Utf8(Astral(high, low)) + s != Utf8(high) + r
  {
    HighBytes(high);
    var u := Utf8(Astral(high, low));
    assert |u| == 4 ==> u[0] >= 0xF0;
    assert (u + s)[0] == u[0] && (Utf8(high) + r)[0] == 0xED;
  }

  // ---- Values ------------------------------------------------------------

  function Meaning(s: Syntax): (v: Value)
    requires Readable(s)
  {
    match s
    case SNull => Null
    case STrue => Bool(true)
    case SFalse => Bool(false)
    case SNum(_, _, _, _) => Num(Text(s))
    case SStr(items) => Str(StringMeaning(items))
    case SArr(_, elems) => Arr(ElementsMeaning(elems))
    case SObj(_, fields) => Obj(FieldsMeaning(fields))
  }

  function ElementsMeaning(es: Elements): (vs: seq<Value>)
    requires ReadableElements(es)
  {
    if es.NoElements? then [] else [Meaning(es.value)] + ElementsMeaning(es.more)
  }

  function FieldsMeaning(fs: Fields): (ms: seq<Member>)
    requires ReadableFields(fs)
  {
    if fs.NoFields? then [] else [Member(StringMeaning(fs.key), Meaning(fs.value))] + FieldsMeaning(fs.more)
  }

  /** No string mismatches a surrogate, and no key holds a NUL. */
  predicate Lossless(s: Syntax)
    requires Readable(s)
  {
    match s
    case SStr(items) => !Mismatched(Escapes(items))
    case SArr(_, elems) => ElementsLossless(elems)
    case SObj(_, fields) => FieldsLossless(fields)
    case _ => true
  }

  predicate ElementsLossless(es: Elements)
    requires ReadableElements(es)
  {
    es.Elements? ==> Lossless(es.value) && ElementsLossless(es.more)
  }

  predicate KeyLossless(key: seq<Item>)
    requires ReadableItems(key)
  {
    !Mismatched(Escapes(key)) && 0 !in StringMeaning(key)
  }

  predicate FieldsLossless(fs: Fields)
    requires ReadableFields(fs)
  {
    fs.Fields? ==> KeyLossless(fs.key) && Lossless(fs.value) && FieldsLossless(fs.more)
  }

  /** What the parser keeps is the value itself exactly when its strings mismatch no surrogate and its keys hold no
      NUL. */
  lemma {:induction false} KeptIsMeaning(s: Syntax)
    requires Readable(s)
    ensures Kept(s) == Meaning(s) <==> Lossless(s)
    decreases s
  {
    hide ItemsValue, StringMeaning, Mismatched, Escapes;
    match s
    case SStr(items) => DecodedIsMeaning(items);
    case SArr(_, elems) => ElementsKeptIsMeaning(elems);
    case SObj(_, fields) => FieldsKeptIsMeaning(fields);
    case _ =>
  }

  lemma {:induction false} ElementsKeptIsMeaning(es: Elements)
    requires ReadableElements(es)
    ensures ElementsKept(es) == ElementsMeaning(es) <==> ElementsLossless(es)
    decreases es
  {
    if es.Elements? {
      KeptIsMeaning(es.value);
      ElementsKeptIsMeaning(es.more);
      ConsEqual(Kept(es.value), ElementsKept(es.more), Meaning(es.value), ElementsMeaning(es.more));
    }
  }

  lemma {:induction false} FieldsKeptIsMeaning(fs: Fields)
    requires ReadableFields(fs)
    ensures FieldsKept(fs) == FieldsMeaning(fs) <==> FieldsLossless(fs)
    decreases fs
  {
    hide ItemsValue, StringMeaning, KeyLossless, CString;
    if fs.Fields? {
      KeyKept(fs.key);
      KeptIsMeaning(fs.value);
      FieldsKeptIsMeaning(fs.more);
      ConsEqual(Member(CString(ItemsValue(fs.key)), Kept(fs.value)), FieldsKept(fs.more),
                Member(StringMeaning(fs.key), Meaning(fs.value)), FieldsMeaning(fs.more));
    }
  }

  lemma KeyKept(key: seq<Item>)
    requires ReadableItems(key)
    ensures CString(ItemsValue(key)) == StringMeaning(key) <==> KeyLossless(key)
  {
    hide ItemsValue, StringMeaning, Mismatched, Escapes;
    NoLonger(key);
    DecodedIsMeaning(key);
    CStringShorter(ItemsValue(key));
  }

  lemma {:induction false} CStringShorter(s: seq<byte>)
    ensures |CString(s)| <= |s| && (|CString(s)| == |s| ==> CString(s) == s)
    decreases |s|
  {
    if s != [] {
      CStringShorter(s[1..]);
    }
  }

  lemma ConsEqual<T>(a: T, s: seq<T>, b: T, r: seq<T>)
    ensures [a] + s == [b] + r <==> a == b && s == r
  {
    if [a] + s == [b] + r {
      assert ([a] + s)[0] == ([b] + r)[0];
      assert ([a] + s)[1..] == s && ([b] + r)[1..] == r;
    }
  }
}
