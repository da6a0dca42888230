/** The two passes over a string token, and what a decoded string, or one given up on, looks like in the text. */
module JsonStrings {
  import opened CTypes
  import opened Json
  import opened JsonText

  // ---- The two passes over a string --------------------------------------

  /** No quote or backslash lies between `p` and `q`. */
  predicate Plain(t: seq<byte>, p: nat, q: nat) {
    p <= q <= |t| && forall i :: p <= i < q ==> t[i] != QUOTE && t[i] != BACKSLASH
  }

  lemma {:induction false} ScanPlain(t: seq<byte>, p: nat, q: nat)
    requires Plain(t, p, q)
    ensures ScanQuote(t, p) == ScanQuote(t, q)
    decreases q - p
  {
    if p < q {
      ScanPlain(t, p + 1, q);
    }
  }

  /** Hexadecimal digits are plain; the character that stops them may not be. */
  lemma {:induction false} HexPlain(t: seq<byte>, p: nat, n: nat, acc: nat)
    requires p <= |t|
    ensures
      var r := Hex(t, p, n, acc);
      && (r.ok ==> Plain(t, p, r.next))
      && (!r.ok ==> (r.next == |t| && Plain(t, p, r.next)) || (r.next > p && Plain(t, p, r.next - 1)))
    decreases n
  {
    if n > 0 && p < |t| && HexDigit(t[p]) >= 0 {
      HexPlain(t, p + 1, n - 1, acc * 16 + HexDigit(t[p]));
    }
  }

  /** Where an escape leaves the decoder, as the sizing pass sees it. */
  lemma EscapeScan(t: seq<byte>, p: nat)
    requires p < |t| && t[p] == BACKSLASH && ScanQuote(t, p) < |t|
    ensures
      var q := ScanQuote(t, p);
      match Escape(t, p + 1)
      case Done(_, next) => next <= q && ScanQuote(t, next) == q
      case Fail(stop) => stop <= q + 1
  {
    hide Utf8, HighSurrogate;
    var q := ScanQuote(t, p);
    assert ScanQuote(t, p + 2) == q;
    if t[p + 1] == LOWER_U {
      UnicodeScan(t, p + 2);
    }
  }

  lemma UnicodeScan(t: seq<byte>, p: nat)
    requires p <= |t| && ScanQuote(t, p) < |t|
    ensures
      var q := ScanQuote(t, p);
      match Unicode(t, p)
      case Done(_, next) => next <= q && ScanQuote(t, next) == q
      case Fail(stop) => stop <= q + 1
  {
    hide Utf8, HighSurrogate, Hex;
    var q := ScanQuote(t, p);
    HexScan(t, p);
    var a := Hex(t, p, 4, 0);
    if a.ok && |t| - a.next >= 2 && t[a.next] == BACKSLASH && t[a.next + 1] == LOWER_U {
      assert ScanQuote(t, a.next + 2) == q;
      HexScan(t, a.next + 2);
    }
  }

  lemma HexScan(t: seq<byte>, p: nat)
    requires p <= |t| && ScanQuote(t, p) < |t|
    ensures
      var q := ScanQuote(t, p);
      var r := Hex(t, p, 4, 0);
      && (r.ok ==> r.next <= q && ScanQuote(t, r.next) == q)
      && (!r.ok ==> r.next <= q + 1)
  {
    var q := ScanQuote(t, p);
    var r := Hex(t, p, 4, 0);
    HexPlain(t, p, 4, 0);
    if r.ok {
      ScanPlain(t, p, r.next);
    } else if r.next == |t| && Plain(t, p, r.next) {
      ScanPlain(t, p, r.next);
      assert false;
    } else {
      ScanPlain(t, p, r.next - 1);
    }
  }

  /** When decoding succeeds it ends at the quote the sizing pass found; when it fails it has consumed at most that
      quote. */
  lemma {:induction false} SameQuote(t: seq<byte>, p: nat)
    requires p <= |t|
    ensures
      match StringTail(t, p)
      case Done(_, next) => ScanQuote(t, p) == next - 1
      case Fail(stop) => ScanQuote(t, p) < |t| ==> stop <= ScanQuote(t, p) + 1
    decreases |t| - p
  {
    hide Escape;
    if p < |t| && t[p] != QUOTE {
      if t[p] != BACKSLASH {
        SameQuote(t, p + 1);
      } else {
        match Escape(t, p + 1)
        case Fail(_) =>
          if ScanQuote(t, p) < |t| {
            EscapeScan(t, p);
          }
        case Done(_, next) =>
          EscapeDone(t, p);
          SameQuote(t, next);
      }
    }
  }

  /** A decoded escape looks to the sizing pass like an escaped character and plain ones. */
  lemma EscapeDone(t: seq<byte>, p: nat)
    requires p < |t| && t[p] == BACKSLASH && Escape(t, p + 1).Done?
    ensures ScanQuote(t, p) == ScanQuote(t, Escape(t, p + 1).next)
  {
    hide Utf8, HighSurrogate, Hex;
    if t[p + 1] == LOWER_U {
      var a := Hex(t, p + 2, 4, 0);
      HexPlain(t, p + 2, 4, 0);
      ScanPlain(t, p + 2, a.next);
      if Escape(t, p + 1).next != a.next {
        HexPlain(t, a.next + 2, 4, 0);
        ScanPlain(t, a.next + 2, a.next + 6);
        assert ScanQuote(t, a.next) == ScanQuote(t, a.next + 2);
      }
    }
  }

  // ---- The text behind what was decoded ----------------------------------

  /** Four digits read are a quad of the text. */
  lemma FoundHex(t: seq<byte>, p: nat)
    requires p <= |t| && Hex(t, p, 4, 0).ok
    ensures p + 4 <= |t| && HexQuad(t[p..p + 4]) && Hex(t, p, 4, 0).value == QuadValue(t[p..p + 4])
  {
    var h := Hex(t, p, 4, 0);
    assert h.next == p + 4;
    HexDigitsOf(t, p, 4, 0);
    ReadsHex(t, p, t[p..p + 4]);
  }

  /** The characters consumed are hexadecimal digits, except one that stopped the reading. */
  lemma {:induction false} HexDigitsOf(t: seq<byte>, p: nat, n: nat, acc: nat)
    requires p <= |t|
    ensures
      var r := Hex(t, p, n, acc);
      && r.next <= p + n
      && forall i :: p <= i < r.next && (r.ok || i < r.next - 1) ==> HexDigit(t[i]) >= 0
    ensures
      var r := Hex(t, p, n, acc);
      !r.ok && r.next < p + n ==> r.next == |t| || HexDigit(t[r.next - 1]) < 0
    ensures
      var r := Hex(t, p, n, acc);
      !r.ok ==> r.next == |t| || (r.next > p && HexDigit(t[r.next - 1]) < 0)
    decreases n
  {
    if n > 0 && p < |t| && HexDigit(t[p]) >= 0 {
      HexDigitsOf(t, p + 1, n - 1, acc * 16 + HexDigit(t[p]));
    }
  }

  predicate Marked(x: Item) {
    x.Unit? || x.Pair?
  }

  /** A decoded \u escape is one quad, or two when the first names a high surrogate. */
  lemma FoundUnicode(t: seq<byte>, p: nat) returns (x: Item)
    requires p + 2 <= |t| && t[p] == BACKSLASH && t[p + 1] == LOWER_U && Unicode(t, p + 2).Done?
    ensures
      var d := Unicode(t, p + 2);
      && p + 6 <= d.next && ReadableItem(x) && Marked(x) && ItemText(x) == t[p..d.next] && ItemValue(x) == d.text
      && (LoneHigh(x) ==> NoUnit(t, d.next))
  {
    hide Utf8, Hex, HighSurrogate, HexQuad, QuadValue;
    FoundHex(t, p + 2);
    var high := t[p + 2..p + 6];
    if Unicode(t, p + 2).next == p + 6 {
      x := Unit(high);
    } else {
      FoundHex(t, p + 8);
      x := Pair(high, t[p + 8..p + 12]);
      assert t[p..p + 12] == t[p..p + 6] + t[p + 6..p + 12];
    }
  }

  /** An escape that was decoded is an item of the text. */
  lemma FoundEscape(t: seq<byte>, p: nat) returns (x: Item)
    requires p < |t| && t[p] == BACKSLASH && Escape(t, p + 1).Done?
    ensures
      var d := Escape(t, p + 1);
      && ReadableItem(x) && !x.Raw? && ItemText(x) == t[p..d.next] && ItemValue(x) == d.text
      && (LoneHigh(x) ==> NoUnit(t, d.next)) && (Marked(x) <==> t[p + 1] == LOWER_U)
  {
    if t[p + 1] == LOWER_U {
      hide Unicode, ItemText, ReadableItem, ItemValue, LoneHigh, NoUnit;
      x := FoundUnicode(t, p);
    } else {
      x := Short(t[p + 1]);
      assert t[p..p + 2] == [t[p], t[p + 1]];
    }
  }

  // ---- A quote passed ----------------------------------------------------

  /** A \u escape at `u` is cut short by the quote at `q`: fewer than four digits lie between, and nothing else. */
  predicate CutEscape(t: seq<byte>, u: nat, q: nat) {
    && u + 2 <= q < u + 6 && q < |t| && t[u] == BACKSLASH && t[u + 1] == LOWER_U && t[q] == QUOTE
    && forall i :: u + 2 <= i < q ==> HexDigit(t[i]) >= 0
  }

  /** From `p` on the text is a run of well-formed characters and then an escape cut short by the quote at `q`. */
  ghost predicate CutShort(t: seq<byte>, p: nat, q: nat) {
    exists xs :: ReadableItems(xs) && StartsWith(t, p, ItemsText(xs)) && CutEscape(t, p + |ItemsText(xs)|, q)
  }

  lemma {:induction false} HexCut(t: seq<byte>, p: nat, n: nat, acc: nat, q: nat)
    requires p <= q < p + n && q < |t| && t[q] == QUOTE && forall i :: p <= i < q ==> HexDigit(t[i]) >= 0
    ensures !Hex(t, p, n, acc).ok && Hex(t, p, n, acc).next == q + 1
    decreases n
  {
    if p < q {
      HexCut(t, p + 1, n - 1, acc * 16 + HexDigit(t[p]), q);
    }
  }

  /** An escape cut short makes the decoder consume the quote, the one the sizing pass finds. */
  lemma CutIsConsumed(t: seq<byte>, p: nat, q: nat)
    requires CutEscape(t, p, q)
    ensures StringTail(t, p) == Fail(q + 1) && ScanQuote(t, p) == q
  {
    hide Hex;
    HexCut(t, p + 2, 4, 0, q);
    ScanPlain(t, p + 2, q);
  }

  /** So does a second half cut short after a high surrogate. */
  lemma PairCutIsConsumed(t: seq<byte>, p: nat, x: Item, q: nat)
    requires ReadableItem(x) && LoneHigh(x) && StartsWith(t, p, ItemText(x)) && CutEscape(t, p + 6, q)
    ensures StringTail(t, p) == Fail(q + 1) && ScanQuote(t, p) == q
  {
    hide Hex, HighSurrogate;
    MarkedQuad(t, p, x.hex);
    HexPlain(t, p + 2, 4, 0);
    ScanPlain(t, p + 2, p + 6);
    HexCut(t, p + 8, 4, 0, q);
    CutIsConsumed(t, p + 6, q);
  }

  /** The sizing pass steps over a well-formed character. */
  lemma ScanItem(t: seq<byte>, p: nat, x: Item)
    requires ReadableItem(x) && StartsWith(t, p, ItemText(x))
    ensures p + |ItemText(x)| <= |t| && ScanQuote(t, p) == ScanQuote(t, p + |ItemText(x)|)
  {
    hide Hex;
    First(t, p, ItemText(x));
    match x
    case Raw(_) =>
    case Short(c) =>
      assert t[p..p + 2][1] == t[p + 1];
    case Unit(hex) =>
      ScanQuad(t, p, hex);
    case Pair(high, low) =>
      Split(t, p, [BACKSLASH, LOWER_U] + high, [BACKSLASH, LOWER_U] + low);
      ScanQuad(t, p, high);
      ScanQuad(t, p + 6, low);
  }

  lemma ScanQuad(t: seq<byte>, p: nat, hex: seq<byte>)
    requires HexQuad(hex) && StartsWith(t, p, [BACKSLASH, LOWER_U] + hex)
    ensures p + 6 <= |t| && ScanQuote(t, p) == ScanQuote(t, p + 6)
  {
    hide Hex;
    MarkedQuad(t, p, hex);
    HexPlain(t, p + 2, 4, 0);
    ScanPlain(t, p + 2, p + 6);
  }

  /** The first of some items, in the text. */
  lemma ItemsSplit(t: seq<byte>, p: nat, xs: seq<Item>)
    requires xs != [] && StartsWith(t, p, ItemsText(xs))
    ensures StartsWith(t, p, ItemText(xs[0])) && StartsWith(t, p + |ItemText(xs[0])|, ItemsText(xs[1..]))
    ensures |ItemsText(xs)| == |ItemText(xs[0])| + |ItemsText(xs[1..])|
  {
    hide ItemText, StartsWith;
    Split(t, p, ItemText(xs[0]), ItemsText(xs[1..]));
  }

  /** An item that is no \u escape does not start with one. */
  lemma UnmarkedStart(t: seq<byte>, q: nat, x: Item)
    requires ReadableItem(x) && !Marked(x) && StartsWith(t, q, ItemText(x))
    ensures NoUnit(t, q)
  {
    First(t, q, ItemText(x));
    if x.Short? {
      assert t[q..q + 2][1] == t[q + 1];
    }
  }

  lemma {:induction false} CutShortIsConsumed(t: seq<byte>, p: nat, xs: seq<Item>, q: nat)
    requires ReadableItems(xs) && StartsWith(t, p, ItemsText(xs)) && CutEscape(t, p + |ItemsText(xs)|, q)
    ensures p <= |t| && StringTail(t, p) == Fail(q + 1) && ScanQuote(t, p) == q
    decreases |xs|
  {
    hide ItemText, StartsWith, StringTail, ScanQuote, CutEscape, ReadableItem, LoneHigh, NoUnit;
    if xs == [] {
      CutIsConsumed(t, p, q);
    } else {
      var x, p' := xs[0], p + |ItemText(xs[0])|;
      ItemsSplit(t, p, xs);
      if LoneHigh(x) && |xs| == 1 {
        UnitLength(x);
        PairCutIsConsumed(t, p, x, q);
      } else {
        CutShortIsConsumed(t, p', xs[1..], q);
        if LoneHigh(x) {
          ItemsSplit(t, p', xs[1..]);
          UnmarkedStart(t, p', xs[1]);
        }
        ReadsItem(t, p, x);
        ScanItem(t, p, x);
      }
    }
  }

  lemma UnitLength(x: Item)
    requires ReadableItem(x) && LoneHigh(x)
    ensures |ItemText(x)| == 6
  {
  }

  lemma ItemsCons(t: seq<byte>, p: nat, next: nat, x: Item, xs: seq<Item>)
    requires p <= next <= |t| && ItemText(x) == t[p..next] && StartsWith(t, next, ItemsText(xs))
    ensures StartsWith(t, p, ItemsText([x] + xs)) && |ItemsText([x] + xs)| == next - p + |ItemsText(xs)|
  {
    var ys := [x] + xs;
    assert ys[1..] == xs;
    assert t[p..next + |ItemsText(xs)|] == t[p..next] + t[next..next + |ItemsText(xs)|];
  }

  /** Where the decoder passed the quote, the text has an escape cut short by it. */
  lemma {:induction false} ConsumedIsCutShort(t: seq<byte>, p: nat) returns (xs: seq<Item>)
    requires p <= |t| && ScanQuote(t, p) < |t| && StringTail(t, p) == Fail(ScanQuote(t, p) + 1)
    ensures ReadableItems(xs) && StartsWith(t, p, ItemsText(xs)) && CutEscape(t, p + |ItemsText(xs)|, ScanQuote(t, p))
    ensures xs != [] && Marked(xs[0]) ==> !NoUnit(t, p)
    decreases |t| - p
  {
    hide Escape, ItemText, CutEscape, StartsWith, LoneHigh, ReadableItem, NoUnit;
    if t[p] != BACKSLASH {
      xs := ConsumedIsCutShort(t, p + 1);
      RawIsItem(t, p);
      ItemsCons(t, p, p + 1, Raw(t[p]), xs);
      xs := [Raw(t[p])] + xs;
    } else if Escape(t, p + 1).Fail? {
      xs := FailedEscape(t, p);
    } else {
      var next := Escape(t, p + 1).next;
      var x := FoundEscape(t, p);
      EscapeDone(t, p);
      xs := ConsumedIsCutShort(t, next);
      UnitAt(t, p);
      ItemsCons(t, p, next, x, xs);
      xs := [x] + xs;
    }
  }

  lemma UnitAt(t: seq<byte>, p: nat)
    requires p + 1 < |t| && t[p] == BACKSLASH
    ensures NoUnit(t, p) <==> t[p + 1] != LOWER_U
  {
  }

  lemma RawIsItem(t: seq<byte>, p: nat)
    requires p < |t| && t[p] != QUOTE && t[p] != BACKSLASH
    ensures ReadableItem(Raw(t[p])) && ItemText(Raw(t[p])) == t[p..p + 1] && !LoneHigh(Raw(t[p]))
    ensures ItemValue(Raw(t[p])) == [t[p]]
  {
  }

  /** Digits cut off by a quote. */
  lemma HexStopsAt(t: seq<byte>, u: nat, q: nat)
    requires u + 2 <= |t| && t[u] == BACKSLASH && t[u + 1] == LOWER_U && q < |t| && t[q] == QUOTE
    requires !Hex(t, u + 2, 4, 0).ok && Hex(t, u + 2, 4, 0).next == q + 1
    ensures CutEscape(t, u, q)
  {
    HexDigitsOf(t, u + 2, 4, 0);
    assert HexDigit(t[q]) < 0;
    if q + 1 == u + 2 {
      hide Hex;
      assert false;
    }
  }

  /** A \u escape that made the decoder pass the quote is cut short, or the second half after it is. */
  lemma FailedUnicode(t: seq<byte>, p: nat, q: nat)
    requires p + 2 <= |t| && t[p] == BACKSLASH && t[p + 1] == LOWER_U && q < |t| && t[q] == QUOTE
    requires Unicode(t, p + 2) == Fail(q + 1)
    ensures CutEscape(t, p, q) || (Hex(t, p + 2, 4, 0).ok && CutEscape(t, p + 6, q))
  {
    hide Utf8, Hex, HighSurrogate, CutEscape;
    if Hex(t, p + 2, 4, 0).ok {
      HexStopsAt(t, p + 6, q);
    } else {
      HexStopsAt(t, p, q);
    }
  }

  /** The escape that made the decoder pass the quote, as items before one that is cut short. */
  lemma FailedEscape(t: seq<byte>, p: nat) returns (xs: seq<Item>)
    requires p < |t| && t[p] == BACKSLASH && ScanQuote(t, p) < |t| && Escape(t, p + 1) == Fail(ScanQuote(t, p) + 1)
    ensures ReadableItems(xs) && StartsWith(t, p, ItemsText(xs)) && CutEscape(t, p + |ItemsText(xs)|, ScanQuote(t, p))
    ensures xs != [] && Marked(xs[0]) ==> !NoUnit(t, p)
  {
    hide Hex, Unicode, StartsWith, CutEscape, HexQuad, QuadValue;
    var q := ScanQuote(t, p);
    assert q == ScanQuote(t, p + 2) >= p + 2;
    StartsWithNothing(t, p);
    FailedUnicode(t, p, q);
    if CutEscape(t, p, q) {
      xs := [];
    } else {
      FoundHex(t, p + 2);
      xs := OneUnit(t, p);
    }
  }

  lemma OneUnit(t: seq<byte>, p: nat) returns (xs: seq<Item>)
    requires p + 6 <= |t| && t[p] == BACKSLASH && t[p + 1] == LOWER_U && HexQuad(t[p + 2..p + 6])
    ensures xs == [Unit(t[p + 2..p + 6])] && ReadableItems(xs)
    ensures StartsWith(t, p, ItemsText(xs)) && |ItemsText(xs)| == 6
  {
    hide StartsWith, HexQuad;
    var x := Unit(t[p + 2..p + 6]);
    StartsWithNothing(t, p + 6);
    ItemsCons(t, p, p + 6, x, []);
    assert [x] + [] == [x];
    xs := [x];
  }

  lemma StartsWithNothing(t: seq<byte>, p: nat)
    requires p <= |t|
    ensures StartsWith(t, p, ItemsText([])) && |ItemsText([])| == 0
  {
  }

  /**
   * The two passes agree: when decoding succeeds it ends at the quote the sizing pass found; when it fails its cursor
   * is at most one past that quote, and past it exactly when the text there is an escape the quote cuts short.
   */
  lemma PassesAgree(t: seq<byte>, p: nat)
    requires p <= |t|
    ensures
      var q := ScanQuote(t, p);
      match StringTail(t, p)
      case Done(_, next) => q == next - 1 && !CutShort(t, p, q)
      case Fail(stop) => q < |t| ==> stop <= q + 1 && (stop == q + 1 <==> CutShort(t, p, q))
  {
    hide StringTail, ScanQuote, CutEscape, ReadableItems, StartsWith;
    SameQuote(t, p);
    var q := ScanQuote(t, p);
    if q < |t| && StringTail(t, p) == Fail(q + 1) {
      var xs := ConsumedIsCutShort(t, p);
    }
    if CutShort(t, p, q) {
      var xs :| ReadableItems(xs) && StartsWith(t, p, ItemsText(xs)) && CutEscape(t, p + |ItemsText(xs)|, q);
      CutShortIsConsumed(t, p, xs, q);
    }
  }
}
