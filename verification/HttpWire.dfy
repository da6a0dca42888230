/** HTTP messages byte by byte: which replies are taken at all, and what a request looks like on the wire. */
module HttpWire {
  import opened CTypes
  import opened Numerals
  import opened HttpText
  import opened HttpLaws

  // ---- Lines -------------------------------------------------------------

  /** A line end at `p`. */
  predicate Crlf(s: seq<byte>, p: nat) {
    p + 1 < |s| && s[p] == 13 && s[p + 1] == 10
  }

  /** The first line end, and no NUL before it. */
  predicate FirstEol(s: seq<byte>, e: nat) {
    Crlf(s, e) && forall i: nat :: i < e ==> s[i] != 0 && !Crlf(s, i)
  }

  /** The search for a line end finds the first one and nothing past a NUL. */
  lemma {:induction false} EolIsFirst(s: seq<byte>)
    ensures FindEol(s).Some? ==> FirstEol(s, FindEol(s).value)
    ensures forall e: nat :: FirstEol(s, e) ==> FindEol(s) == Some(e)
    decreases |s|
  {
    if s != [] && s[0] != 0 && !Crlf(s, 0) {
      var t := s[1..];
      EolIsFirst(t);
      forall e: nat | FirstEol(s, e) ensures FindEol(s) == Some(e) {
        assert FirstEol(t, e - 1) by {
          forall i: nat | i < e - 1 ensures t[i] != 0 && !Crlf(t, i) {
            assert t[i] == s[i + 1] && Crlf(s, i + 1) == Crlf(t, i);
          }
        }
      }
      if FindEol(s).Some? {
        var e := FindEol(s).value;
        forall i: nat | i < e ensures s[i] != 0 && !Crlf(s, i) {
          if i > 0 {
            assert s[i] == t[i - 1] && Crlf(s, i) == Crlf(t, i - 1);
          }
        }
      }
    }
  }

  /** A blank line at `p`, and no NUL before it. */
  predicate BlankAt(s: seq<byte>, p: nat) {
    Crlf(s, p) && (p == 0 || (p >= 2 && Crlf(s, p - 2))) && forall i: nat :: i < p ==> s[i] != 0
  }

  predicate FirstBlank(s: seq<byte>, p: nat) {
    BlankAt(s, p) && forall q: nat :: q < p ==> !BlankAt(s, q)
  }

  /** A line that is not blank moves the blank line by its length. */
  lemma BlankAfterLine(s: seq<byte>, e: nat, p: nat)
    requires FirstEol(s, e) && e > 0
    ensures BlankAt(s, p) <==> p >= e + 2 && BlankAt(s[e + 2..], p - e - 2)
  {
    var t := s[e + 2..];
    forall i: nat ensures Crlf(t, i) <==> Crlf(s, e + 2 + i) {
    }
    if BlankAt(s, p) {
      assert !Crlf(s, 0) && p >= 2 && !(p - 2 < e) && p - 2 != e + 1;
      forall i: nat | i < p - e - 2 ensures t[i] != 0 {
        assert t[i] == s[e + 2 + i];
      }
    }
    if p >= e + 2 && BlankAt(t, p - e - 2) {
      forall i: nat | i < p ensures s[i] != 0 {
        if i >= e + 2 {
          assert s[i] == t[i - e - 2];
        }
      }
    }
  }

  /** The header section is taken exactly when it ends in a blank line, and the body is what follows the first one. */
  lemma {:induction false} HeadEnds(s: seq<byte>)
    ensures
      var r := ReadHeaders(s);
      if r.None? then forall p: nat :: !BlankAt(s, p)
      else exists p: nat :: FirstBlank(s, p) && r.value.1 == s[p + 2..]
    decreases |s|
  {
    hide ReadHeader, FindEol, FirstEol, BlankAt;
    EolIsFirst(s);
    var found := FindEol(s);
    if found.None? {
      forall p: nat ensures !BlankAt(s, p) {
        NoBlank(s, p);
      }
    } else if found.value == 0 {
      BlankFirst(s);
    } else {
      var e := found.value;
      var t := s[e + 2..];
      HeadEnds(t);
      forall p: nat ensures BlankAt(s, p) <==> p >= e + 2 && BlankAt(t, p - e - 2) {
        BlankAfterLine(s, e, p);
      }
      if ReadHeaders(t).Some? {
        Within(t);
        var p: nat :| FirstBlank(t, p) && ReadHeaders(t).value.1 == t[p + 2..];
        assert FirstBlank(s, p + e + 2) && t[p + 2..] == s[p + e + 4..];
      }
    }
  }

  lemma Within(s: seq<byte>)
    ensures forall p: nat :: BlankAt(s, p) ==> p + 2 <= |s|
  {
  }

  /** A blank line is a line end, so there is a first one. */
  lemma NoBlank(s: seq<byte>, p: nat)
    requires FindEol(s).None?
    ensures !BlankAt(s, p)
  {
    if BlankAt(s, p) {
      var e: nat := SomeFirst(s, p);
      EolIsFirst(s);
    }
  }

  lemma {:induction false} SomeFirst(s: seq<byte>, p: nat) returns (e: nat)
    requires Crlf(s, p) && forall i: nat :: i < p ==> s[i] != 0
    ensures FirstEol(s, e) && e <= p
    decreases p
  {
    if q: nat :| q < p && Crlf(s, q) {
      e := SomeFirst(s, q);
    } else {
      e := p;
    }
  }

  lemma BlankFirst(s: seq<byte>)
    requires FirstEol(s, 0)
    ensures FirstBlank(s, 0)
  {
  }

  ghost predicate HasBlank(s: seq<byte>) {
    exists p: nat :: BlankAt(s, p)
  }

  /**
   * A reply is taken exactly when it has twelve bytes, its first line a space, and its head a blank line at the end,
   * all before any NUL.
   */
  lemma TakesReplies(s: seq<byte>)
    ensures ParseReply(s).Some? <==>
      && |s| >= 12
      && exists e: nat :: FirstEol(s, e) && 32 in s[..e] && HasBlank(s[e + 2..])
  {
    hide FindEol, ReadHeaders, ReadStatus, BodyOf, HasBlank, FirstEol;
    EolIsFirst(s);
    if FindEol(s).Some? {
      var e := FindEol(s).value;
      HeadTaken(s[e + 2..]);
      SpaceFound(s[..e]);
    }
  }

  lemma HeadTaken(s: seq<byte>)
    ensures ReadHeaders(s).Some? <==> HasBlank(s)
  {
    hide ReadHeaders, BlankAt;
    HeadEnds(s);
  }

  lemma SpaceFound(line: seq<byte>)
    ensures ReadStatus(line).Some? <==> 32 in line
  {
    var a := FindByte(line, SP);
    if a.Some? {
      assert line[a.value] == 32;
    } else {
      assert 32 !in line;
    }
  }

  /** Any status line with a space in it: the number follows the first space, and the reason the second, if there is
      one. */
  lemma StatusParts(version: seq<byte>, code: seq<byte>, reason: Option<seq<byte>>)
    requires 32 !in version && 32 !in code
    ensures
      var rest := code + if reason.Some? then [32] + reason.value else [];
      ReadStatus(version + [32] + rest) == Some((ReadLong(rest), if reason.Some? then reason.value else []))
  {
    hide ReadLong, FindByte;
    var rest := code + if reason.Some? then [32] + reason.value else [];
    FirstByteAt(version, 32, rest);
    if reason.Some? {
      FirstByteAt(code, 32, reason.value);
      assert rest == code + [32] + reason.value;
    } else {
      assert rest == code;
      NotFound(code);
    }
  }

  lemma NotFound(s: seq<byte>)
    requires 32 !in s
    ensures FindByte(s, 32).None?
  {
  }

  /** A header line without a colon is passed over. */
  lemma LineDropped(s: seq<byte>, e: nat)
    requires FirstEol(s, e) && e > 0 && 58 !in s[..e]
    ensures ReadHeaders(s) == ReadHeaders(s[e + 2..])
  {
    hide FindEol, FindByte, FirstEol;
    EolIsFirst(s);
    NoColon(s[..e]);
    var r := ReadHeaders(s[e + 2..]);
    assert r.Some? ==> [] + r.value.0 == r.value.0;
  }

  /** Any other is a header: the name before the first colon, the value after it and any blanks. */
  lemma LineRead(s: seq<byte>, e: nat, name: seq<byte>, blanks: seq<byte>, value: seq<byte>)
    requires FirstEol(s, e) && s[..e] == name + [58] + blanks + value && 58 !in name
    requires (forall i :: 0 <= i < |blanks| ==> blanks[i] == 32 || blanks[i] == 9)
    requires value == [] || (value[0] != 32 && value[0] != 9)
    ensures
      var r := ReadHeaders(s[e + 2..]);
      ReadHeaders(s) == if r.None? then None else Some(([Header(name, value)] + r.value.0, r.value.1))
  {
    hide FindEol, FindByte, FirstEol, SkipBlanks;
    EolIsFirst(s);
    var line := s[..e];
    assert line == name + [58] + (blanks + value);
    FirstByteAt(name, 58, blanks + value);
    BlanksAreSkipped(blanks, value);
    assert ReadHeader(line) == Some(Header(name, value));
  }

  lemma NoColon(line: seq<byte>)
    requires 58 !in line
    ensures ReadHeader(line).None?
  {
  }

  /** Names agree when they are equal up to letters of the other case. */
  lemma SameMeansCase(a: seq<byte>, b: seq<byte>)
    ensures SameIgnoringCase(a, b) <==> |a| == |b| && forall i :: 0 <= i < |a| ==> SameLetter(a[i], b[i])
  {
    if |a| == |b| {
      forall i | 0 <= i < |a| ensures SameLetter(a[i], b[i]) <==> Lower(a[i]) == Lower(b[i]) {
      }
    }
  }

  predicate SameLetter(c: byte, d: byte) {
    c == d || (65 <= c <= 90 && d == c + 32) || (65 <= d <= 90 && c == d + 32)
  }

  // ---- Requests ----------------------------------------------------------

  /** Header lines as they are sent. */
  function Sent(hs: seq<Header>): (s: seq<byte>) {
    if hs == [] then [] else hs[0].name + [58, 32] + hs[0].value + [13, 10] + Sent(hs[1..])
  }

  lemma {:induction false} SentIsSpaced(hs: seq<Header>)
    ensures FieldLines(Spaced(hs)) == Sent(hs)
    decreases |hs|
  {
    if hs != [] {
      SentIsSpaced(hs[1..]);
      assert Spaced(hs)[1..] == Spaced(hs[1..]);
      var h := hs[0];
      assert h.name + [58] + [32] + h.value + Eol() == h.name + [58, 32] + h.value + [13, 10];
    }
  }

  lemma SentTwo(a: seq<Header>, b: seq<Header>)
    ensures Sent(a + b) == Sent(a) + Sent(b)
    decreases |a|
  {
    if a == [] {
      assert a + b == b;
    } else {
      assert (a + b)[1..] == a[1..] + b;
      SentTwo(a[1..], b);
    }
  }

  lemma NoneSent()
    ensures Sent([]) == []
  {
  }

  lemma SentOne(h: Header)
    ensures Sent([h]) == h.name + [58, 32] + h.value + [13, 10]
  {
    assert Sent([]) == [];
  }

  /** The text of a request, and the decimal digits of the body's length when there is a body. */
  lemma RequestBytes(verb: seq<byte>, host: seq<byte>, path: seq<byte>, hs: seq<Header>, body: seq<byte>)
    returns (digits: seq<byte>)
    ensures AllDigits(digits, 10) && Value(digits, 10) == |body| && (|digits| > 1 ==> digits[0] != 48)
    ensures Request(verb, host, path, hs, body) ==
      verb + Ascii(" ") + path + Ascii(" HTTP/1.1\r\nHost: ") + host + Ascii("\r\n") + Sent(hs)
      + (if body == [] then [] else Ascii("Content-Length: ") + digits + Ascii("\r\n"))
      + Ascii("\r\n") + body
  {
    hide Numeral, AllDigits, Value, Ascii, Sent, Spaced, FieldLines, Eol;
    digits := Numeral(|body|, 10, false);
    NumeralReadsBack(|body|, 10, false);
    ShortNumeral(|body|);
    var a, c := [Header(Ascii("Host"), host)], [Header(Ascii("Content-Length"), digits)];
    SentIsSpaced(RequestHeaders(host, hs, body));
    SentTwo(a, hs);
    SentTwo(a + hs, if body == [] then [] else c);
    NoneSent();
    SentOne(a[0]);
    SentOne(c[0]);
    HostText(host);
    LengthText(digits);
    LineText();
    var more := if body == [] then [] else Sent(c);
    assert Sent(a + hs + if body == [] then [] else c) == Sent(a) + Sent(hs) + more;
    assert RequestHeaders(host, hs, body) == a + hs + if body == [] then [] else c;
    Regroup(verb, [SP], path, Ascii("HTTP/1.1"), Eol(), Ascii("Host: "), host, Sent(hs) + more, Eol() + body);
  }

  lemma Regroup(verb: seq<byte>, sp: seq<byte>, path: seq<byte>, version: seq<byte>, eol: seq<byte>, key: seq<byte>,
                host: seq<byte>, more: seq<byte>, end: seq<byte>)
    ensures verb + sp + path + sp + version + eol + (key + host + eol + more) + end
      == verb + sp + path + (sp + version + eol + key) + host + eol + more + end
  {
  }

  lemma ShortNumeral(n: nat)
    ensures |Numeral(n, 10, false)| > 1 ==> n != 0
  {
  }

  lemma HostText(host: seq<byte>)
    ensures Ascii("Host") + [58, 32] + host + [13, 10] == Ascii("Host: ") + host + Ascii("\r\n")
  {
    assert Ascii("Host") + [58, 32] == Ascii("Host: ");
    assert Ascii("\r\n") == [13, 10];
  }

  lemma LengthText(digits: seq<byte>)
    ensures Ascii("Content-Length") + [58, 32] + digits + [13, 10] == Ascii("Content-Length: ") + digits + Ascii("\r\n")
  {
    assert Ascii("Content-Length") + [58, 32] == Ascii("Content-Length: ");
    assert Ascii("\r\n") == [13, 10];
  }

  lemma LineText()
    ensures [SP] == Ascii(" ") && Eol() == Ascii("\r\n")
    ensures [SP] + Ascii("HTTP/1.1") + Eol() + Ascii("Host: ") == Ascii(" HTTP/1.1\r\nHost: ")
  {
    assert Ascii("\r\n") == [13, 10];
  }
}
