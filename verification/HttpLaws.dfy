/** What reading and writing HTTP messages keep: responses read back, and truncated bodies are prefixes. */
module HttpLaws {
  import opened CTypes
  import opened Numerals
  import opened HttpText

  // ---- Lines -------------------------------------------------------------

  /** Text without NUL, CR or LF. */
  predicate Plain(s: seq<byte>) {
    0 !in s && CR !in s && LF !in s
  }

  lemma {:induction false} EolAfterPlain(line: seq<byte>, rest: seq<byte>)
    requires Plain(line)
    ensures FindEol(line + Eol() + rest) == Some(|line|)
    decreases |line|
  {
    var s := line + Eol() + rest;
    if line == [] {
      assert s[0] == CR && s[1] == LF;
    } else {
      assert s[1..] == line[1..] + Eol() + rest;
      EolAfterPlain(line[1..], rest);
      assert s[0] == line[0];
    }
  }

  /** The first occurrence of a byte splits the string there. */
  lemma {:induction false} FirstByteAt(a: seq<byte>, c: byte, b: seq<byte>)
    requires c !in a
    decreases |a|
    ensures
      var s := a + [c] + b;
      FindByte(s, c) == Some(|a|) && s[..|a|] == a && s[|a| + 1..] == b
  {
    var s := a + [c] + b;
    assert s[|a|] == c;
    if a != [] {
      assert s[1..] == a[1..] + [c] + b;
      FirstByteAt(a[1..], c, b);
    }
  }

  predicate AllBlank(s: seq<byte>) {
    forall i :: 0 <= i < |s| ==> IsBlank(s[i])
  }

  predicate NoLeadingBlank(s: seq<byte>) {
    s == [] || !IsBlank(s[0])
  }

  lemma {:induction false} BlanksAreSkipped(a: seq<byte>, s: seq<byte>)
    requires AllBlank(a) && NoLeadingBlank(s)
    ensures SkipBlanks(a + s) == s
    decreases |a|
  {
    if a == [] {
      assert a + s == s;
    } else {
      assert (a + s)[1..] == a[1..] + s;
      BlanksAreSkipped(a[1..], s);
    }
  }

  // ---- The head ----------------------------------------------------------

  /** A field a sender may write: no colon in the name, no line ends or NULs, no blanks leading the value. */
  predicate ValidField(f: Field) {
    Plain(f.name) && COLON !in f.name && AllBlank(f.blanks) && Plain(f.value) && NoLeadingBlank(f.value)
  }

  function Named(fs: seq<Field>): (hs: seq<Header>)
    ensures |hs| == |fs|
  {
    seq(|fs|, i requires 0 <= i < |fs| => Header(fs[i].name, fs[i].value))
  }

  lemma ReadsField(f: Field)
    requires ValidField(f)
    ensures ReadHeader(f.name + [COLON] + f.blanks + f.value) == Some(Header(f.name, f.value))
  {
    hide FindByte, SkipBlanks, Plain;
    assert f.name + [COLON] + f.blanks + f.value == f.name + [COLON] + (f.blanks + f.value);
    FirstByteAt(f.name, COLON, f.blanks + f.value);
    BlanksAreSkipped(f.blanks, f.value);
  }

  lemma FieldIsPlain(f: Field)
    requires ValidField(f)
    ensures Plain(f.name + [COLON] + f.blanks + f.value)
  {
    assert Plain(f.blanks) by {
      forall i | 0 <= i < |f.blanks| ensures f.blanks[i] == SP || f.blanks[i] == TAB {
        assert IsBlank(f.blanks[i]);
      }
    }
    assert Plain([COLON]);
    hide Plain;
  }

  /** Header lines read back in order, each blank after a colon dropped, and the reader stops after the blank line. */
  lemma {:induction false} HeadersReadBack(fs: seq<Field>, rest: seq<byte>)
    requires forall i :: 0 <= i < |fs| ==> ValidField(fs[i])
    ensures ReadHeaders(FieldLines(fs) + Eol() + rest) == Some((Named(fs), rest))
    decreases |fs|
  {
    hide ValidField, ReadHeader, Plain, FindEol;
    var s := FieldLines(fs) + Eol() + rest;
    if fs == [] {
      assert s == [] + Eol() + rest;
      EolAfterPlain([], rest);
      assert s[2..] == rest;
    } else {
      var f := fs[0];
      var more := FieldLines(fs[1..]) + Eol() + rest;
      assert s == f.name + [COLON] + f.blanks + f.value + Eol() + more;
      HeadersReadBack(fs[1..], rest);
      ReadsNextField(f, more);
      assert Named(fs) == [Header(f.name, f.value)] + Named(fs[1..]);
    }
  }

  lemma ReadsNextField(f: Field, more: seq<byte>)
    requires ValidField(f)
    ensures
      var r := ReadHeaders(more);
      ReadHeaders(f.name + [COLON] + f.blanks + f.value + Eol() + more)
        == if r.None? then None else Some(([Header(f.name, f.value)] + r.value.0, r.value.1))
  {
    hide ValidField, ReadHeader, Plain, FindEol;
    var line := f.name + [COLON] + f.blanks + f.value;
    ReadsField(f);
    FieldIsPlain(f);
    EolAfterPlain(line, more);
    var s := line + Eol() + more;
    assert s[|line| + 2..] == more && s[..|line|] == line;
  }

  /** Blanks, a sign, digits and the text after them: every text is one of these. */
  predicate Counted(blanks: seq<byte>, sign: seq<byte>, digits: seq<byte>, rest: seq<byte>) {
    && AllBlank(blanks) && AllDigits(digits, 10) && (sign == [] || sign == [43] || sign == [45])
    && (rest != [] ==> !IsDigit(rest[0], 10))
    && (rest != [] && sign == [] && digits == [] ==> !IsBlank(rest[0]) && rest[0] != 43 && rest[0] != 45)
  }

  /** The number read from a text: the digits' value, negated after a minus, wrapped to 32 bits. */
  lemma ReadsLong(blanks: seq<byte>, sign: seq<byte>, digits: seq<byte>, rest: seq<byte>)
    requires Counted(blanks, sign, digits, rest)
    ensures
      var n: int := Value(digits, 10);
      ReadLong(blanks + sign + digits + rest) == Signed32(if sign == [45] then -n else n)
  {
    hide SkipBlanks, Read, Value, Signed32, AllDigits, IsDigit;
    var t := sign + digits + rest;
    assert blanks + sign + digits + rest == blanks + t;
    AfterBlanks(sign, digits, rest);
    BlanksAreSkipped(blanks, t);
    ReadsDigits(digits, rest, 10);
    ReadStops(rest, Signed32(Value(digits, 10)));
    NegationWraps(Value(digits, 10));
    assert sign == [] ==> t == digits + rest;
  }

  lemma ReadStops(rest: seq<byte>, n: int)
    requires rest != [] ==> !IsDigit(rest[0], 10)
    ensures Read(rest, 10, n) == n
  {
  }

  /** How a text begins after its blanks. */
  lemma AfterBlanks(sign: seq<byte>, digits: seq<byte>, rest: seq<byte>)
    requires Counted([], sign, digits, rest)
    ensures
      var t := sign + digits + rest;
      && NoLeadingBlank(t) && t[|sign|..] == digits + rest
      && (sign != [] ==> t[0] == sign[0]) && (sign == [] && t != [] ==> t[0] != 43 && t[0] != 45)
  {
    var t := sign + digits + rest;
    if sign == [] && digits != [] {
      assert t[0] == digits[0] && IsDigit(digits[0], 10);
    } else if sign == [] {
      assert t == rest;
    }
  }

  lemma NegationWraps(n: int)
    ensures Signed32(-Signed32(n)) == Signed32(-n)
  {
    var k := (n + 0x8000_0000) / 0x1_0000_0000;
    assert Signed32(n) == n - k * 0x1_0000_0000;
    WrapsAway(-n, -k);
  }

  lemma ReadsCount(n: nat, rest: seq<byte>)
    requires n < 0x8000_0000 && (rest == [] || !IsDigit(rest[0], 10))
    ensures ReadLong(Numeral(n, 10, false) + rest) == n
  {
    hide ReadLong, Numeral, Value, Signed32;
    var s := Numeral(n, 10, false);
    NumeralReadsBack(n, 10, false);
    Fits32(n);
    ReadsLong([], [], s, rest);
    assert [] + [] + s + rest == s + rest;
  }

  lemma SpaceIsNoDigit()
    ensures !IsDigit(SP, 10)
  {
  }

  predicate ValidVersion(v: seq<byte>) {
    |v| >= 8 && Plain(v) && SP !in v
  }

  function StatusLine(version: seq<byte>, status: nat, reason: seq<byte>): (s: seq<byte>) {
    version + [SP] + Numeral(status, 10, false) + [SP] + reason
  }

  lemma NumeralPlain(n: nat)
    ensures Plain(Numeral(n, 10, false)) && SP !in Numeral(n, 10, false)
  {
    var s := Numeral(n, 10, false);
    NumeralReadsBack(n, 10, false);
    forall i | 0 <= i < |s| ensures s[i] != 0 && s[i] != CR && s[i] != LF && s[i] != SP {
      assert IsDigit(s[i], 10);
    }
  }

  lemma StatusReadsBack(version: seq<byte>, status: nat, reason: seq<byte>)
    requires ValidVersion(version) && status < 0x8000_0000 && Plain(reason)
    ensures ReadStatus(StatusLine(version, status, reason)) == Some((status, reason))
  {
    hide ReadLong, Numeral, Plain, FindByte, IsDigit;
    var num := Numeral(status, 10, false);
    NumeralPlain(status);
    assert StatusLine(version, status, reason) == version + [SP] + (num + [SP] + reason);
    FirstByteAt(version, SP, num + [SP] + reason);
    FirstByteAt(num, SP, reason);
    assert num + [SP] + reason == num + ([SP] + reason);
    SpaceIsNoDigit();
    ReadsCount(status, [SP] + reason);
  }

  lemma StatusIsPlain(version: seq<byte>, status: nat, reason: seq<byte>)
    requires ValidVersion(version) && Plain(reason)
    ensures Plain(StatusLine(version, status, reason))
  {
    var num := Numeral(status, 10, false);
    NumeralPlain(status);
    assert Plain([SP]);
    hide Plain, Numeral;
  }

  function Response(version: seq<byte>, status: nat, reason: seq<byte>, fs: seq<Field>,
                    wire: seq<byte>): (s: seq<byte>) {
    StatusLine(version, status, reason) + Eol() + (FieldLines(fs) + Eol() + wire)
  }

  /** Whatever the body, a response's status, reason and headers read back, and the body is what its framing says. */
  lemma ResponseReadsBack(version: seq<byte>, status: nat, reason: seq<byte>, fs: seq<Field>, wire: seq<byte>)
    requires ValidVersion(version) && status < 0x8000_0000 && Plain(reason)
    requires forall i :: 0 <= i < |fs| ==> ValidField(fs[i])
    ensures ParseReply(Response(version, status, reason, fs, wire))
      == Some(Reply(status, reason, Named(fs), BodyOf(Named(fs), wire)))
  {
    hide BodyOf, FindEol, ReadStatus, ReadHeaders, ValidField, Plain;
    var line, more := StatusLine(version, status, reason), FieldLines(fs) + Eol() + wire;
    var s := Response(version, status, reason, fs, wire);
    StatusReadsBack(version, status, reason);
    StatusIsPlain(version, status, reason);
    EolAfterPlain(line, more);
    assert s[..|line|] == line && s[|line| + 2..] == more;
    HeadersReadBack(fs, wire);
  }

  /** The i-th header is the first of the name, in any case. */
  predicate FirstAt(hs: seq<Header>, name: seq<byte>, i: nat) {
    && i < |hs| && SameIgnoringCase(hs[i].name, name)
    && forall j :: 0 <= j < i ==> !SameIgnoringCase(hs[j].name, name)
  }

  /** A lookup gives the value of the first header of the name, and fails only when there is none. */
  lemma {:induction false} LookupIsFirst(hs: seq<Header>, name: seq<byte>)
    ensures
      var v := Lookup(hs, name);
      if v.None? then forall i :: 0 <= i < |hs| ==> !SameIgnoringCase(hs[i].name, name)
      else exists i: nat :: FirstAt(hs, name, i) && hs[i].value == v.value
    decreases |hs|
  {
    hide SameIgnoringCase;
    if hs != [] && SameIgnoringCase(hs[0].name, name) {
      assert FirstAt(hs, name, 0);
    } else if hs != [] {
      var t := hs[1..];
      LookupIsFirst(t, name);
      forall j | 0 <= j < |hs| ensures j > 0 ==> hs[j] == t[j - 1] {
      }
      var v := Lookup(t, name);
      if v.Some? {
        var i: nat :| FirstAt(t, name, i) && t[i].value == v.value;
        assert hs[i + 1] == t[i];
        assert FirstAt(hs, name, i + 1);
      }
    }
  }

  // ---- Framing -----------------------------------------------------------

  /** The first header of the name says this. */
  ghost predicate Says(hs: seq<Header>, name: seq<byte>, value: seq<byte>) {
    exists i: nat :: FirstAt(hs, name, i) && hs[i].value == value
  }

  ghost predicate Absent(hs: seq<Header>, name: seq<byte>) {
    forall i :: 0 <= i < |hs| ==> !SameIgnoringCase(hs[i].name, name)
  }

  /** The body is chunked when the first Transfer-Encoding says chunked and nothing else. */
  ghost predicate SaysChunked(hs: seq<Header>) {
    exists i: nat ::
      FirstAt(hs, Ascii("transfer-encoding"), i) && SameIgnoringCase(hs[i].value, Ascii("chunked"))
  }

  lemma FirstIsUnique(hs: seq<Header>, name: seq<byte>, i: nat, j: nat)
    requires FirstAt(hs, name, i) && FirstAt(hs, name, j)
    ensures i == j
  {
    hide SameIgnoringCase;
  }

  /** What is looked up is what the first header of the name says. */
  lemma LookupSays(hs: seq<Header>, name: seq<byte>)
    ensures Lookup(hs, name).None? <==> Absent(hs, name)
    ensures Lookup(hs, name).Some? ==>
      exists i: nat :: FirstAt(hs, name, i) && hs[i].value == Lookup(hs, name).value
    ensures forall i: nat :: FirstAt(hs, name, i) ==> Lookup(hs, name) == Some(hs[i].value)
  {
    hide SameIgnoringCase, Lookup;
    LookupIsFirst(hs, name);
    var v := Lookup(hs, name);
    if v.Some? {
      var k: nat :| FirstAt(hs, name, k) && hs[k].value == v.value;
      forall i: nat | FirstAt(hs, name, i) ensures v == Some(hs[i].value) {
        FirstIsUnique(hs, name, i, k);
      }
    }
  }

  lemma ChunkedIsSaid(hs: seq<Header>)
    ensures IsChunked(hs) <==> SaysChunked(hs)
  {
    hide SameIgnoringCase, Lookup, Ascii, FirstAt;
    LookupSays(hs, Ascii("transfer-encoding"));
  }

  /**
   * Without chunks a Content-Length takes that many bytes of what follows the head: all of it when there is less, none
   * when the number is negative or no number at all. The value may go on with other text.
   */
  lemma LengthFraming(hs: seq<Header>, sign: seq<byte>, digits: seq<byte>, rest: seq<byte>, s: seq<byte>)
    requires !SaysChunked(hs) && Counted([], sign, digits, rest)
    requires Says(hs, Ascii("content-length"), sign + digits + rest)
    ensures
      var v: int := Value(digits, 10);
      var n := Signed32(if sign == [45] then -v else v);
      BodyOf(hs, s) == if n <= 0 then [] else if n < |s| then s[..n] else s
  {
    hide ReadLong, IsChunked, Lookup, SaysChunked, FirstAt, Counted, Value, Signed32;
    ChunkedIsSaid(hs);
    LookupSays(hs, Ascii("content-length"));
    ReadsLong([], sign, digits, rest);
    assert [] + sign + digits + rest == sign + digits + rest;
  }

  /** Without either framing header the body is everything up to the close. */
  lemma CloseFraming(hs: seq<Header>, body: seq<byte>)
    requires !SaysChunked(hs) && Absent(hs, Ascii("content-length"))
    ensures BodyOf(hs, body) == body
  {
    hide IsChunked, Lookup, SaysChunked, FirstAt;
    ChunkedIsSaid(hs);
    LookupSays(hs, Ascii("content-length"));
  }

  /** A chunk: `ext` is what stands between the size and the LF, a CR included; `gap` is what line ends follow the
      data. */
  datatype Chunk = Chunk(size: seq<byte>, ext: seq<byte>, data: seq<byte>, gap: seq<byte>)

  predicate LineEnd(c: byte) {
    c == 13 || c == 10
  }

  /** A size in hexadecimal, of either case and with any leading zeros, then an optional extension. */
  predicate ValidSize(size: seq<byte>, ext: seq<byte>, n: nat) {
    && size != [] && AllDigits(size, 16) && Value(size, 16) == n && n < 0x8000_0000
    && LF !in ext && (ext == [] || !IsDigit(ext[0], 16))
  }

  predicate ValidChunk(c: Chunk) {
    c.data != [] && ValidSize(c.size, c.ext, |c.data|) && forall i :: 0 <= i < |c.gap| ==> LineEnd(c.gap[i])
  }

  function ChunkText(c: Chunk): (s: seq<byte>) {
    c.size + c.ext + [LF] + (c.data + c.gap)
  }

  /** The chunks, then the one of size zero with whatever comes after its line. */
  function ChunksText(cs: seq<Chunk>, last: Chunk): (s: seq<byte>)
    decreases |cs|
  {
    if cs == [] then last.size + last.ext + [LF] + last.data else ChunkText(cs[0]) + ChunksText(cs[1..], last)
  }

  function Joined(cs: seq<Chunk>): (s: seq<byte>)
    decreases |cs|
  {
    if cs == [] then [] else cs[0].data + Joined(cs[1..])
  }

  lemma {:induction false} LineEnds(a: seq<byte>, rest: seq<byte>)
    requires LF !in a
    ensures AfterLine(a + [LF] + rest) == rest
    decreases |a|
  {
    var s := a + [LF] + rest;
    if a == [] {
      assert s[1..] == rest;
    } else {
      assert s[1..] == a[1..] + [LF] + rest && s[0] == a[0];
      LineEnds(a[1..], rest);
    }
  }

  lemma DigitsHaveNoLf(s: seq<byte>)
    requires AllDigits(s, 16)
    ensures LF !in s && CR !in s
  {
    forall i | 0 <= i < |s| ensures s[i] != LF && s[i] != CR {
      assert IsDigit(s[i], 16);
    }
  }

  lemma ReadsSize(size: seq<byte>, ext: seq<byte>, n: nat, rest: seq<byte>)
    requires ValidSize(size, ext, n)
    ensures
      var s := size + ext + [LF] + rest;
      && Read(s, 16, 0) == n && AfterLine(s) == rest
      && s != [] && s[0] != CR && s[0] != LF
  {
    hide AllDigits, Value;
    var s := size + ext + [LF] + rest;
    var t := ext + [LF] + rest;
    assert s == size + t;
    ReadsValue(size, t, 16);
    assert t[0] == if ext == [] then LF else ext[0];
    DigitsHaveNoLf(size);
    assert s == (size + ext) + [LF] + rest;
    LineEnds(size + ext, rest);
    assert s[0] == size[0] && size[0] in size;
  }

  lemma {:induction false} SkipsGap(gap: seq<byte>, t: seq<byte>)
    requires (forall i :: 0 <= i < |gap| ==> LineEnd(gap[i])) && (t != [] ==> !LineEnd(t[0]))
    ensures SkipEols(gap + t) == t
    decreases |gap|
  {
    if gap == [] {
      assert gap + t == t;
    } else {
      assert (gap + t)[1..] == gap[1..] + t;
      assert LineEnd(gap[0]);
      SkipsGap(gap[1..], t);
    }
  }

  lemma DechunkOne(c: Chunk, t: seq<byte>)
    requires ValidChunk(c) && t != [] && !LineEnd(t[0])
    ensures Dechunk(ChunkText(c) + t) == c.data + Dechunk(t)
  {
    hide ValidSize, Read, AfterLine, SkipEols, Dechunk;
    var rest := c.data + (c.gap + t);
    assert ChunkText(c) + t == c.size + c.ext + [LF] + rest;
    ReadsSize(c.size, c.ext, |c.data|, rest);
    SkipsGap(c.gap, t);
    DechunkStep(c.size + c.ext + [LF] + rest, c.data, c.gap + t);
  }

  /** One turn of the decoder over a chunk with more input after it. */
  lemma DechunkStep(s: seq<byte>, data: seq<byte>, more: seq<byte>)
    requires s != [] && data != [] && more != []
    requires Read(s, 16, 0) == |data| && AfterLine(s) == data + more
    ensures Dechunk(s) == data + Dechunk(SkipEols(more))
  {
    hide Read, AfterLine, SkipEols;
    assert (data + more)[..|data|] == data && (data + more)[|data|..] == more;
  }

  lemma StartOfChunks(cs: seq<Chunk>, last: Chunk)
    requires (forall i :: 0 <= i < |cs| ==> ValidChunk(cs[i])) && ValidSize(last.size, last.ext, 0)
    ensures
      var s := ChunksText(cs, last);
      s != [] && s[0] != CR && s[0] != LF
  {
    hide ValidSize;
    if cs == [] {
      ReadsSize(last.size, last.ext, 0, last.data);
    } else {
      var c := cs[0];
      ReadsSize(c.size, c.ext, |c.data|, c.data + c.gap);
      assert ChunksText(cs, last)[0] == ChunkText(c)[0];
    }
  }

  /** Any split of a body into non-empty chunks, with any extensions and any trailer, decodes to the body. */
  lemma {:induction false} ChunksReadBack(cs: seq<Chunk>, last: Chunk)
    requires (forall i :: 0 <= i < |cs| ==> ValidChunk(cs[i])) && ValidSize(last.size, last.ext, 0)
    ensures Dechunk(ChunksText(cs, last)) == Joined(cs)
    decreases |cs|
  {
    hide ValidSize, ValidChunk, Read, AfterLine;
    if cs == [] {
      ReadsSize(last.size, last.ext, 0, last.data);
    } else {
      ChunksReadBack(cs[1..], last);
      StartOfChunks(cs[1..], last);
      DechunkOne(cs[0], ChunksText(cs[1..], last));
    }
  }

  /** A chunk shorter than its size says ends the body with what is there; nothing follows a size of zero or one that
      wraps below it. */
  lemma ChunkCutShort(size: seq<byte>, ext: seq<byte>, data: seq<byte>)
    requires size != [] && AllDigits(size, 16) && LF !in ext && (ext == [] || !IsDigit(ext[0], 16))
    ensures
      var n := Signed32(Value(size, 16));
      && (n >= |data| ==> Dechunk(size + ext + [LF] + data) == data)
      && (n <= 0 ==> Dechunk(size + ext + [LF] + data) == [])
  {
    hide IsDigit, Value, Signed32;
    var s := size + ext + [LF] + data;
    var t := ext + [LF] + data;
    LfIsNoDigit();
    assert s == size + t;
    ReadsDigits(size, t, 16);
    DigitsHaveNoLf(size);
    assert s == (size + ext) + [LF] + data;
    LineEnds(size + ext, data);
  }

  lemma LfIsNoDigit()
    ensures !IsDigit(LF, 16)
  {
  }

  /** Chunked framing reads back, and a Content-Length beside it changes nothing. */
  lemma ChunkedFraming(hs: seq<Header>, cs: seq<Chunk>, last: Chunk)
    requires SaysChunked(hs)
    requires (forall i :: 0 <= i < |cs| ==> ValidChunk(cs[i])) && ValidSize(last.size, last.ext, 0)
    ensures BodyOf(hs, ChunksText(cs, last)) == Joined(cs)
  {
    hide IsChunked, SaysChunked, ValidChunk, ValidSize;
    ChunkedIsSaid(hs);
    ChunksReadBack(cs, last);
  }

  // ---- Which transfer codings are taken for chunked ----------------------

  const COMMA := 44
  const HTAB := 9

  predicate Ows(c: byte) {
    c == SP || c == HTAB
  }

  /** A list element without the optional whitespace around it (RFC 9110 section 5.6.1). */
  function Trim(s: seq<byte>): (t: seq<byte>)
    decreases |s|
  {
    if s == [] then s
    else if Ows(s[0]) then Trim(s[1..])
    else if Ows(s[|s| - 1]) then Trim(s[..|s| - 1])
    else s
  }

  /** What comes before the last comma, if there is one, and what comes after it. */
  function CutLast(v: seq<byte>): (r: (Option<seq<byte>>, seq<byte>))
    ensures r.0.Some? ==> |r.0.value| < |v|
    decreases |v|
  {
    if v == [] then (None, [])
    else
      var (front, c) := (v[..|v| - 1], v[|v| - 1]);
      if c == COMMA then (Some(front), []) else (CutLast(front).0, CutLast(front).1 + [c])
  }

  /** The last transfer coding of a list; empty elements do not count. */
  function FinalCoding(v: seq<byte>): (coding: seq<byte>)
    decreases |v|
  {
    var (front, last) := CutLast(v);
    if Trim(last) != [] || front.None? then Trim(last) else FinalCoding(front.value)
  }

  /** RFC 9112 section 6.3: a body is chunked when chunked is the final coding. */
  predicate FinallyChunked(v: seq<byte>) {
    SameIgnoringCase(FinalCoding(v), Ascii("chunked"))
  }

  /** A value that is one coding and nothing else. */
  predicate Bare(v: seq<byte>) {
    forall i :: 0 <= i < |v| ==> v[i] != COMMA && !Ows(v[i])
  }

  lemma {:induction false} BareUncut(v: seq<byte>)
    requires Bare(v)
    ensures CutLast(v) == (None, v)
    decreases |v|
  {
    if v != [] {
      BareUncut(v[..|v| - 1]);
      assert v[|v| - 1] != COMMA && v == v[..|v| - 1] + [v[|v| - 1]];
    }
  }

  /** The parser takes a value for chunked exactly when chunked is its final coding and it holds no comma and no
      blank. */
  lemma ChunkedOnlyBare(v: seq<byte>)
    ensures SameIgnoringCase(v, Ascii("chunked")) <==> FinallyChunked(v) && Bare(v)
  {
    if SameIgnoringCase(v, Ascii("chunked")) {
      forall i | 0 <= i < |v| ensures v[i] != COMMA && !Ows(v[i]) {
        LetterOnly(v[i], Ascii("chunked")[i]);
      }
    }
    if Bare(v) {
      BareUncut(v);
      assert Trim(v) == v;
    }
  }

  lemma LetterOnly(c: byte, d: byte)
    requires Lower(c) == Lower(d) && 0x61 <= d <= 0x7A
    ensures c != COMMA && !Ows(c)
  {
  }

  /** A body under another value that ends in chunked is handed over with its chunk sizes in it: under `chunked` with a
      blank after it, say, or under `gzip, chunked`. */
  lemma MissedChunked(hs: seq<Header>, te: seq<byte>, s: seq<byte>)
    requires Absent(hs, Ascii("content-length")) && Says(hs, Ascii("transfer-encoding"), te)
    requires te == Ascii("chunked ") || te == Ascii("gzip, chunked")
    ensures FinallyChunked(te) && !SaysChunked(hs) && BodyOf(hs, s) == s
  {
    hide Lookup, FirstAt, SaysChunked, Absent;
    LookupSays(hs, Ascii("transfer-encoding"));
    LookupSays(hs, Ascii("content-length"));
    ChunkedIsSaid(hs);
    ChunkedOnlyBare(te);
    if te == Ascii("chunked ") {
      BlankAfter(te);
    } else {
      TwoCodings(te);
    }
  }

  lemma BlankAfter(v: seq<byte>)
    requires v == Ascii("chunked ")
    ensures FinalCoding(v) == Ascii("chunked")
  {
    var w := Ascii("chunked");
    assert v == w + [SP] && v[..7] == w;
    BareUncut(w);
    assert CutLast(v) == (None, w + [SP]);
    assert Trim(w) == w;
  }

  lemma TwoCodings(v: seq<byte>)
    requires v == Ascii("gzip, chunked")
    ensures FinalCoding(v) == Ascii("chunked")
  {
    var (front, w) := (Ascii("gzip"), Ascii("chunked"));
    var last: seq<byte> := [SP] + w;
    assert v == front + [COMMA] + last;
    AfterComma(front, last);
    assert last[1..] == w && Trim(w) == w;
  }

  lemma {:induction false} AfterComma(front: seq<byte>, last: seq<byte>)
    requires COMMA !in last
    ensures CutLast(front + [COMMA] + last) == (Some(front), last)
    decreases |last|
  {
    var v := front + [COMMA] + last;
    if last == [] {
      assert v[..|v| - 1] == front;
    } else {
      var n := |last| - 1;
      AfterComma(front, last[..n]);
      assert v[..|v| - 1] == front + [COMMA] + last[..n];
      assert last == last[..n] + [last[n]];
    }
  }

  // ---- Framings ----------------------------------------------------------

  /** The three framings of RFC 9112 section 6.3 that the parser knows. */
  datatype Framing =
    | ByLength(digits: seq<byte>, tail: seq<byte>, after: seq<byte>)
    | ByChunks(cs: seq<Chunk>, last: Chunk)
    | ByClose

  /** Whether the headers announce this framing of this body; chunked takes precedence. */
  ghost predicate Announces(hs: seq<Header>, g: Framing, body: seq<byte>) {
    match g
    case ByLength(digits, tail, _) =>
      && !SaysChunked(hs) && Says(hs, Ascii("content-length"), digits + tail)
      && digits != [] && AllDigits(digits, 10) && (tail != [] ==> !IsDigit(tail[0], 10))
      && Value(digits, 10) == |body| < 0x8000_0000
    case ByChunks(cs, last) =>
      && SaysChunked(hs) && Joined(cs) == body
      && (forall i :: 0 <= i < |cs| ==> ValidChunk(cs[i])) && ValidSize(last.size, last.ext, 0)
    case ByClose => !SaysChunked(hs) && Absent(hs, Ascii("content-length"))
  }

  function Wire(g: Framing, body: seq<byte>): (s: seq<byte>) {
    match g
    case ByLength(_, _, after) => body + after
    case ByChunks(cs, last) => ChunksText(cs, last)
    case ByClose => body
  }

  /** A response written with any valid headers and any framing they announce parses to what was sent. */
  lemma RoundTrip(version: seq<byte>, status: nat, reason: seq<byte>, fs: seq<Field>, g: Framing, body: seq<byte>)
    requires ValidVersion(version) && status < 0x8000_0000 && Plain(reason)
    requires forall i :: 0 <= i < |fs| ==> ValidField(fs[i])
    requires Announces(Named(fs), g, body)
    ensures ParseReply(Response(version, status, reason, fs, Wire(g, body)))
      == Some(Reply(status, reason, Named(fs), body))
  {
    hide ValidField, ValidVersion, Plain, SaysChunked, ValidChunk, ValidSize, BodyOf, Says, Absent, Value, Response,
         ParseReply;
    ResponseReadsBack(version, status, reason, fs, Wire(g, body));
    match g {
      case ByLength(digits, tail, after) =>
        assert [] + digits + tail == digits + tail && (body + after)[..|body|] == body;
        LengthFraming(Named(fs), [], digits, tail, body + after);
        Fits32(|body|);
        assert after == [] ==> body + after == body;
      case ByChunks(cs, last) => ChunkedFraming(Named(fs), cs, last);
      case ByClose => CloseFraming(Named(fs), body);
    }
  }

  // ---- Truncation --------------------------------------------------------

  lemma {:induction false} LineOfPrefix(p: seq<byte>, s: seq<byte>)
    requires p <= s
    ensures if LF in p then AfterLine(p) <= AfterLine(s) else AfterLine(p) == []
    decreases |p|
  {
    if p != [] {
      if p[0] != LF {
        LineOfPrefix(p[1..], s[1..]);
      }
    }
  }

  lemma {:induction false} SizeOfPrefix(p: seq<byte>, s: seq<byte>, n: int)
    requires p <= s && LF in p
    ensures Read(p, 16, n) == Read(s, 16, n)
    decreases |p|
  {
    if IsDigit(p[0], 16) {
      hide Signed32, Shift;
      SizeOfPrefix(p[1..], s[1..], Signed32(Shift(n, 16, DigitValue(p[0]).value)));
    }
  }

  lemma {:induction false} SkipOfPrefix(p: seq<byte>, s: seq<byte>)
    requires p <= s
    ensures SkipEols(p) <= SkipEols(s)
    decreases |p|
  {
    if p != [] {
      if p[0] == CR || p[0] == LF {
        SkipOfPrefix(p[1..], s[1..]);
      }
    }
  }

  /** Decoding any truncation of a body gives a prefix of decoding the whole of it. */
  lemma {:induction false} DechunkIsMonotone(p: seq<byte>, s: seq<byte>)
    requires p <= s
    ensures Dechunk(p) <= Dechunk(s)
    decreases |p|
  {
    hide Read, AfterLine, SkipEols;
    LineOfPrefix(p, s);
    if p != [] && LF in p {
      SizeOfPrefix(p, s, 0);
      var n, u, t := Read(s, 16, 0), AfterLine(p), AfterLine(s);
      if 0 < n < |u| {
        SkipOfPrefix(u[n..], t[n..]);
        DechunkIsMonotone(SkipEols(u[n..]), SkipEols(t[n..]));
      } else if 0 < n < |t| {
        assert u == t[..n][..|u|];
      }
    }
  }

  // ---- Requests ----------------------------------------------------------

  predicate ValidHeader(h: Header) {
    Plain(h.name) && COLON !in h.name && Plain(h.value) && NoLeadingBlank(h.value)
  }

  lemma CountIsValue(n: nat)
    ensures Plain(Numeral(n, 10, false)) && NoLeadingBlank(Numeral(n, 10, false))
  {
    NumeralPlain(n);
    NumeralReadsBack(n, 10, false);
    assert IsDigit(Numeral(n, 10, false)[0], 10);
  }

  lemma HostIsName()
    ensures Plain(Ascii("Host")) && COLON !in Ascii("Host")
  {
  }

  lemma ContentLengthIsName()
    ensures Plain(Ascii("Content-Length")) && COLON !in Ascii("Content-Length")
  {
  }

  /** Every header of a request is fit to be sent when the caller's are. */
  lemma RequestHeadersValid(host: seq<byte>, hs: seq<Header>, body: seq<byte>)
    requires Plain(host) && NoLeadingBlank(host) && forall i :: 0 <= i < |hs| ==> ValidHeader(hs[i])
    ensures
      var all := RequestHeaders(host, hs, body);
      forall i :: 0 <= i < |all| ==> ValidHeader(all[i])
  {
    hide Numeral, Plain, Ascii, NoLeadingBlank;
    CountIsValue(|body|);
    HostIsName();
    ContentLengthIsName();
    var all := RequestHeaders(host, hs, body);
    forall i | 0 <= i < |all| ensures ValidHeader(all[i]) {
      if 0 < i <= |hs| {
        assert all[i] == hs[i - 1];
      }
    }
  }

  lemma RequestLineIsPlain(verb: seq<byte>, path: seq<byte>)
    requires Plain(verb) && Plain(path)
    ensures Plain(verb + [SP] + path + [SP] + Ascii("HTTP/1.1"))
  {
    var version := Ascii("HTTP/1.1");
    assert Plain(version) && Plain([SP]);
    hide Plain;
  }

  lemma SpacedIsValid(h: Header)
    requires ValidHeader(h)
    ensures ValidField(Field(h.name, [SP], h.value))
  {
  }

  /** After its first line a request reads back as the Host header, the caller's headers, the length of a body that
      is there, and the body. */
  lemma RequestReadsBack(verb: seq<byte>, host: seq<byte>, path: seq<byte>, hs: seq<Header>, body: seq<byte>)
    requires Plain(verb) && Plain(path) && Plain(host) && NoLeadingBlank(host)
    requires forall i :: 0 <= i < |hs| ==> ValidHeader(hs[i])
    ensures
      var s := Request(verb, host, path, hs, body);
      var line := verb + [SP] + path + [SP] + Ascii("HTTP/1.1");
      && FindEol(s) == Some(|line|) && s[..|line|] == line
      && ReadHeaders(s[|line| + 2..]) == Some((RequestHeaders(host, hs, body), body))
  {
    hide FindEol, ReadHeaders, ValidField, ValidHeader, RequestHeaders, FieldLines, Plain;
    var s := Request(verb, host, path, hs, body);
    var line := verb + [SP] + path + [SP] + Ascii("HTTP/1.1");
    var all := RequestHeaders(host, hs, body);
    var fs := Spaced(all);
    var more := FieldLines(fs) + Eol() + body;
    assert s == line + Eol() + more;
    RequestLineIsPlain(verb, path);
    EolAfterPlain(line, more);
    assert s[|line| + 2..] == more && s[..|line|] == line;
    RequestHeadersValid(host, hs, body);
    forall i | 0 <= i < |fs| ensures ValidField(fs[i]) {
      SpacedIsValid(all[i]);
    }
    HeadersReadBack(fs, body);
    assert Named(fs) == all;
  }
}
