/** HTTP/1.1 messages as byte strings: what core/http.c reads in a response and writes for a request. */
module HttpText {
  import opened CTypes
  import opened Numerals

  const CR := 13
  const LF := 10
  const SP := 32
  const TAB := 9
  const COLON := 58

  /** A header field. */
  datatype Header = Header(name: seq<byte>, value: seq<byte>)

  /** A parsed response. */
  datatype Reply = Reply(status: int, reason: seq<byte>, headers: seq<Header>, body: seq<byte>)

  function Eol(): (s: seq<byte>)
    ensures |s| == 2 && s[0] == CR && s[1] == LF
  {
    [CR, LF]
  }

  // ---- Searching C strings -----------------------------------------------

  /** strstr for CR LF: a NUL ends the search. */
  function FindEol(s: seq<byte>): (e: Option<nat>)
    ensures e.Some? ==> e.value + 2 <= |s|
    decreases |s|
  {
    if s == [] || s[0] == 0 then None
    else if |s| > 1 && s[0] == CR && s[1] == LF then Some(0)
    else
      var e := FindEol(s[1..]);
      if e.Some? then Some(e.value + 1) else None
  }

  /** strchr for a byte other than NUL, in a string without NULs. */
  function FindByte(s: seq<byte>, c: byte): (e: Option<nat>)
    ensures e.Some? ==> e.value < |s| && s[e.value] == c && c !in s[..e.value]
    ensures e.None? ==> c !in s
    decreases |s|
  {
    if s == [] then None
    else if s[0] == c then Some(0)
    else
      var e := FindByte(s[1..], c);
      if e.Some? then Some(e.value + 1) else None
  }

  predicate IsBlank(c: byte) {
    c == SP || c == TAB
  }

  function SkipBlanks(s: seq<byte>): (t: seq<byte>)
    ensures |t| <= |s|
    decreases |s|
  {
    if s != [] && IsBlank(s[0]) then SkipBlanks(s[1..]) else s
  }

  /** parse_long */
  function ReadLong(s: seq<byte>): (n: int) {
    var t := SkipBlanks(s);
    if t != [] && t[0] == 45 then Signed32(-Read(t[1..], 10, 0))
    else if t != [] && t[0] == 43 then Read(t[1..], 10, 0)
    else Read(t, 10, 0)
  }

  function Lower(c: byte): (d: byte) {
    if 65 <= c <= 90 then c + 32 else c
  }

  /** ci_eq */
  predicate SameIgnoringCase(a: seq<byte>, b: seq<byte>) {
    |a| == |b| && forall i :: 0 <= i < |a| ==> Lower(a[i]) == Lower(b[i])
  }

  /** http_header: the value of the first header of that name. */
  function Lookup(hs: seq<Header>, name: seq<byte>): (v: Option<seq<byte>>)
    decreases |hs|
  {
    if hs == [] then None
    else if SameIgnoringCase(hs[0].name, name) then Some(hs[0].value)
    else Lookup(hs[1..], name)
  }

  // ---- The head ----------------------------------------------------------

  /** A header line: nothing without a colon. */
  function ReadHeader(line: seq<byte>): (h: Option<Header>) {
    var c := FindByte(line, COLON);
    if c.Some? then Some(Header(line[..c.value], SkipBlanks(line[c.value + 1..]))) else None
  }

  function Listed(h: Option<Header>): (hs: seq<Header>) {
    if h.Some? then [h.value] else []
  }

  /** The header lines up to the blank one, and what follows it. */
  function ReadHeaders(s: seq<byte>): (r: Option<(seq<Header>, seq<byte>)>)
    ensures r.Some? ==> |r.value.1| <= |s|
    decreases |s|
  {
    var e := FindEol(s);
    if e.None? then None
    else if e.value == 0 then Some(([], s[2..]))
    else
      var r := ReadHeaders(s[e.value + 2..]);
      if r.None? then None else Some((Listed(ReadHeader(s[..e.value])) + r.value.0, r.value.1))
  }

  /** The status code and the reason phrase of a status line. */
  function ReadStatus(line: seq<byte>): (r: Option<(int, seq<byte>)>) {
    var a := FindByte(line, SP);
    if a.None? then None
    else
      var t := line[a.value + 1..];
      var b := FindByte(t, SP);
      Some((ReadLong(t), if b.Some? then t[b.value + 1..] else []))
  }

  // ---- The body ----------------------------------------------------------

  /** What follows the first LF. */
  function AfterLine(s: seq<byte>): (t: seq<byte>)
    ensures |t| <= |s| && (s != [] ==> |t| < |s|)
    decreases |s|
  {
    if s == [] then s else if s[0] == LF then s[1..] else AfterLine(s[1..])
  }

  function SkipEols(s: seq<byte>): (t: seq<byte>)
    ensures |t| <= |s|
    decreases |s|
  {
    if s != [] && (s[0] == CR || s[0] == LF) then SkipEols(s[1..]) else s
  }

  /** dechunk: a size that is not positive ends the body, and so does the end of the input. */
  function Dechunk(s: seq<byte>): (body: seq<byte>)
    ensures |body| <= |s|
    decreases |s|
  {
    if s == [] then []
    else
      var n := Read(s, 16, 0);
      var t := AfterLine(s);
      if n <= 0 then []
      else if n >= |t| then t
      else t[..n] + Dechunk(SkipEols(t[n..]))
  }

  function Taken(n: int, m: nat): (k: nat)
    ensures k <= m
  {
    if n < 0 then 0 else if n > m then m else n
  }

  predicate IsChunked(hs: seq<Header>) {
    var te := Lookup(hs, Ascii("transfer-encoding"));
    te.Some? && SameIgnoringCase(te.value, Ascii("chunked"))
  }

  /** The body in the bytes after the head. */
  function BodyOf(hs: seq<Header>, s: seq<byte>): (body: seq<byte>)
    ensures |body| <= |s|
  {
    var cl := Lookup(hs, Ascii("content-length"));
    if IsChunked(hs) then Dechunk(s)
    else if cl.Some? then s[..Taken(ReadLong(cl.value), |s|)]
    else s
  }

  /** http_parse_response, memory permitting. */
  function ParseReply(s: seq<byte>): (r: Option<Reply>) {
    var e := FindEol(s);
    if |s| < 12 || e.None? then None
    else
      var st := ReadStatus(s[..e.value]);
      var hs := ReadHeaders(s[e.value + 2..]);
      if st.None? || hs.None? then None
      else Some(Reply(st.value.0, st.value.1, hs.value.0, BodyOf(hs.value.0, hs.value.1)))
  }

  // ---- Writing -----------------------------------------------------------

  /** A header line with any blanks after the colon. */
  datatype Field = Field(name: seq<byte>, blanks: seq<byte>, value: seq<byte>)

  function FieldLine(f: Field): (s: seq<byte>) {
    f.name + [COLON] + f.blanks + f.value + Eol()
  }

  function FieldLines(fs: seq<Field>): (s: seq<byte>)
    decreases |fs|
  {
    if fs == [] then [] else FieldLine(fs[0]) + FieldLines(fs[1..])
  }

  /** The request builder puts one space after the colon. */
  function Spaced(hs: seq<Header>): (fs: seq<Field>)
    ensures |fs| == |hs|
  {
    seq(|hs|, i requires 0 <= i < |hs| => Field(hs[i].name, [SP], hs[i].value))
  }

  /** The headers of a request: Host first, then the caller's, then the body's length if there is a body. */
  function RequestHeaders(host: seq<byte>, hs: seq<Header>, body: seq<byte>): (all: seq<Header>) {
    [Header(Ascii("Host"), host)] + hs
    + (if body != [] then [Header(Ascii("Content-Length"), Numeral(|body|, 10, false))] else [])
  }

  /** http_build_request */
  function Request(verb: seq<byte>, host: seq<byte>, path: seq<byte>, hs: seq<Header>,
                   body: seq<byte>): (s: seq<byte>) {
    verb + [SP] + path + [SP] + Ascii("HTTP/1.1") + Eol()
    + FieldLines(Spaced(RequestHeaders(host, hs, body))) + Eol() + body
  }
}
