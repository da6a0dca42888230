/** The JSON language core/json.c accepts, as functions on the text. */
module Json {
  import opened CTypes

  const MAX_DEPTH := 128

  datatype Value =
    | Null
    | Bool(b: bool)
    | Num(text: seq<byte>)
    | Str(bytes: seq<byte>)
    | Arr(items: seq<Value>)
    | Obj(members: seq<Member>)

  datatype Member = Member(key: seq<byte>, value: Value)

  // ---- Characters --------------------------------------------------------

  const QUOTE: byte := 0x22
  const COMMA: byte := 0x2C
  const MINUS: byte := 0x2D
  const PLUS: byte := 0x2B
  const DOT: byte := 0x2E
  const SLASH: byte := 0x2F
  const COLON: byte := 0x3A
  const LBRACKET: byte := 0x5B
  const BACKSLASH: byte := 0x5C
  const RBRACKET: byte := 0x5D
  const LBRACE: byte := 0x7B
  const RBRACE: byte := 0x7D
  const LOWER_U: byte := 0x75

  predicate Blank(c: byte) {
    c == 0x20 || c == 0x09 || c == 0x0A || c == 0x0D
  }

  predicate Digit(c: byte) {
    0x30 <= c <= 0x39
  }

  /** The value of a hexadecimal digit, or -1. */
  function HexDigit(c: byte): (d: int)
    ensures -1 <= d < 16
  {
    if 0x30 <= c <= 0x39 then c - 0x30
    else if 0x61 <= c <= 0x66 then c - 0x61 + 10
    else if 0x41 <= c <= 0x46 then c - 0x41 + 10
    else -1
  }

  /** The byte a two-character escape stands for; 0 when there is no such escape. */
  function ShortEscape(c: byte): (b: byte) {
    if c == QUOTE || c == BACKSLASH || c == SLASH then c
    else if c == 0x62 then 0x08
    else if c == 0x66 then 0x0C
    else if c == 0x6E then 0x0A
    else if c == 0x72 then 0x0D
    else if c == 0x74 then 0x09
    else 0
  }

  function SkipBlanks(t: seq<byte>, p: nat): (q: nat)
    requires p <= |t|
    ensures p <= q <= |t|
    ensures q < |t| ==> !Blank(t[q])
    decreases |t| - p
  {
    if p < |t| && Blank(t[p]) then SkipBlanks(t, p + 1) else p
  }

  function SkipDigits(t: seq<byte>, p: nat): (q: nat)
    requires p <= |t|
    ensures p <= q <= |t|
    decreases |t| - p
  {
    if p < |t| && Digit(t[p]) then SkipDigits(t, p + 1) else p
  }

  // ---- Strings -----------------------------------------------------------

  /** Where a step of the string decoder ends: decoded bytes and the next position, or where it gave up. */
  datatype Decode = Fail(stop: nat) | Done(text: seq<byte>, next: nat)

  function Prepend(s: seq<byte>, d: Decode): (r: Decode) {
    match d
    case Fail(stop) => d
    case Done(text, next) => Done(s + text, next)
  }

  datatype HexRun = HexRun(ok: bool, value: nat, next: nat)

  /** Reads `n` hexadecimal digits; a character that is not one has been consumed. */
  function Hex(t: seq<byte>, p: nat, n: nat, acc: nat): (r: HexRun)
    requires p <= |t|
    ensures p <= r.next <= |t| && (r.ok ==> r.next == p + n)
    decreases n
  {
    if n == 0 then HexRun(true, acc, p)
    else if p >= |t| then HexRun(false, acc, p)
    else if HexDigit(t[p]) < 0 then HexRun(false, acc, p + 1)
    else Hex(t, p + 1, n - 1, acc * 16 + HexDigit(t[p]))
  }

  /** The UTF-8 form of a code point (RFC 3629 section 3), for anything the decoder can assemble. */
  function Utf8(cp: nat): (s: seq<byte>)
    requires cp < 0x20_0000
    ensures 1 <= |s| <= 4 && (cp < 0x1_0000 ==> |s| <= 3)
  {
    if cp < 0x80 then [cp]
    else if cp < 0x800 then [0xC0 + cp / 0x40, 0x80 + cp % 0x40]
    else if cp < 0x1_0000 then [0xE0 + cp / 0x1000, 0x80 + cp / 0x40 % 0x40, 0x80 + cp % 0x40]
    else [0xF0 + cp / 0x4_0000, 0x80 + cp / 0x1000 % 0x40, 0x80 + cp / 0x40 % 0x40, 0x80 + cp % 0x40]
  }

  predicate HighSurrogate(cp: nat) {
    0xD800 <= cp <= 0xDBFF
  }

  /** The code point of a \u pair; the low half is not checked to be a low surrogate. */
  function Astral(hi: nat, lo: nat): (cp: nat)
    requires HighSurrogate(hi) && lo < 0x1_0000
    ensures cp < 0x20_0000
  {
    0x1_0000 + (hi - 0xD800) * 0x400 + lo - 0xDC00
  }

  lemma HexBound(t: seq<byte>, p: nat, n: nat, acc: nat)
    requires p <= |t|
    ensures Hex(t, p, n, acc).ok && n <= 4 && acc == 0 ==> Hex(t, p, n, acc).value < 0x1_0000
  {
    if n <= 4 && acc == 0 {
      assert Hex(t, p, 0, 0).value == 0;
      HexGrows(t, p, n, acc, 1);
    }
  }

  lemma {:induction false} HexGrows(t: seq<byte>, p: nat, n: nat, acc: nat, bound: nat)
    requires p <= |t| && acc < bound && n <= 4
    ensures Hex(t, p, n, acc).ok ==>
      Hex(t, p, n, acc).value < bound *
        (if n == 0 then 1 else if n == 1 then 16 else if n == 2 then 256 else if n == 3 then 4096 else 65536)
    decreases n
  {
    if n > 0 && p < |t| && HexDigit(t[p]) >= 0 {
      HexGrows(t, p + 1, n - 1, acc * 16 + HexDigit(t[p]), bound * 16);
    }
  }

  /** What follows "\u": four digits, and a second escape when they name a high surrogate. */
  function Unicode(t: seq<byte>, p: nat): (d: Decode)
    requires p <= |t|
    ensures d.Fail? ==> p <= d.stop <= |t|
    ensures d.Done? ==> p + 4 <= d.next <= |t| && |d.text| <= d.next - p
  {
    var a := Hex(t, p, 4, 0);
    if !a.ok then Fail(a.next)
    else
      HexBound(t, p, 4, 0);
      if HighSurrogate(a.value) && |t| - a.next >= 2 && t[a.next] == BACKSLASH && t[a.next + 1] == LOWER_U then
        var b := Hex(t, a.next + 2, 4, 0);
        if !b.ok then Fail(b.next)
        else
          HexBound(t, a.next + 2, 4, 0);
          Done(Utf8(Astral(a.value, b.value)), b.next)
      else Done(Utf8(a.value), a.next)
  }

  /** What follows a backslash. */
  function Escape(t: seq<byte>, p: nat): (d: Decode)
    requires p <= |t|
    ensures d.Fail? ==> p <= d.stop <= |t|
    ensures d.Done? ==> p < d.next <= |t| && |d.text| <= d.next - p
  {
    if p >= |t| then Fail(p)
    else if t[p] == LOWER_U then Unicode(t, p + 1)
    else if ShortEscape(t[p]) != 0 then Done([ShortEscape(t[p])], p + 1)
    else Fail(p + 1)
  }

  /** Decodes up to the closing quote and steps past it. */
  function StringTail(t: seq<byte>, p: nat): (d: Decode)
    requires p <= |t|
    ensures d.Fail? ==> p <= d.stop <= |t|
    ensures d.Done? ==> p < d.next <= |t| && |d.text| <= d.next - 1 - p
    decreases |t| - p
  {
    if p >= |t| then Fail(p)
    else if t[p] == QUOTE then Done([], p + 1)
    else if t[p] != BACKSLASH then Prepend([t[p]], StringTail(t, p + 1))
    else
      match Escape(t, p + 1)
      case Fail(stop) => Fail(stop)
      case Done(text, next) => Prepend(text, StringTail(t, next))
  }

  /** The sizing pass: the closing quote it stops at, or a position past the end. */
  function ScanQuote(t: seq<byte>, p: nat): (q: nat)
    requires p <= |t| + 1
    ensures p <= q <= |t| + 1
    ensures q < |t| ==> t[q] == QUOTE
    decreases |t| + 1 - p
  {
    if p >= |t| || t[p] == QUOTE then p
    else if t[p] == BACKSLASH then ScanQuote(t, p + 2)
    else ScanQuote(t, p + 1)
  }

  /** A string token, from its opening quote. */
  function ParseString(t: seq<byte>, p: nat): (r: Option<(seq<byte>, nat)>)
    requires p <= |t|
    ensures r.Some? ==> p < r.value.1 <= |t|
  {
    if p < |t| && t[p] == QUOTE then
      match StringTail(t, p + 1)
      case Fail(_) => None
      case Done(text, next) => Some((text, next))
    else None
  }

  // ---- Numbers and literals ----------------------------------------------

  /** How far the number scanner runs. */
  function NumberEnd(t: seq<byte>, p: nat): (q: nat)
    requires p <= |t|
    ensures p <= q <= |t|
  {
    var a := if p < |t| && t[p] == MINUS then p + 1 else p;
    var b := SkipDigits(t, a);
    var c := if b < |t| && t[b] == DOT then SkipDigits(t, b + 1) else b;
    if c < |t| && (t[c] == 0x65 || t[c] == 0x45) then
      var d := c + 1;
      SkipDigits(t, if d < |t| && (t[d] == PLUS || t[d] == MINUS) then d + 1 else d)
    else c
  }

  function ParseNumber(t: seq<byte>, p: nat): (r: Option<(Value, nat)>)
    requires p <= |t|
    ensures r.Some? ==> p < r.value.1 <= |t|
  {
    var q := NumberEnd(t, p);
    if q == p || (q == p + 1 && t[p] == MINUS) then None else Some((Num(t[p..q]), q))
  }

  predicate StartsWith(t: seq<byte>, p: nat, s: seq<byte>) {
    p + |s| <= |t| && t[p..p + |s|] == s
  }

  const TRUE_TEXT: seq<byte> := [0x74, 0x72, 0x75, 0x65]
  const FALSE_TEXT: seq<byte> := [0x66, 0x61, 0x6C, 0x73, 0x65]
  const NULL_TEXT: seq<byte> := [0x6E, 0x75, 0x6C, 0x6C]

  function ParseLiteral(t: seq<byte>, p: nat, s: seq<byte>, v: Value): (r: Option<(Value, nat)>)
    requires |s| > 0
    ensures r.Some? ==> p < r.value.1 <= |t|
  {
    if StartsWith(t, p, s) then Some((v, p + |s|)) else None
  }

  // ---- Values ------------------------------------------------------------

  /** A key is kept as a C string, so it ends at its first NUL. */
  function CString(s: seq<byte>): (r: seq<byte>)
    ensures 0 !in r && (0 !in s ==> r == s)
  {
    if s == [] || s[0] == 0 then [] else [s[0]] + CString(s[1..])
  }

  /** One value with any blanks before it, at nesting depth `depth`. */
  function ParseValue(t: seq<byte>, p: nat, depth: nat): (r: Option<(Value, nat)>)
    requires p <= |t|
    ensures r.Some? ==> p < r.value.1 <= |t|
    decreases |t| - p, 1
  {
    var q := SkipBlanks(t, p);
    if q >= |t| then None
    else if t[q] == LBRACE then ParseObject(t, q + 1, depth + 1)
    else if t[q] == LBRACKET then ParseArray(t, q + 1, depth + 1)
    else if t[q] == QUOTE then
      match ParseString(t, q)
      case None => None
      case Some((s, next)) => Some((Str(s), next))
    else if t[q] == 0x74 then ParseLiteral(t, q, TRUE_TEXT, Bool(true))
    else if t[q] == 0x66 then ParseLiteral(t, q, FALSE_TEXT, Bool(false))
    else if t[q] == 0x6E then ParseLiteral(t, q, NULL_TEXT, Null)
    else if t[q] == MINUS || Digit(t[q]) then ParseNumber(t, q)
    else None
  }

  /** An array after its bracket; `depth` counts it. */
  function ParseArray(t: seq<byte>, p: nat, depth: nat): (r: Option<(Value, nat)>)
    requires p <= |t|
    ensures r.Some? ==> p < r.value.1 <= |t|
    decreases |t| - p, 3
  {
    if depth > MAX_DEPTH then None
    else
      var q := SkipBlanks(t, p);
      if q < |t| && t[q] == RBRACKET then Some((Arr([]), q + 1))
      else
        match ParseElements(t, q, depth)
        case None => None
        case Some((vs, next)) => Some((Arr(vs), next))
  }

  /** Elements up to the closing bracket. */
  function ParseElements(t: seq<byte>, p: nat, depth: nat): (r: Option<(seq<Value>, nat)>)
    requires p <= |t|
    ensures r.Some? ==> p < r.value.1 <= |t|
    decreases |t| - p, 2
  {
    match ParseValue(t, p, depth)
    case None => None
    case Some((v, next)) =>
      var q := SkipBlanks(t, next);
      if q >= |t| then None
      else if t[q] == COMMA then
        match ParseElements(t, q + 1, depth)
        case None => None
        case Some((vs, end)) => Some(([v] + vs, end))
      else if t[q] == RBRACKET then Some(([v], q + 1))
      else None
  }

  /** An object after its brace; `depth` counts it. */
  function ParseObject(t: seq<byte>, p: nat, depth: nat): (r: Option<(Value, nat)>)
    requires p <= |t|
    ensures r.Some? ==> p < r.value.1 <= |t|
    decreases |t| - p, 3
  {
    if depth > MAX_DEPTH then None
    else
      var q := SkipBlanks(t, p);
      if q < |t| && t[q] == RBRACE then Some((Obj([]), q + 1))
      else
        match ParseMembers(t, q, depth)
        case None => None
        case Some((ms, next)) => Some((Obj(ms), next))
  }

  /** A key and its colon, with the blanks around them. */
  function ParseKey(t: seq<byte>, p: nat): (r: Option<(seq<byte>, nat)>)
    requires p <= |t|
    ensures r.Some? ==> p < r.value.1 <= |t|
  {
    match ParseString(t, SkipBlanks(t, p))
    case None => None
    case Some((key, next)) =>
      var q := SkipBlanks(t, next);
      if q < |t| && t[q] == COLON then Some((CString(key), q + 1)) else None
  }

  /** Members up to the closing brace. */
  function ParseMembers(t: seq<byte>, p: nat, depth: nat): (r: Option<(seq<Member>, nat)>)
    requires p <= |t|
    ensures r.Some? ==> p < r.value.1 <= |t|
    decreases |t| - p, 2
  {
    match ParseKey(t, p)
    case None => None
    case Some((key, start)) =>
      match ParseValue(t, start, depth)
      case None => None
      case Some((v, next)) =>
        var q := SkipBlanks(t, next);
        if q >= |t| then None
        else if t[q] == COMMA then
          match ParseMembers(t, q + 1, depth)
          case None => None
          case Some((ms, end)) => Some(([Member(key, v)] + ms, end))
        else if t[q] == RBRACE then Some(([Member(key, v)], q + 1))
        else None
  }

  /** A whole text: one value and nothing but blanks after it. */
  function ParseText(t: seq<byte>): (r: Option<Value>) {
    if t == [] then None
    else
      match ParseValue(t, 0, 0)
      case None => None
      case Some((v, next)) => if SkipBlanks(t, next) == |t| then Some(v) else None
  }
}
