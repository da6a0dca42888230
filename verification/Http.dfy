/** core/http.c: the request builder, and the response parser that splits its copy of the head in place with NULs. */
module Http {
  import opened CTypes
  import opened Numerals
  import opened HttpText
  import opened Heap
  import HttpLaws

  // ---- C strings in a buffer ---------------------------------------------

  /** The C string at `p` is `s`. */
  ghost predicate StringAt(raw: array<byte>, p: nat, s: seq<byte>)
    reads raw
  {
    && p + |s| < raw.Length && raw[p + |s|] == 0
    && forall k :: 0 <= k < |s| ==> raw[p + k] == s[k] && s[k] != 0
  }

  lemma StringNotLonger(raw: array<byte>, p: nat, s: seq<byte>, t: seq<byte>)
    requires StringAt(raw, p, s) && StringAt(raw, p, t)
    ensures |s| <= |t|
  {
    StringNext(raw, p, s, if |t| < |s| then |t| else |s|);
  }

  /** A pointer names at most one string. */
  lemma StringIsUnique(raw: array<byte>, p: nat, s: seq<byte>, t: seq<byte>)
    requires StringAt(raw, p, s) && StringAt(raw, p, t)
    ensures s == t
  {
    StringNotLonger(raw, p, s, t);
    StringNotLonger(raw, p, t, s);
  }

  lemma StringTail(raw: array<byte>, p: nat, s: seq<byte>, j: nat)
    requires StringAt(raw, p, s) && j <= |s|
    ensures StringAt(raw, p + j, s[j..])
  {
    forall k | 0 <= k < |s| - j ensures raw[p + j + k] == s[j..][k] && s[j..][k] != 0 {
      assert raw[p + (j + k)] == s[j + k];
    }
  }

  /** The byte at the `j`-th place of a string, and the string after it. */
  lemma StringNext(raw: array<byte>, p: nat, s: seq<byte>, j: nat)
    requires StringAt(raw, p, s) && j <= |s|
    ensures p + |s| < raw.Length
    ensures if j == |s| then s[j..] == [] && raw[p + j] == 0
            else s[j..][0] == raw[p + j] && s[j..][1..] == s[j + 1..] && raw[p + j] != 0
  {
  }

  /** From `p` on the buffer still holds the message and its closing NUL. */
  ghost predicate Untouched(raw: array<byte>, text: seq<byte>, p: nat)
    reads raw
  {
    && raw.Length == |text| + 1 && p <= |text| && raw[|text|] == 0
    && forall k :: p <= k < |text| ==> raw[k] == text[k]
  }

  function Ahead(e: Option<nat>, n: nat): (f: Option<nat>) {
    if e.Some? then Some(e.value + n) else None
  }

  /** One step of the search for a line end. */
  lemma EolStep(text: seq<byte>, q: nat)
    requires q <= |text|
    ensures FindEol(text[q..]) ==
      if q == |text| || text[q] == 0 then None
      else if q + 1 < |text| && text[q] == CR && text[q + 1] == LF then Some(0)
      else Ahead(FindEol(text[q + 1..]), 1)
  {
    if q < |text| {
      assert text[q..][0] == text[q] && text[q..][1..] == text[q + 1..];
    }
  }

  /** strstr(raw + p, "\r\n") */
  method Strstr(raw: array<byte>, p: nat, ghost text: seq<byte>) returns (at: Option<nat>)
    requires Untouched(raw, text, p)
    ensures at == Ahead(FindEol(text[p..]), p)
    ensures at.Some? ==> p <= at.value && at.value + 2 <= |text| && 0 !in text[p..at.value]
  {
    hide FindEol;
    var q := p;
    while raw[q] != 0
      invariant p <= q <= |text| && 0 !in text[p..q]
      invariant Ahead(FindEol(text[p..]), p) == Ahead(FindEol(text[q..]), q)
      decreases |text| - q
    {
      EolStep(text, q);
      if raw[q] == CR && raw[q + 1] == LF {
        return Some(q);
      }
      assert text[p..q + 1] == text[p..q] + [text[q]];
      q := q + 1;
    }
    EolStep(text, q);
    at := None;
  }

  lemma FoundAt(s: seq<byte>, c: byte, i: nat)
    requires i < |s| && s[i] == c && c !in s[..i]
    ensures FindByte(s, c) == Some(i)
  {
    assert s == s[..i] + [c] + s[i + 1..];
    HttpLaws.FirstByteAt(s[..i], c, s[i + 1..]);
  }

  /** strchr for a byte other than NUL */
  method Strchr(raw: array<byte>, p: nat, c: byte, ghost s: seq<byte>) returns (at: Option<nat>)
    requires StringAt(raw, p, s) && c != 0
    ensures at == Ahead(FindByte(s, c), p)
  {
    hide StringAt, FindByte;
    var q := p;
    StringNext(raw, p, s, 0);
    while raw[q] != 0
      invariant p <= q <= p + |s| && c !in s[..q - p]
      decreases p + |s| - q
    {
      StringNext(raw, p, s, q - p);
      if raw[q] == c {
        FoundAt(s, c, q - p);
        return Some(q);
      }
      assert s[..q + 1 - p] == s[..q - p] + [raw[q]];
      q := q + 1;
    }
    StringNext(raw, p, s, q - p);
    assert s[..|s|] == s;
    at := None;
  }

  // ---- Numbers and names -------------------------------------------------

  /** The digit loop of parse_long. */
  method ReadDigits(raw: array<byte>, p: nat, ghost s: seq<byte>) returns (n: int)
    requires StringAt(raw, p, s)
    ensures n == Read(s, 10, 0)
  {
    hide StringAt, Signed32;
    n := 0;
    var q := p;
    StringNext(raw, p, s, 0);
    while 48 <= raw[q] <= 57
      invariant p <= q <= p + |s|
      invariant Read(s, 10, 0) == Read(s[q - p..], 10, n)
      decreases p + |s| - q
    {
      StringNext(raw, p, s, q - p);
      var d: int := raw[q];
      n := Signed32(n * 10 + (d - 48));
      q := q + 1;
    }
    StringNext(raw, p, s, q - p);
  }

  method SkipBlanksAt(raw: array<byte>, p: nat, ghost s: seq<byte>) returns (q: nat)
    requires StringAt(raw, p, s)
    ensures p <= q <= p + |s| && s[q - p..] == SkipBlanks(s)
  {
    hide StringAt;
    q := p;
    StringNext(raw, p, s, 0);
    while raw[q] == SP || raw[q] == TAB
      invariant p <= q <= p + |s|
      invariant SkipBlanks(s) == SkipBlanks(s[q - p..])
      decreases p + |s| - q
    {
      StringNext(raw, p, s, q - p);
      q := q + 1;
    }
    StringNext(raw, p, s, q - p);
  }

  /** parse_long */
  method ParseLong(raw: array<byte>, p: nat, ghost s: seq<byte>) returns (n: int)
    requires StringAt(raw, p, s)
    ensures n == ReadLong(s)
  {
    hide Read, SkipBlanks;
    var q := SkipBlanksAt(raw, p, s);
    ghost var t := s[q - p..];
    StringTail(raw, p, s, q - p);
    if raw[q] == 45 {
      StringTail(raw, q, t, 1);
      n := ReadDigits(raw, q + 1, t[1..]);
      n := Signed32(-n);
    } else if raw[q] == 43 {
      StringTail(raw, q, t, 1);
      n := ReadDigits(raw, q + 1, t[1..]);
    } else {
      n := ReadDigits(raw, q, t);
    }
  }

  /** ci_eq against a literal */
  method CiEq(raw: array<byte>, p: nat, name: seq<byte>, ghost s: seq<byte>) returns (same: bool)
    requires StringAt(raw, p, s) && 0 !in name
    ensures same <==> SameIgnoringCase(s, name)
  {
    var i := 0;
    while true
      invariant 0 <= i <= |s| && i <= |name|
      invariant forall k :: 0 <= k < i ==> Lower(s[k]) == Lower(name[k])
      decreases |s| - i
    {
      var a := raw[p + i];
      var b: byte := if i < |name| then name[i] else 0;
      assert Lower(a) == 0 <==> i == |s| by {
        StringNext(raw, p, s, i);
      }
      assert Lower(b) == 0 <==> i == |name|;
      if Lower(a) != Lower(b) {
        return false;
      }
      if Lower(a) == 0 {
        return true;
      }
      assert Lower(s[i]) == Lower(name[i]);
      i := i + 1;
    }
  }

  datatype Entry = Entry(name: nat, value: nat)

  /** The header array's pointers name these headers, all within the part of the buffer before `end`. */
  ghost predicate EntriesAt(raw: array<byte>, es: seq<Entry>, hs: seq<Header>, end: nat)
    reads raw
  {
    |es| == |hs| && end <= raw.Length && forall i :: 0 <= i < |es| ==> EntryAt(raw, es[i], hs[i], end)
  }

  ghost predicate EntryAt(raw: array<byte>, e: Entry, h: Header, end: nat)
    reads raw
  {
    && StringAt(raw, e.name, h.name) && e.name + |h.name| < end
    && StringAt(raw, e.value, h.value) && e.value + |h.value| < end
  }

  /** http_header */
  method FindHeader(raw: array<byte>, es: seq<Entry>, name: seq<byte>, ghost hs: seq<Header>, ghost end: nat)
    returns (value: Option<nat>)
    requires EntriesAt(raw, es, hs, end) && 0 !in name
    ensures value.Some? <==> Lookup(hs, name).Some?
    ensures value.Some? ==> StringAt(raw, value.value, Lookup(hs, name).value)
  {
    hide SameIgnoringCase, StringAt;
    for i := 0 to |es|
      invariant Lookup(hs, name) == Lookup(hs[i..], name)
    {
      assert EntryAt(raw, es[i], hs[i], end);
      assert hs[i..][0] == hs[i] && hs[i..][1..] == hs[i + 1..];
      var same := CiEq(raw, es[i].name, name, hs[i].name);
      if same {
        return Some(es[i].value);
      }
    }
    value := None;
  }

  // ---- Chunks ------------------------------------------------------------

  function Bytes(mem: seq<byte>, p: nat, n: nat): (s: seq<byte>)
    requires p + n <= |mem|
    ensures |s| == n
  {
    mem[p..p + n]
  }

  lemma BytesNext(mem: seq<byte>, p: nat, n: nat)
    requires p + n <= |mem| && n > 0
    ensures Bytes(mem, p, n)[0] == mem[p] && Bytes(mem, p, n)[1..] == Bytes(mem, p + 1, n - 1)
  {
  }

  /** A chunk's size, with the length of its digits. */
  method ReadSize(raw: array<byte>, p: nat, rem: nat, ghost mem: seq<byte>) returns (clen: int, i: nat)
    requires raw[..] == mem && p + rem <= |mem|
    ensures i <= rem && clen == Read(Bytes(mem, p, rem), 16, 0)
    ensures AfterLine(Bytes(mem, p, rem)) == AfterLine(Bytes(mem, p + i, rem - i))
  {
    hide Bytes, Signed32;
    clen, i := 0, 0;
    while i < rem
      invariant 0 <= i <= rem
      invariant Read(Bytes(mem, p, rem), 16, 0) == Read(Bytes(mem, p + i, rem - i), 16, clen)
      invariant AfterLine(Bytes(mem, p, rem)) == AfterLine(Bytes(mem, p + i, rem - i))
    {
      BytesNext(mem, p + i, rem - i);
      var c: int := raw[p + i];
      var d;
      if 48 <= c <= 57 {
        d := c - 48;
      } else if 97 <= c <= 102 {
        d := c - 97 + 10;
      } else if 65 <= c <= 70 {
        d := c - 65 + 10;
      } else {
        return;
      }
      clen := Signed32(clen * 16 + d);
      i := i + 1;
    }
  }

  /** Past the LF that ends a size line. */
  method SkipLine(raw: array<byte>, p: nat, rem: nat, ghost mem: seq<byte>) returns (i: nat)
    requires raw[..] == mem && p + rem <= |mem|
    ensures i <= rem && Bytes(mem, p + i, rem - i) == AfterLine(Bytes(mem, p, rem))
  {
    hide Bytes;
    i := 0;
    while i < rem && raw[p + i] != LF
      invariant 0 <= i <= rem
      invariant AfterLine(Bytes(mem, p, rem)) == AfterLine(Bytes(mem, p + i, rem - i))
    {
      BytesNext(mem, p + i, rem - i);
      i := i + 1;
    }
    if i < rem {
      BytesNext(mem, p + i, rem - i);
      i := i + 1;
    }
  }

  method SkipEolBytes(raw: array<byte>, p: nat, rem: nat, ghost mem: seq<byte>) returns (i: nat)
    requires raw[..] == mem && p + rem <= |mem|
    ensures i <= rem && Bytes(mem, p + i, rem - i) == SkipEols(Bytes(mem, p, rem))
  {
    hide Bytes;
    i := 0;
    while i < rem && (raw[p + i] == CR || raw[p + i] == LF)
      invariant 0 <= i <= rem
      invariant SkipEols(Bytes(mem, p, rem)) == SkipEols(Bytes(mem, p + i, rem - i))
    {
      BytesNext(mem, p + i, rem - i);
      i := i + 1;
    }
    if i < rem {
      BytesNext(mem, p + i, rem - i);
    }
  }

  /** memcpy between two buffers */
  method Copy(dst: array<byte>, o: nat, src: array<byte>, p: nat, n: nat)
    requires dst != src && o + n <= dst.Length && p + n <= src.Length
    modifies dst
    ensures dst[..o + n] == old(dst[..o]) + src[p..p + n]
    ensures dst[o + n..] == old(dst[o + n..])
  {
    for i := 0 to n
      invariant dst[..o + i] == old(dst[..o]) + src[p..p + i]
      invariant dst[o + i..] == old(dst[o + i..])
    {
      dst[o + i] := src[p + i];
    }
  }

  /** A whole size line: its value, and its length with the LF. */
  method ReadSizeLine(raw: array<byte>, p: nat, rem: nat, ghost mem: seq<byte>) returns (clen: int, i: nat)
    requires raw[..] == mem && 0 < rem && p + rem <= |mem|
    ensures 0 < i <= rem && clen == Read(Bytes(mem, p, rem), 16, 0)
    ensures Bytes(mem, p + i, rem - i) == AfterLine(Bytes(mem, p, rem))
  {
    hide Read, AfterLine;
    clen, i := ReadSize(raw, p, rem, mem);
    var j := SkipLine(raw, p + i, rem - i, mem);
    i := i + j;
  }

  /** One turn of dechunk's loop: `piece` is what it appends to the output. */
  method DecodeOne(raw: array<byte>, p: nat, rem: nat, out: array<byte>, o: nat, ghost mem: seq<byte>)
    returns (done: bool, q: nat, left: nat, written: nat, ghost piece: seq<byte>)
    requires raw != out && raw[..] == mem && 0 < rem && p + rem <= |mem| && o + rem < out.Length
    modifies out
    ensures q + left == p + rem && left < rem && written + left <= o + rem
    ensures out[..written] == old(out[..o]) + piece
    ensures Dechunk(Bytes(mem, p, rem)) == piece + if done then [] else Dechunk(Bytes(mem, q, left))
  {
    hide Read, AfterLine, SkipEols, Dechunk, Bytes;
    ghost var s := Bytes(mem, p, rem);
    var clen, i := ReadSizeLine(raw, p, rem, mem);
    q, left := p + i, rem - i;
    ghost var t := Bytes(mem, q, left);
    ChunkTurn(s);
    written, piece := o, [];
    if clen <= 0 {
      done := true;
      return;
    }
    if clen > left {
      clen := left;
    }
    BytesCut(mem, q, left, clen);
    piece := t[..clen];
    Copy(out, o, raw, q, clen);
    written := o + clen;
    q, left := q + clen, left - clen;
    var k := SkipEolBytes(raw, q, left, mem);
    q, left, done := q + k, left - k, false;
  }

  lemma BytesCut(mem: seq<byte>, p: nat, n: nat, m: nat)
    requires p + n <= |mem| && m <= n
    ensures Bytes(mem, p, n)[..m] == mem[p..p + m] && Bytes(mem, p, n)[m..] == Bytes(mem, p + m, n - m)
  {
  }

  /** What the decoder does with a chunk, cut short or not. */
  lemma ChunkTurn(s: seq<byte>)
    requires s != []
    ensures
      var n, t := Read(s, 16, 0), AfterLine(s);
      var m := if n > |t| then |t| else n;
      && |t| < |s|
      && Dechunk(s) == if n <= 0 then [] else t[..m] + Dechunk(SkipEols(t[m..]))
  {
    hide Read, AfterLine;
  }

  lemma NothingLeft(mem: seq<byte>, p: nat)
    requires p <= |mem|
    ensures Dechunk(Bytes(mem, p, 0)) == []
  {
  }

  lemma AppendPiece(goal: seq<byte>, was: seq<byte>, now: seq<byte>, piece: seq<byte>, rest: seq<byte>, more: seq<byte>)
    requires goal == was + rest && now == was + piece && rest == piece + more
    ensures goal == now + more
  {
  }

  /** The loop of dechunk and the NUL after it. */
  method DecodeAll(raw: array<byte>, start: nat, len: nat, out: array<byte>, ghost mem: seq<byte>) returns (o: nat)
    requires raw != out && raw[..] == mem && start + len <= |mem| && out.Length == len + 1
    modifies out
    ensures o <= len && out[o] == 0 && out[..o] == Dechunk(Bytes(mem, start, len))
  {
    hide Dechunk, Bytes;
    ghost var goal, rest := Dechunk(Bytes(mem, start, len)), Dechunk(Bytes(mem, start, len));
    o := 0;
    var p: nat, rem: nat, done := start, len, false;
    assert out[..o] == [];
    while rem > 0 && !done
      invariant p + rem == start + len && o + rem <= len && raw[..] == mem
      invariant goal == out[..o] + rest && rest == if done then [] else Dechunk(Bytes(mem, p, rem))
      decreases rem, !done
    {
      ghost var was, before, piece := out[..o], rest, [];
      done, p, rem, o, piece := DecodeOne(raw, p, rem, out, o, mem);
      rest := if done then [] else Dechunk(Bytes(mem, p, rem));
      AppendPiece(goal, was, out[..o], piece, before, rest);
    }
    NothingLeft(mem, p);
    ghost var text := out[..o];
    out[o] := 0;
    assert out[..o] == text;
  }

  /** dechunk: the decoded bytes and a NUL, in a buffer one longer than the input. */
  method DecodeChunks(heap: Allocator, raw: array<byte>, start: nat, len: nat, ghost mem: seq<byte>)
    returns (block: nat, out: array<byte>, o: nat)
    requires heap.Valid() && raw[..] == mem && start + len <= |mem|
    modifies heap
    ensures heap.Valid() && heap.live == old(heap.live) + Owned(block)
    ensures heap.refusals == old(heap.refusals) + if block == 0 then 1 else 0
    ensures fresh(out)
    ensures block != 0 ==>
      out.Length == len + 1 && o <= len && out[o] == 0 && out[..o] == Dechunk(Bytes(mem, start, len))
  {
    hide Dechunk, Bytes;
    block := heap.Malloc();
    out, o := new byte[if block == 0 then 0 else len + 1], 0;
    if block != 0 {
      o := DecodeAll(raw, start, len, out, mem);
    }
  }

  // ---- The head ----------------------------------------------------------

  /** A NUL written before `to` leaves the rest of the message alone. */
  method EndLine(raw: array<byte>, p: nat, at: nat, ghost text: seq<byte>)
    requires Untouched(raw, text, p) && p <= at && at + 2 <= |text| && 0 !in text[p..at]
    modifies raw
    ensures Untouched(raw, text, at + 2) && StringAt(raw, p, text[p..at])
    ensures forall k :: 0 <= k < raw.Length && k != at ==> raw[k] == old(raw[k])
  {
    raw[at] := 0;
    ghost var line := text[p..at];
    forall k | 0 <= k < |line| ensures raw[p + k] == line[k] && line[k] != 0 {
      assert line[k] == text[p + k] && line[k] in line;
    }
  }

  /** The code and the phrase of a status line after its first space; `reason` points at the phrase, if there is a
      second space. */
  method CodeAndReason(raw: array<byte>, p: nat, ghost t: seq<byte>)
    returns (status: int, reason: Option<nat>, ghost phrase: seq<byte>)
    requires StringAt(raw, p, t)
    ensures
      var b := FindByte(t, SP);
      status == ReadLong(t) && phrase == if b.Some? then t[b.value + 1..] else []
    ensures ReasonAt(raw, reason, phrase, p + |t| + 1)
  {
    hide FindByte, ReadLong, StringAt;
    reason, phrase := None, [];
    status := ParseLong(raw, p, t);
    var sp2 := Strchr(raw, p, SP, t);
    if sp2.Some? {
      StringTail(raw, p, t, sp2.value + 1 - p);
      reason, phrase := Some(sp2.value + 1), t[sp2.value + 1 - p..];
    }
  }

  /** The code and the phrase of a status line. */
  method StatusOf(raw: array<byte>, ghost line: seq<byte>)
    returns (ok: bool, status: int, reason: Option<nat>, ghost phrase: seq<byte>)
    requires StringAt(raw, 0, line)
    ensures ReadStatus(line) == if ok then Some((status, phrase)) else None
    ensures ok ==> ReasonAt(raw, reason, phrase, |line| + 1)
  {
    hide FindByte, ReadLong, StringAt;
    ok, status, reason, phrase := false, 0, None, [];
    var sp1 := Strchr(raw, 0, SP, line);
    if sp1.Some? {
      var p := sp1.value + 1;
      StringTail(raw, 0, line, p);
      status, reason, phrase := CodeAndReason(raw, p, line[p..]);
      ok := true;
    }
  }

  ghost predicate ReasonAt(raw: array<byte>, reason: Option<nat>, phrase: seq<byte>, end: nat)
    reads raw
  {
    if reason.None? then phrase == []
    else StringAt(raw, reason.value, phrase) && reason.value + |phrase| < end
  }

  /** The status line: its end becomes a NUL. */
  method TakeStatusLine(raw: array<byte>, ghost text: seq<byte>)
    returns (ok: bool, status: int, reason: Option<nat>, p: nat, ghost phrase: seq<byte>)
    requires Untouched(raw, text, 0)
    modifies raw
    ensures
      var e := FindEol(text);
      if !ok then e.None? || ReadStatus(text[..e.value]).None?
      else
        && e.Some? && p == e.value + 2 && ReadStatus(text[..e.value]) == Some((status, phrase))
        && Untouched(raw, text, p) && ReasonAt(raw, reason, phrase, p)
  {
    hide FindEol, ReadStatus, Untouched, StringAt;
    ok, status, reason, p, phrase := false, 0, None, 0, [];
    assert text[0..] == text;
    var eol := Strstr(raw, 0, text);
    if eol.Some? {
      EndLine(raw, 0, eol.value, text);
      assert text[0..eol.value] == text[..eol.value];
      ok, status, reason, phrase := StatusOf(raw, text[..eol.value]);
      p := eol.value + 2;
    }
  }

  /** A header line: a colon in it becomes a NUL, the name ends there and the value starts after the blanks. */
  method TakeHeader(raw: array<byte>, p: nat, ghost line: seq<byte>) returns (e: Option<Entry>)
    requires StringAt(raw, p, line)
    modifies raw
    ensures forall k :: 0 <= k < raw.Length && !(p <= k < p + |line|) ==> raw[k] == old(raw[k])
    ensures e.Some? <==> ReadHeader(line).Some?
    ensures e.Some? ==> EntryAt(raw, e.value, ReadHeader(line).value, p + |line| + 1)
  {
    hide SkipBlanks, FindByte;
    var colon := Strchr(raw, p, COLON, line);
    if colon.None? {
      return None;
    }
    ghost var c := colon.value - p;
    StringTail(raw, p, line, c + 1);
    raw[colon.value] := 0;
    ghost var rest := line[c + 1..];
    var v := SkipBlanksAt(raw, colon.value + 1, rest);
    StringTail(raw, colon.value + 1, rest, v - (colon.value + 1));
    e := Some(Entry(p, v));
  }

  /** Headers read so far, before those still to come. */
  function Before(hs: seq<Header>, r: Option<(seq<Header>, seq<byte>)>): (t: Option<(seq<Header>, seq<byte>)>) {
    if r.None? then None else Some((hs + r.value.0, r.value.1))
  }

  lemma HeadersUnfold(s: seq<byte>, hs: seq<Header>)
    ensures
      var e := FindEol(s);
      Before(hs, ReadHeaders(s)) ==
        if e.None? then None
        else if e.value == 0 then Some((hs, s[2..]))
        else Before(hs + Listed(ReadHeader(s[..e.value])), ReadHeaders(s[e.value + 2..]))
  {
    hide FindEol, ReadHeader, Before;
    var e := FindEol(s);
    BeforeNothing(hs, if e.Some? then s[2..] else s);
    if e.Some? && e.value > 0 {
      HeadersStep(s);
      BeforeTwo(hs, Listed(ReadHeader(s[..e.value])), ReadHeaders(s[e.value + 2..]));
    }
  }

  lemma BeforeNothing(hs: seq<Header>, rest: seq<byte>)
    ensures Before(hs, None) == None && Before(hs, Some(([], rest))) == Some((hs, rest))
  {
    assert hs + [] == hs;
  }

  lemma HeadersStep(s: seq<byte>)
    requires FindEol(s).Some? && FindEol(s).value > 0
    ensures
      var e := FindEol(s).value;
      ReadHeaders(s) == Before(Listed(ReadHeader(s[..e])), ReadHeaders(s[e + 2..]))
  {
    hide FindEol, ReadHeader;
  }

  lemma BeforeTwo(hs: seq<Header>, l: seq<Header>, r: Option<(seq<Header>, seq<byte>)>)
    ensures Before(hs, Before(l, r)) == Before(hs + l, r)
  {
    if r.Some? {
      assert hs + (l + r.value.0) == hs + l + r.value.0;
    }
  }

  /** A header line, ended and split; the headers before it keep their strings. */
  method SplitLine(raw: array<byte>, p: nat, at: nat, ghost es: seq<Entry>, ghost text: seq<byte>,
                   ghost hs: seq<Header>)
    returns (e: Option<Entry>)
    requires Untouched(raw, text, p) && EntriesAt(raw, es, hs, p)
    requires p <= at && at + 2 <= |text| && 0 !in text[p..at]
    modifies raw
    ensures Untouched(raw, text, at + 2) && EntriesAt(raw, es, hs, p)
    ensures forall k :: 0 <= k < p ==> raw[k] == old(raw[k])
    ensures e.Some? <==> ReadHeader(text[p..at]).Some?
    ensures e.Some? ==> EntryAt(raw, e.value, ReadHeader(text[p..at]).value, at + 1)
  {
    hide ReadHeader;
    EndLine(raw, p, at, text);
    e := TakeHeader(raw, p, text[p..at]);
    forall i | 0 <= i < |es| ensures EntryAt(raw, es[i], hs[i], p) {
      assert old(EntryAt(raw, es[i], hs[i], p));
    }
  }

  /** One header line, with its entry appended to the array; `ok` fails when the array cannot grow. */
  method AddHeader(heap: Allocator, raw: array<byte>, p: nat, at: nat, es: seq<Entry>, block: nat,
                   ghost text: seq<byte>, ghost hs: seq<Header>, ghost rest: multiset<nat>)
    returns (ok: bool, more: seq<Entry>, grown: nat, ghost now: seq<Header>)
    requires heap.Valid() && heap.live == rest + Owned(block)
    requires Untouched(raw, text, p) && EntriesAt(raw, es, hs, p)
    requires p <= at && at + 2 <= |text| && 0 !in text[p..at]
    modifies heap, raw
    ensures heap.Valid() && heap.live == rest + Owned(grown)
    ensures heap.refusals == old(heap.refusals) + if ok then 0 else 1
    ensures forall k :: 0 <= k < p ==> raw[k] == old(raw[k])
    ensures ok ==> Untouched(raw, text, at + 2) && EntriesAt(raw, more, now, at + 2)
    ensures ok ==> now == hs + Listed(ReadHeader(text[p..at]))
  {
    hide ReadHeader, StringAt;
    var e := SplitLine(raw, p, at, es, text, hs);
    ok, more, grown, now := true, es, block, hs + Listed(ReadHeader(text[p..at]));
    if e.Some? {
      var b := heap.Realloc(block, rest);
      if b == 0 {
        ok := false;
        return;
      }
      grown, more := b, es + [e.value];
    }
  }

  /** The header loop: `p` ends past the blank line. `ok` fails without one, or when the array cannot grow. */
  method TakeHeaders(heap: Allocator, raw: array<byte>, start: nat, ghost text: seq<byte>, ghost rest: multiset<nat>)
    returns (ok: bool, es: seq<Entry>, block: nat, p: nat, ghost hs: seq<Header>)
    requires heap.Valid() && heap.live == rest && Untouched(raw, text, start)
    modifies heap, raw
    ensures heap.Valid() && heap.live == rest + Owned(block)
    ensures heap.refusals >= old(heap.refusals) && (ok ==> heap.refusals == old(heap.refusals))
    ensures forall k :: 0 <= k < start ==> raw[k] == old(raw[k])
    ensures ok ==> start <= p <= |text| && ReadHeaders(text[start..]) == Some((hs, text[p..]))
    ensures ok ==> Untouched(raw, text, p) && EntriesAt(raw, es, hs, p)
    ensures !ok ==> ReadHeaders(text[start..]).None? || heap.refusals > old(heap.refusals)
  {
    hide FindEol, ReadHeaders, StringAt, ReadHeader;
    es, block, p, hs := [], 0, start, [];
    ghost var goal := ReadHeaders(text[start..]);
    assert goal == Before([], goal) by {
      assert goal.Some? ==> [] + goal.value.0 == goal.value.0;
    }
    while true
      invariant heap.Valid() && heap.live == rest + Owned(block) && heap.refusals == old(heap.refusals)
      invariant start <= p && Untouched(raw, text, p) && EntriesAt(raw, es, hs, p)
      invariant forall k :: 0 <= k < start ==> raw[k] == old(raw[k])
      invariant goal == Before(hs, ReadHeaders(text[p..]))
      decreases |text| - p
    {
      HeadersUnfold(text[p..], hs);
      var end := Strstr(raw, p, text);
      if end.None? {
        ok := false;
        return;
      }
      ghost var line := text[p..end.value];
      assert text[p..][..end.value - p] == line;
      if end.value == p {
        p, ok := p + 2, true;
        return;
      }
      assert text[p..][end.value - p + 2..] == text[end.value + 2..];
      ok, es, block, hs := AddHeader(heap, raw, p, end.value, es, block, text, hs, rest);
      if !ok {
        return;
      }
      p := end.value + 2;
    }
  }

  lemma UntouchedBytes(raw: array<byte>, text: seq<byte>, p: nat, n: nat)
    requires Untouched(raw, text, p) && p + n <= |text|
    ensures raw[p..p + n] == text[p..][..n] && Bytes(raw[..], p, n) == text[p..][..n]
  {
    assert raw[p..p + n] == raw[..][p..p + n];
  }

  lemma FramingNames()
    ensures 0 !in Ascii("transfer-encoding") && 0 !in Ascii("content-length") && 0 !in Ascii("chunked")
  {
  }

  /** Whether the headers say chunked. */
  method SaysChunked(raw: array<byte>, es: seq<Entry>, ghost hs: seq<Header>, ghost end: nat) returns (chunked: bool)
    requires EntriesAt(raw, es, hs, end)
    ensures chunked <==> IsChunked(hs)
  {
    hide StringAt, Lookup, SameIgnoringCase, Ascii;
    FramingNames();
    chunked := false;
    var te := FindHeader(raw, es, Ascii("transfer-encoding"), hs, end);
    if te.Some? {
      chunked := CiEq(raw, te.value, Ascii("chunked"), Lookup(hs, Ascii("transfer-encoding")).value);
    }
  }

  /** The length of a body that is not chunked. */
  method BodyLength(raw: array<byte>, es: seq<Entry>, remaining: nat, ghost hs: seq<Header>, ghost end: nat,
                    ghost wire: seq<byte>)
    returns (n: int)
    requires EntriesAt(raw, es, hs, end) && |wire| == remaining && !IsChunked(hs)
    ensures 0 <= n <= remaining && wire[..n] == BodyOf(hs, wire)
  {
    hide StringAt, Lookup, Ascii, ReadLong, IsChunked;
    FramingNames();
    var cl := FindHeader(raw, es, Ascii("content-length"), hs, end);
    n := remaining;
    if cl.Some? {
      n := ParseLong(raw, cl.value, Lookup(hs, Ascii("content-length")).value);
      if n < 0 {
        n := 0;
      }
      if n > remaining {
        n := remaining;
      }
    } else {
      assert wire[..n] == wire;
    }
  }

  lemma ChunkedBody(hs: seq<Header>, s: seq<byte>)
    requires IsChunked(hs)
    ensures BodyOf(hs, s) == Dechunk(s)
  {
  }

  /** Body framing: decoded into a block of its own when chunked, otherwise a part of the buffer. */
  method TakeBody(heap: Allocator, raw: array<byte>, es: seq<Entry>, p: nat, len: nat,
                  ghost text: seq<byte>, ghost hs: seq<Header>)
    returns (ok: bool, block: nat, owned: array?<byte>, body: nat, n: nat)
    requires heap.Valid() && Untouched(raw, text, p) && |text| == len && EntriesAt(raw, es, hs, p)
    modifies heap
    ensures heap.Valid() && heap.live == old(heap.live) + Owned(block)
    ensures heap.refusals == old(heap.refusals) + if ok then 0 else 1
    ensures owned != null ==> fresh(owned)
    ensures ok ==> BodyIn(raw, owned, body, n, BodyOf(hs, text[p..]))
    ensures !ok ==> block == 0
  {
    hide StringAt, BodyOf, IsChunked;
    var remaining := len - p;
    ghost var wire := text[p..];
    assert wire[..remaining] == wire;
    UntouchedBytes(raw, text, p, remaining);
    ok, block, owned, body, n := true, 0, null, p, 0;
    var chunked := SaysChunked(raw, es, hs, p);
    if chunked {
      block, owned, n := DecodeChunks(heap, raw, p, remaining, raw[..]);
      ok, body := block != 0, 0;
      ChunkedBody(hs, wire);
      assert ok ==> owned[0..0 + n] == owned[..n];
    } else {
      n := BodyLength(raw, es, remaining, hs, p, wire);
      UntouchedBytes(raw, text, p, n);
    }
  }

  ghost predicate BodyIn(raw: array<byte>, owned: array?<byte>, body: nat, n: nat, v: seq<byte>)
    reads raw, owned
  {
    if owned != null then body + n <= owned.Length && owned[body..body + n] == v
    else body + n <= raw.Length && raw[body..body + n] == v
  }

  /** The blocks a response owns. */
  function Held(raw: nat, headers: nat, owned: nat): (m: multiset<nat>) {
    Owned(raw) + Owned(headers) + Owned(owned)
  }

  lemma NothingHeld()
    ensures Held(0, 0, 0) == multiset{}
  {
  }

  method FreeThree(heap: Allocator, a: nat, b: nat, c: nat, ghost rest: multiset<nat>)
    requires heap.Valid() && heap.live == rest + Held(c, a, b)
    modifies heap
    ensures heap.Valid() && heap.live == rest && heap.refusals == old(heap.refusals)
  {
    hide Owned;
    assert heap.live == rest + Owned(c) + Owned(b) + Owned(a);
    heap.Free(a, rest + Owned(c) + Owned(b));
    heap.Free(b, rest + Owned(c));
    heap.Free(c, rest);
  }

  // ---- The response ------------------------------------------------------

  class HttpResponse {
    var status: int
    var reason: Option<nat>
    var headers: seq<Entry>
    var raw: array?<byte>
    var owned: array?<byte>
    var body: nat
    var bodyLen: nat
    var rawBlock: nat
    var headerBlock: nat
    var ownedBlock: nat

    constructor ()
      ensures Blocks() == multiset{}
    {
      status, reason, headers, raw, owned, body, bodyLen := 0, None, [], null, null, 0, 0;
      rawBlock, headerBlock, ownedBlock := 0, 0, 0;
    }

    ghost function Blocks(): (m: multiset<nat>)
      reads this
    {
      Held(rawBlock, headerBlock, ownedBlock)
    }

    /** The fields and the strings they point at say `v`. */
    ghost predicate Represents(v: Reply)
      reads this, raw, owned
    {
      && raw != null && status == v.status
      && ReasonAt(raw, reason, v.reason, raw.Length)
      && EntriesAt(raw, headers, v.headers, raw.Length)
      && BodyIn(raw, owned, body, bodyLen, v.body)
    }

    /** A response says one thing. */
    lemma RepresentsOne(v: Reply, w: Reply)
      requires Represents(v) && Represents(w)
      ensures v == w
    {
      hide StringAt;
      if reason.Some? {
        StringIsUnique(raw, reason.value, v.reason, w.reason);
      }
      assert v.headers == w.headers by {
        forall i | 0 <= i < |headers| ensures v.headers[i] == w.headers[i] {
          assert EntryAt(raw, headers[i], v.headers[i], raw.Length);
          assert EntryAt(raw, headers[i], w.headers[i], raw.Length);
          StringIsUnique(raw, headers[i].name, v.headers[i].name, w.headers[i].name);
          StringIsUnique(raw, headers[i].value, v.headers[i].value, w.headers[i].value);
        }
      }
    }

    /** memset */
    method Clear()
      modifies this
      ensures rawBlock == headerBlock == ownedBlock == 0 && owned == null
    {
      status, reason, headers, raw, owned, body, bodyLen := 0, None, [], null, null, 0, 0;
      rawBlock, headerBlock, ownedBlock := 0, 0, 0;
    }

    /** http_response_free; `rest` is what else is live. */
    method Free(heap: Allocator, ghost rest: multiset<nat>)
      requires heap.Valid() && heap.live == rest + Blocks()
      modifies this, heap
      ensures heap.Valid() && heap.live == rest && heap.refusals == old(heap.refusals)
      ensures Blocks() == multiset{} && headers == [] && raw == null && owned == null && bodyLen == 0
    {
      hide Held;
      NothingHeld();
      FreeThree(heap, headerBlock, ownedBlock, rawBlock, rest);
      headers, raw, owned, body, bodyLen := [], null, null, 0, 0;
      rawBlock, headerBlock, ownedBlock := 0, 0, 0;
    }
  }

  /** The private copy of the response, with its closing NUL. */
  method CopyText(heap: Allocator, text: seq<byte>) returns (block: nat, raw: array<byte>)
    requires heap.Valid()
    modifies heap
    ensures heap.Valid() && heap.live == old(heap.live) + Owned(block)
    ensures heap.refusals == old(heap.refusals) + if block == 0 then 1 else 0
    ensures fresh(raw) && Untouched(raw, text, 0)
  {
    hide Owned;
    block := heap.Malloc();
    raw := new byte[|text| + 1](i => if 0 <= i < |text| then text[i] else 0);
  }

  lemma HeldStep(rest: multiset<nat>, raw: nat, headers: nat, owned: nat)
    ensures rest + Owned(raw) == rest + Held(raw, 0, 0)
    ensures rest + Held(raw, 0, 0) + Owned(headers) == rest + Held(raw, headers, 0)
    ensures rest + Held(raw, headers, 0) + Owned(owned) == rest + Held(raw, headers, owned)
  {
  }

  /** What a parse that got through its three stages found. */
  lemma ParseOf(text: seq<byte>, p: nat, q: nat, status: int, phrase: seq<byte>, hs: seq<Header>)
    requires FindEol(text).Some? && |text| >= 12
    requires p == FindEol(text).value + 2 && ReadStatus(text[..p - 2]) == Some((status, phrase))
    requires p <= q <= |text| && ReadHeaders(text[p..]) == Some((hs, text[q..]))
    ensures ParseReply(text) == Some(Reply(status, phrase, hs, BodyOf(hs, text[q..])))
  {
    hide FindEol, ReadStatus, ReadHeaders, BodyOf;
  }

  lemma EntriesWithin(raw: array<byte>, es: seq<Entry>, hs: seq<Header>, end: nat, more: nat)
    requires EntriesAt(raw, es, hs, end) && end <= more <= raw.Length
    ensures EntriesAt(raw, es, hs, more)
  {
    forall i | 0 <= i < |es| ensures EntryAt(raw, es[i], hs[i], more) {
      assert EntryAt(raw, es[i], hs[i], end);
    }
  }

  /** The body of a response whose headers are read. */
  method ParseBody(heap: Allocator, raw: array<byte>, len: nat, out: HttpResponse, p: nat,
                   ghost text: seq<byte>, ghost phrase: seq<byte>, ghost hs: seq<Header>, ghost rest: multiset<nat>)
    returns (ok: bool)
    requires heap.Valid() && len == |text| && Untouched(raw, text, p)
    requires EntriesAt(raw, out.headers, hs, p) && ReasonAt(raw, out.reason, phrase, raw.Length)
    requires out.raw == raw && out.owned == null && out.ownedBlock == 0
    requires heap.live == rest + Held(out.rawBlock, out.headerBlock, 0)
    modifies heap, out
    ensures heap.Valid() && heap.live == rest + Held(out.rawBlock, out.headerBlock, out.ownedBlock)
    ensures out.raw == raw && (out.owned == null || fresh(out.owned)) && out.status == old(out.status)
    ensures ok ==> out.Represents(Reply(out.status, phrase, hs, BodyOf(hs, text[p..])))
    ensures heap.refusals == old(heap.refusals) + if ok then 0 else 1
  {
    hide Held, Owned, BodyOf, StringAt, BodyIn, Lookup, ReasonAt, EntryAt;
    HeldAdd(rest, out.rawBlock, out.headerBlock);
    EntriesWithin(raw, out.headers, hs, p, raw.Length);
    var owned, mem, body, n;
    ok, owned, mem, body, n := TakeBody(heap, raw, out.headers, p, len, text, hs);
    out.ownedBlock, out.owned, out.body, out.bodyLen := owned, mem, body, n;
  }

  lemma HeldAdd(rest: multiset<nat>, raw: nat, headers: nat)
    ensures forall owned :: rest + Held(raw, headers, 0) + Owned(owned) == rest + Held(raw, headers, owned)
  {
    forall owned ensures rest + Held(raw, headers, 0) + Owned(owned) == rest + Held(raw, headers, owned) {
      HeldStep(rest, raw, headers, owned);
    }
  }

  /** The header lines of a response whose status line is read. */
  method ParseHead(heap: Allocator, raw: array<byte>, out: HttpResponse, p: nat,
                   ghost text: seq<byte>, ghost phrase: seq<byte>, ghost rest: multiset<nat>)
    returns (ok: bool, q: nat, ghost hs: seq<Header>)
    requires heap.Valid() && Untouched(raw, text, p) && ReasonAt(raw, out.reason, phrase, p)
    requires out.headerBlock == 0 && heap.live == rest + Held(out.rawBlock, 0, 0)
    modifies heap, out`headers, out`headerBlock, raw
    ensures heap.Valid() && heap.live == rest + Held(out.rawBlock, out.headerBlock, 0)
    ensures ok ==> p <= q <= |text| && ReadHeaders(text[p..]) == Some((hs, text[q..]))
    ensures ok ==> Untouched(raw, text, q) && EntriesAt(raw, out.headers, hs, q)
    ensures ok ==> ReasonAt(raw, out.reason, phrase, raw.Length) && heap.refusals == old(heap.refusals)
    ensures !ok ==> ReadHeaders(text[p..]).None? || heap.refusals > old(heap.refusals)
  {
    hide Held, Owned, ReadHeaders, EntryAt, EntriesAt;
    var es, block;
    ok, es, block, q, hs := TakeHeaders(heap, raw, p, text, heap.live);
    out.headers, out.headerBlock := es, block;
    HeldStep(rest, out.rawBlock, block, 0);
  }

  /** http_parse_response, once it has its copy. */
  method ParseInto(heap: Allocator, raw: array<byte>, len: nat, out: HttpResponse,
                   ghost text: seq<byte>, ghost rest: multiset<nat>)
    returns (ok: bool)
    requires heap.Valid() && len == |text| >= 12 && Untouched(raw, text, 0)
    requires out.raw == raw && out.owned == null && out.headerBlock == out.ownedBlock == 0
    requires heap.live == rest + out.Blocks()
    modifies heap, out, raw
    ensures heap.Valid() && heap.live == rest + out.Blocks()
    ensures ok ==> out.raw == raw && (out.owned == null || fresh(out.owned)) && heap.refusals == old(heap.refusals)
    ensures ok ==> ParseReply(text).Some? && out.Represents(ParseReply(text).value)
    ensures !ok ==> ParseReply(text).None? || heap.refusals > old(heap.refusals)
  {
    hide Held, FindEol, ReadStatus, ReadHeaders, BodyOf, Untouched, ReasonAt, BodyIn, EntriesAt,
         HttpResponse.Represents;
    var status, reason, p, q;
    ghost var phrase, hs;
    ok, status, reason, p, phrase := TakeStatusLine(raw, text);
    if ok {
      out.status, out.reason := status, reason;
      ok, q, hs := ParseHead(heap, raw, out, p, text, phrase, rest);
      if ok {
        ok := ParseBody(heap, raw, len, out, q, text, phrase, hs, rest);
        ParseOf(text, p, q, status, phrase, hs);
      }
    }
  }

  /** http_parse_response. It fails exactly on what ParseReply refuses, or for want of memory, and then owns nothing. */
  method ParseResponse(heap: Allocator, text: seq<byte>, out: HttpResponse) returns (code: int)
    requires heap.Valid()
    modifies heap, out
    ensures heap.Valid() && (code == 0 || code == -1)
    ensures code == 0 ==> ParseReply(text).Some? && out.Represents(ParseReply(text).value)
    ensures code == 0 ==> heap.live == old(heap.live) + out.Blocks() && heap.refusals == old(heap.refusals)
    ensures code == -1 ==> heap.live == old(heap.live)
    ensures code == -1 ==> ParseReply(text).None? || heap.refusals > old(heap.refusals)
  {
    hide Held, Owned, FindEol, ReadStatus, ReadHeaders, BodyOf;
    ghost var rest := heap.live;
    if |text| < 12 {
      return -1;
    }
    out.Clear();
    var raw;
    out.rawBlock, raw := CopyText(heap, text);
    HeldStep(rest, out.rawBlock, 0, 0);
    if out.rawBlock == 0 {
      NothingHeld();
      return -1;
    }
    out.raw := raw;
    var ok := ParseInto(heap, raw, |text|, out, text, rest);
    code := 0;
    if !ok {
      out.Free(heap, rest);
      code := -1;
    }
  }

  // ---- The request -------------------------------------------------------

  /** PUT: bytes appended at `p`. */
  method Put(buf: array<byte>, p: nat, s: seq<byte>) returns (q: nat)
    requires p + |s| <= buf.Length
    modifies buf
    ensures q == p + |s| && buf[..q] == old(buf[..p]) + s
  {
    for i := 0 to |s|
      invariant buf[..p + i] == old(buf[..p]) + s[..i]
    {
      buf[p + i] := s[i];
      assert s[..i + 1] == s[..i] + [s[i]];
    }
    assert s[..|s|] == s;
    q := p + |s|;
  }

  lemma ZeroIsWritten()
    ensures Numeral(0, 10, false) == Backwards([48])
  {
  }

  /** The digits of put_uint, last one first. */
  method FindDigits(t: array<byte>, value: nat) returns (n: nat)
    requires value < 0x1_0000_0000 && t.Length == 12
    modifies t
    ensures n <= t.Length && Numeral(value, 10, false) == Backwards(t[..n])
  {
    hide Numeral, Backwards;
    ghost var goal := Numeral(value, 10, false);
    var v: nat := value;
    n := 0;
    WordLength(value, 10, false);
    if v == 0 {
      t[0], n := 48, 1;
      ZeroIsWritten();
      assert t[..1] == [48];
    } else {
      assert t[..0] == [];
      assert goal == goal + Backwards([]);
    }
    assert [] + Backwards(t[..n]) == Backwards(t[..n]);
    while v > 0
      invariant n + |Remaining(v, 10, false)| == |goal|
      invariant goal == Remaining(v, 10, false) + Backwards(t[..n])
    {
      ghost var found := t[..n];
      DigitMoves(v, 10, false, found);
      t[n] := 48 + v % 10;
      assert t[..n + 1] == found + [DigitByte(v % 10, false)];
      n, v := n + 1, v / 10;
    }
  }

  /** put_uint: the digits are found last one first in a small buffer, then copied in order. */
  method PutUint(buf: array<byte>, p: nat, value: nat) returns (q: nat)
    requires value < 0x1_0000_0000 && p + |Numeral(value, 10, false)| <= buf.Length
    modifies buf
    ensures q == p + |Numeral(value, 10, false)| && buf[..q] == old(buf[..p]) + Numeral(value, 10, false)
  {
    hide Numeral;
    var t := new byte[12];
    var n := FindDigits(t, value);
    ghost var goal := Backwards(t[..n]);
    for i := 0 to n
      invariant buf[..p + i] == old(buf[..p]) + goal[..i]
      modifies buf
    {
      buf[p + i] := t[n - 1 - i];
      assert goal[..i + 1] == goal[..i] + [t[n - 1 - i]];
    }
    assert goal[..n] == goal;
    q := p + n;
  }

  function FieldSize(h: Header): (n: nat) {
    |h.name| + 2 + |h.value| + 2
  }

  function FieldSizes(hs: seq<Header>): (n: nat)
    decreases |hs|
  {
    if hs == [] then 0 else FieldSizes(hs[..|hs| - 1]) + FieldSize(hs[|hs| - 1])
  }

  function Lines(hs: seq<Header>): (s: seq<byte>) {
    FieldLines(Spaced(hs))
  }

  lemma NoLines()
    ensures Lines([]) == []
  {
  }

  lemma {:induction false} LinesConcat(hs: seq<Header>, gs: seq<Header>)
    ensures Lines(hs + gs) == Lines(hs) + Lines(gs)
    decreases |hs|
  {
    hide FieldLine;
    if hs == [] {
      assert hs + gs == gs;
    } else {
      LinesConcat(hs[1..], gs);
      LinesFirst(hs);
      LinesFirst(hs + gs);
      assert (hs + gs)[1..] == hs[1..] + gs;
    }
  }

  lemma LinesFirst(hs: seq<Header>)
    requires hs != []
    ensures Lines(hs) == FieldLine(Field(hs[0].name, [SP], hs[0].value)) + Lines(hs[1..])
  {
    assert Spaced(hs)[1..] == Spaced(hs[1..]);
  }

  lemma LinesOne(h: Header)
    ensures Lines([h]) == FieldLine(Field(h.name, [SP], h.value))
  {
    LinesFirst([h]);
    assert FieldLine(Field(h.name, [SP], h.value)) + [] == FieldLine(Field(h.name, [SP], h.value));
  }

  /** One of the caller's headers: name, colon, space, value, line end. */
  method PutField(buf: array<byte>, p: nat, h: Header) returns (q: nat)
    requires p + FieldSize(h) <= buf.Length
    modifies buf
    ensures q == p + FieldSize(h) && buf[..q] == old(buf[..p]) + Lines([h])
  {
    hide Lines;
    q := Put(buf, p, h.name);
    q := Put(buf, q, Ascii(": "));
    q := Put(buf, q, h.value);
    q := Put(buf, q, Eol());
    LinesOne(h);
    assert Ascii(": ") == [COLON] + [SP];
    assert old(buf[..p]) + h.name + Ascii(": ") + h.value + Eol()
      == old(buf[..p]) + (h.name + [COLON] + [SP] + h.value + Eol());
  }

  method PutFields(buf: array<byte>, p: nat, hs: seq<Header>) returns (q: nat)
    requires p + FieldSizes(hs) <= buf.Length
    modifies buf
    ensures q == p + FieldSizes(hs) && buf[..q] == old(buf[..p]) + Lines(hs)
  {
    hide Lines, FieldSize;
    NoLines();
    q := p;
    for i := 0 to |hs|
      invariant q == p + FieldSizes(hs[..i]) <= p + FieldSizes(hs)
      invariant buf[..q] == old(buf[..p]) + Lines(hs[..i])
    {
      SizesOfPrefix(hs, i + 1);
      assert hs[..i + 1][..i] == hs[..i] && hs[..i + 1] == hs[..i] + [hs[i]];
      q := PutField(buf, q, hs[i]);
      LinesConcat(hs[..i], [hs[i]]);
    }
    assert hs[..|hs|] == hs;
  }

  lemma {:induction false} SizesOfPrefix(hs: seq<Header>, i: nat)
    requires i <= |hs|
    ensures FieldSizes(hs[..i]) <= FieldSizes(hs)
    decreases |hs|
  {
    if i < |hs| {
      SizesOfPrefix(hs[..|hs| - 1], i);
      assert hs[..|hs| - 1][..i] == hs[..i];
    } else {
      assert hs[..i] == hs;
    }
  }

  /** The request line. */
  method PutRequestLine(buf: array<byte>, verb: seq<byte>, path: seq<byte>) returns (q: nat)
    requires |verb| + 1 + |path| + 16 <= buf.Length
    modifies buf
    ensures q == |verb| + |path| + 12
    ensures buf[..q] == verb + [SP] + path + [SP] + Ascii("HTTP/1.1") + Eol()
  {
    q := Put(buf, 0, verb);
    q := Put(buf, q, [SP]);
    q := Put(buf, q, path);
    q := Put(buf, q, [SP]);
    q := Put(buf, q, Ascii("HTTP/1.1\r\n"));
    assert Ascii("HTTP/1.1\r\n") == Ascii("HTTP/1.1") + Eol();
    assert old(buf[..0]) + verb == verb;
    assert verb + [SP] + path + [SP] + (Ascii("HTTP/1.1") + Eol()) ==
           verb + [SP] + path + [SP] + Ascii("HTTP/1.1") + Eol();
  }

  method PutHost(buf: array<byte>, p: nat, host: seq<byte>) returns (q: nat)
    requires p + 6 + |host| + 2 <= buf.Length
    modifies buf
    ensures q == p + 6 + |host| + 2
    ensures buf[..q] == old(buf[..p]) + Lines([Header(Ascii("Host"), host)])
  {
    hide Lines;
    q := Put(buf, p, Ascii("Host: "));
    q := Put(buf, q, host);
    q := Put(buf, q, Eol());
    LinesOne(Header(Ascii("Host"), host));
    assert Ascii("Host: ") == Ascii("Host") + [COLON] + [SP];
    assert old(buf[..p]) + (Ascii("Host") + [COLON] + [SP]) + host + Eol()
      == old(buf[..p]) + (Ascii("Host") + [COLON] + [SP] + host + Eol());
  }

  method PutLength(buf: array<byte>, p: nat, n: nat) returns (q: nat)
    requires n < 0x8000_0000 && p + 32 <= buf.Length
    modifies buf
    ensures q <= p + 28
    ensures buf[..q] == old(buf[..p]) + Lines([Header(Ascii("Content-Length"), Numeral(n, 10, false))])
  {
    hide Lines, Numeral;
    ghost var num := Numeral(n, 10, false);
    WordLength(n, 10, false);
    q := Put(buf, p, Ascii("Content-Length: "));
    q := PutUint(buf, q, n);
    q := Put(buf, q, Eol());
    LinesOne(Header(Ascii("Content-Length"), num));
    assert Ascii("Content-Length: ") == Ascii("Content-Length") + [COLON] + [SP];
    assert old(buf[..p]) + (Ascii("Content-Length") + [COLON] + [SP]) + num + Eol()
      == old(buf[..p]) + (Ascii("Content-Length") + [COLON] + [SP] + num + Eol());
  }

  lemma RequestLines(host: seq<byte>, hs: seq<Header>, body: seq<byte>)
    ensures Lines(RequestHeaders(host, hs, body)) ==
      Lines([Header(Ascii("Host"), host)]) + Lines(hs)
      + if body != [] then Lines([Header(Ascii("Content-Length"), Numeral(|body|, 10, false))]) else []
  {
    hide Lines, Numeral;
    var first, last := [Header(Ascii("Host"), host)], [Header(Ascii("Content-Length"), Numeral(|body|, 10, false))];
    LinesConcat(first, hs);
    LinesConcat(first + hs, last);
    assert first + hs + [] == first + hs;
  }

  /** The Host line, the caller's headers, and the length of a body that is there. */
  method PutHeaders(buf: array<byte>, p: nat, host: seq<byte>, hs: seq<Header>, body: seq<byte>) returns (q: nat)
    requires |body| < 0x8000_0000 && p + 6 + |host| + 2 + FieldSizes(hs) + 32 <= buf.Length
    modifies buf
    ensures q <= p + 6 + |host| + 2 + FieldSizes(hs) + 28
    ensures buf[..q] == old(buf[..p]) + Lines(RequestHeaders(host, hs, body))
  {
    hide Lines, FieldSizes, RequestHeaders, Numeral, Ascii;
    q := PutHost(buf, p, host);
    q := PutFields(buf, q, hs);
    RequestLines(host, hs, body);
    ghost var first := Lines([Header(Ascii("Host"), host)]);
    ghost var last := Lines([Header(Ascii("Content-Length"), Numeral(|body|, 10, false))]);
    if |body| > 0 {
      q := PutLength(buf, q, |body|);
      assert old(buf[..p]) + first + Lines(hs) + last == old(buf[..p]) + (first + Lines(hs) + last);
    } else {
      assert old(buf[..p]) + first + Lines(hs) == old(buf[..p]) + (first + Lines(hs) + []);
    }
  }

  /** Everything the request builder writes into its buffer; every write lands inside the size it asked for. */
  method PutRequest(buf: array<byte>, verb: seq<byte>, host: seq<byte>, path: seq<byte>, hs: seq<Header>,
                    body: seq<byte>)
    returns (q: nat)
    requires |body| < 0x8000_0000
    requires buf.Length ==
      |verb| + 1 + |path| + 16 + 6 + |host| + 2 + 32 + |body| + 4 + FieldSizes(hs)
    modifies buf
    ensures q <= buf.Length && buf[..q] == Request(verb, host, path, hs, body)
  {
    hide FieldSizes, RequestHeaders, Ascii, FieldLines;
    q := PutRequestLine(buf, verb, path);
    q := PutHeaders(buf, q, host, hs, body);
    q := Put(buf, q, Eol());
    q := Put(buf, q, body);
  }

  /** http_build_request; a NULL method, host or path fails, and so does a refused buffer. */
  method BuildRequest(heap: Allocator, verb: Option<seq<byte>>, host: Option<seq<byte>>, path: Option<seq<byte>>,
                      hs: seq<Header>, body: seq<byte>, bodyLen: int)
    returns (block: nat, buf: array?<byte>, n: nat)
    requires heap.Valid() && bodyLen <= |body| && bodyLen < 0x8000_0000
    modifies heap
    ensures heap.Valid() && heap.live == old(heap.live) + Owned(block)
    ensures block == 0 <==> verb.None? || host.None? || path.None? || heap.refusals > old(heap.refusals)
    ensures block != 0 ==> buf != null && n <= buf.Length
    ensures block != 0 ==>
      buf[..n] == Request(verb.value, host.value, path.value, hs, body[..if bodyLen < 0 then 0 else bodyLen])
  {
    hide Request, FieldSizes;
    block, buf, n := 0, null, 0;
    if verb.None? || host.None? || path.None? {
      return;
    }
    var len := if bodyLen < 0 then 0 else bodyLen;
    var size := |verb.value| + 1 + |path.value| + 16 + 6 + |host.value| + 2 + 32 + len + 4 + FieldSizes(hs);
    block := heap.Malloc();
    if block != 0 {
      buf := new byte[size];
      n := PutRequest(buf, verb.value, host.value, path.value, hs, body[..len]);
    }
  }
}
