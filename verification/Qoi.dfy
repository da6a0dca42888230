/** The QOI image codec of img/qoi.c. */
module Qoi {
  import opened CTypes
  import opened Raster

  // ---- Chunks ------------------------------------------------------------

  datatype Chunk =
    | Index(slot: nat)
    | Diff(vr: int, vg: int, vb: int)
    | Luma(vg: int, vgr: int, vgb: int)
    | Run(n: nat)
    | Rgb(r: byte, g: byte, b: byte)
    | Rgba(r: byte, g: byte, b: byte, a: byte)

  const START := Pixel(255, 0, 0, 0)

  function Hash(p: Pixel): (h: nat)
    ensures h < 64
  {
    (p.r * 3 + p.g * 5 + p.b * 7 + p.a * 11) % 64
  }

  /** The operand ranges a chunk can carry; 63 and 64 pixel runs would collide with the RGB and RGBA tags. */
  predicate ValidChunk(c: Chunk) {
    match c
    case Index(slot) => slot < 64
    case Diff(vr, vg, vb) => -2 <= vr < 2 && -2 <= vg < 2 && -2 <= vb < 2
    case Luma(vg, vgr, vgb) => -32 <= vg < 32 && -8 <= vgr < 8 && -8 <= vgb < 8
    case Run(n) => 1 <= n <= 62
    case Rgb(_, _, _) => true
    case Rgba(_, _, _, _) => true
  }

  function ChunkBytes(c: Chunk): (s: seq<byte>)
    requires ValidChunk(c)
    ensures 1 <= |s| <= 5
  {
    match c
    case Index(slot) => [slot]
    case Diff(vr, vg, vb) => [0x40 + (vr + 2) * 16 + (vg + 2) * 4 + (vb + 2)]
    case Luma(vg, vgr, vgb) => [0x80 + (vg + 32), (vgr + 8) * 16 + (vgb + 8)]
    case Run(n) => [0xC0 + (n - 1)]
    case Rgb(r, g, b) => [0xFE, r, g, b]
    case Rgba(r, g, b, a) => [0xFF, r, g, b, a]
  }

  predicate ValidChunks(cs: seq<Chunk>) {
    forall i :: 0 <= i < |cs| ==> ValidChunk(cs[i])
  }

  function Bytes(cs: seq<Chunk>): (s: seq<byte>)
    requires ValidChunks(cs)
  {
    if cs == [] then [] else ChunkBytes(cs[0]) + Bytes(cs[1..])
  }

  lemma {:induction false} BytesConcat(a: seq<Chunk>, b: seq<Chunk>)
    requires ValidChunks(a) && ValidChunks(b)
    ensures Bytes(a + b) == Bytes(a) + Bytes(b)
  {
    if a == [] {
      assert a + b == b;
    } else {
      assert (a + b)[0] == a[0];
      assert (a + b)[1..] == a[1..] + b;
      BytesConcat(a[1..], b);
    }
  }

  // ---- The coder state and the encoder -----------------------------------

  /** What each side keeps: the colour table, the previous pixel and the pending run. */
  datatype Coder = Coder(table: seq<Pixel>, prev: Pixel, run: nat)

  type State = c: Coder | |c.table| == 64 witness INITIAL

  const INITIAL := Coder(Repeat(CLEAR, 64), START, 0)

  /** The chunk for a pixel that is neither a repeat nor in the table. */
  function Literal(prev: Pixel, px: Pixel): (c: Chunk)
    ensures ValidChunk(c) && !c.Index? && !c.Run?
  {
    if px.a == prev.a then
      var vr := Signed8(px.r - prev.r);
      var vg := Signed8(px.g - prev.g);
      var vb := Signed8(px.b - prev.b);
      var vgr := Signed8(vr - vg);
      var vgb := Signed8(vb - vg);
      if -3 < vr < 2 && -3 < vg < 2 && -3 < vb < 2 then Diff(vr, vg, vb)
      else if -9 < vgr < 8 && -33 < vg < 32 && -9 < vgb < 8 then Luma(vg, vgr, vgb)
      else Rgb(px.r, px.g, px.b)
    else
      Rgba(px.r, px.g, px.b, px.a)
  }

  function Flush(run: nat): (cs: seq<Chunk>)
    requires run <= 62
    ensures ValidChunks(cs)
  {
    if run > 0 then [Run(run)] else []
  }

  /** One pixel of the encoder's loop; `last` marks the image's final pixel. */
  function EncodePixel(e: State, px: Pixel, last: bool): (r: (State, seq<Chunk>))
    requires e.run < 62
    ensures r.0.run < 62 && (last ==> r.0.run == 0) && r.0.prev == px
    ensures ValidChunks(r.1)
  {
    if px == e.prev then
      if e.run + 1 == 62 || last then (e.(run := 0), [Run(e.run + 1)])
      else (e.(run := e.run + 1), [])
    else if e.table[Hash(px)] == px then
      (Coder(e.table, px, 0), Flush(e.run) + [Index(Hash(px))])
    else
      (Coder(e.table[Hash(px) := px], px, 0), Flush(e.run) + [Literal(e.prev, px)])
  }

  function EncodeFrom(e: State, img: seq<Pixel>, i: nat): (cs: seq<Chunk>)
    requires e.run < 62 && i <= |img|
    ensures ValidChunks(cs)
    decreases |img| - i
  {
    if i == |img| then []
    else
      var (e', cs) := EncodePixel(e, img[i], i == |img| - 1);
      cs + EncodeFrom(e', img, i + 1)
  }

  // ---- The decoder -------------------------------------------------------

  function ReadChunk(data: seq<byte>, pos: nat): (r: Option<(Chunk, nat)>)
    requires pos < |data|
    ensures r.Some? ==> pos < r.value.1 <= |data|
  {
    var op: int := data[pos];
    if op == 0xFE then
      if pos + 4 > |data| then None
      else Some((Rgb(data[pos + 1], data[pos + 2], data[pos + 3]), pos + 4))
    else if op == 0xFF then
      if pos + 5 > |data| then None
      else Some((Rgba(data[pos + 1], data[pos + 2], data[pos + 3], data[pos + 4]), pos + 5))
    else if op < 0x40 then Some((Index(op), pos + 1))
    else if op < 0x80 then Some((Diff(op / 16 % 4 - 2, op / 4 % 4 - 2, op % 4 - 2), pos + 1))
    else if op < 0xC0 then
      if pos + 1 >= |data| then None
      else
        var b2: int := data[pos + 1];
        Some((Luma(op % 64 - 32, b2 / 16 - 8, b2 % 16 - 8), pos + 2))
    else Some((Run(op % 64 + 1), pos + 1))
  }

  /** Byte addition, modulo 256. */
  function AddByte(p: byte, v: int): (q: byte) {
    (p + v) % 256
  }

  /** The pixel a chunk stands for, given the table and the previous pixel; sums wrap at a byte. */
  function ChunkPixel(d: State, c: Chunk): (p: Pixel)
    requires (c.Index? ==> c.slot < 64)
  {
    match c
    case Index(slot) => d.table[slot]
    case Diff(vr, vg, vb) =>
      Pixel(d.prev.a, AddByte(d.prev.r, vr), AddByte(d.prev.g, vg), AddByte(d.prev.b, vb))
    case Luma(vg, vgr, vgb) =>
      Pixel(d.prev.a, AddByte(d.prev.r, vg + vgr), AddByte(d.prev.g, vg), AddByte(d.prev.b, vg + vgb))
    case Run(_) => d.prev
    case Rgb(r, g, b) => Pixel(d.prev.a, r, g, b)
    case Rgba(r, g, b, a) => Pixel(a, r, g, b)
  }

  /** The decoder stores the current pixel after every chunk, RUN included. */
  function ApplyChunk(d: State, c: Chunk): (d': State)
    requires (c.Index? ==> c.slot < 64) && (c.Run? ==> c.n > 0)
  {
    var p := ChunkPixel(d, c);
    Coder(d.table[Hash(p) := p], p, if c.Run? then c.n - 1 else 0)
  }

  /** The `n` pixels the decoder produces from here on; a truncated chunk leaves the rest clear. */
  function DecodeFrom(d: State, data: seq<byte>, pos: nat, n: nat): (px: seq<Pixel>)
    requires pos <= |data|
    ensures |px| == n
    decreases n
  {
    if n == 0 then []
    else if d.run > 0 then [d.prev] + DecodeFrom(d.(run := d.run - 1), data, pos, n - 1)
    else if pos < |data| then
      match ReadChunk(data, pos)
      case None => Repeat(CLEAR, n)
      case Some((c, pos')) =>
        var d' := ApplyChunk(d, c);
        [d'.prev] + DecodeFrom(d', data, pos', n - 1)
    else [d.prev] + DecodeFrom(d, data, pos, n - 1)
  }

  // ---- Chunk codes are unambiguous ---------------------------------------

  lemma DiffBack(vr: int, vg: int, vb: int, op: int)
    requires -2 <= vr < 2 && -2 <= vg < 2 && -2 <= vb < 2
    requires op == 0x40 + (vr + 2) * 16 + (vg + 2) * 4 + (vb + 2)
    ensures 0x40 <= op < 0x80
    ensures op / 16 % 4 - 2 == vr && op / 4 % 4 - 2 == vg && op % 4 - 2 == vb
  {
    assert op / 16 == 4 + (vr + 2);
    assert op / 4 == 16 + (vr + 2) * 4 + (vg + 2);
  }

  lemma LumaBack(vg: int, vgr: int, vgb: int, op: int, b2: int)
    requires -32 <= vg < 32 && -8 <= vgr < 8 && -8 <= vgb < 8
    requires op == 0x80 + (vg + 32) && b2 == (vgr + 8) * 16 + (vgb + 8)
    ensures 0x80 <= op < 0xC0
    ensures op % 64 - 32 == vg && b2 / 16 - 8 == vgr && b2 % 16 - 8 == vgb
  {
  }

  /** Reading back a chunk's bytes gives the chunk, whatever follows. */
  lemma ReadBack(c: Chunk, data: seq<byte>, pos: nat)
    requires ValidChunk(c)
    requires pos + |ChunkBytes(c)| <= |data| && data[pos..pos + |ChunkBytes(c)|] == ChunkBytes(c)
    ensures ReadChunk(data, pos) == Some((c, pos + |ChunkBytes(c)|))
  {
    var s := ChunkBytes(c);
    var t := data[pos..pos + |s|];
    assert t[0] == data[pos];
    assert |s| > 1 ==> t[1] == data[pos + 1];
    assert |s| > 3 ==> t[2] == data[pos + 2] && t[3] == data[pos + 3];
    assert |s| > 4 ==> t[4] == data[pos + 4];
    if c.Diff? {
      DiffBack(c.vr, c.vg, c.vb, s[0]);
    } else if c.Luma? {
      LumaBack(c.vg, c.vgr, c.vgb, s[0], s[1]);
    } else if c.Run? {
      assert s[0] % 64 == c.n - 1;
    }
  }

  lemma ChannelBack(p: byte, q: byte, v: int)
    ensures AddByte(p, Signed8(q - p)) == q
    ensures AddByte(p, v + Signed8(Signed8(q - p) - v)) == q
  {
    var u := Signed8(q - p);
    assert u == q - p || u == q - p + 256 || u == q - p - 256;
    var t := Signed8(u - v);
    assert t == (u - v + 128) - 256 * ((u - v + 128) / 256) - 128;
    assert p + v + t == p + u - 256 * ((u - v + 128) / 256);
  }

  /** A literal chunk rebuilds its pixel from the same previous pixel. */
  lemma LiteralPixel(d: State, px: Pixel)
    ensures ChunkPixel(d, Literal(d.prev, px)) == px
  {
    hide Signed8, AddByte;
    var vg := Signed8(px.g - d.prev.g);
    ChannelBack(d.prev.r, px.r, vg);
    ChannelBack(d.prev.g, px.g, vg);
    ChannelBack(d.prev.b, px.b, vg);
  }

  // ---- The two sides stay in step ----------------------------------------

  /**
   * The encoder's and the decoder's tables agree in every slot, except that after a leading run of
   * START the decoder's slot 53 may hold START while the encoder's is still zero. CLEAR hashes to
   * slot 0, so the encoder never matches that slot.
   */
  predicate InStep(e: State, d: State) {
    && e.prev == d.prev
    && (forall j :: 0 <= j < 64 && j != 53 ==> e.table[j] == d.table[j])
    && (e.table[53] == d.table[53] || (e.table[53] == CLEAR && d.table[53] == START))
    && (e.table[Hash(e.prev)] == e.prev || (e.prev == START && e.table[53] == CLEAR))
  }

  /** Repeating a pixel from the run counter. */
  lemma {:induction false} DecodeRun(d: State, data: seq<byte>, pos: nat, n: nat)
    requires pos <= |data| && n >= d.run
    ensures DecodeFrom(d, data, pos, n) == Repeat(d.prev, d.run) + DecodeFrom(d.(run := 0), data, pos, n - d.run)
    decreases d.run
  {
    if d.run > 0 {
      DecodeRun(d.(run := d.run - 1), data, pos, n - 1);
      assert [d.prev] + Repeat(d.prev, d.run - 1) == Repeat(d.prev, d.run);
    } else {
      assert d.(run := 0) == d;
    }
  }

  ghost predicate Follows(data: seq<byte>, pos: nat, cs: seq<Chunk>)
    requires ValidChunks(cs)
  {
    pos + |Bytes(cs)| <= |data| && data[pos..pos + |Bytes(cs)|] == Bytes(cs)
  }

  lemma SplitSlice(data: seq<byte>, pos: nat, s: seq<byte>, t: seq<byte>)
    requires pos + |s| + |t| <= |data| && data[pos..pos + |s| + |t|] == s + t
    ensures data[pos..pos + |s|] == s && data[pos + |s|..pos + |s| + |t|] == t
  {
    assert data[pos..pos + |s|] == data[pos..pos + |s| + |t|][..|s|];
    assert data[pos + |s|..pos + |s| + |t|] == data[pos..pos + |s| + |t|][|s|..];
  }

  lemma FollowsHead(data: seq<byte>, pos: nat, c: Chunk, cs: seq<Chunk>)
    requires ValidChunk(c) && ValidChunks(cs)
    requires Follows(data, pos, [c] + cs)
    ensures ReadChunk(data, pos) == Some((c, pos + |ChunkBytes(c)|))
    ensures Follows(data, pos + |ChunkBytes(c)|, cs)
  {
    hide ReadChunk;
    var s, t := ChunkBytes(c), Bytes(cs);
    assert ([c] + cs)[1..] == cs;
    assert Bytes([c] + cs) == s + t;
    SplitSlice(data, pos, s, t);
    ReadBack(c, data, pos);
  }

  lemma HashFacts()
    ensures Hash(CLEAR) == 0 && Hash(START) == 53 && CLEAR != START
  {
  }

  lemma SamePrev(e: State, d: State)
    requires InStep(e, d)
    ensures e.prev == d.prev
  {
  }

  /** The pending run plays no part in the agreement. */
  lemma RunIsFree(e: State, d: State, r: nat)
    requires InStep(e, d)
    ensures InStep(e.(run := r), d)
  {
  }

  /** The decoder's store after a RUN is harmless. */
  lemma RunKeepsInStep(e: State, d: State, n: nat)
    requires InStep(e, d) && n > 0
    ensures ApplyChunk(d, Run(n)).prev == d.prev
    ensures InStep(e, ApplyChunk(d, Run(n)).(run := 0))
  {
    HashFacts();
    var j := Hash(d.prev);
    var t := ApplyChunk(d, Run(n)).table;
    assert t == d.table[j := d.prev];
  }

  /** Storing the same pixel on both sides keeps them in step. */
  lemma StoreKeepsInStep(e: State, d: State, px: Pixel)
    requires InStep(e, d)
    ensures InStep(Coder(e.table[Hash(px) := px], px, 0), Coder(d.table[Hash(px) := px], px, 0))
  {
    HashFacts();
  }

  /** A table match on the encoder's side is one on the decoder's. */
  lemma MatchAgrees(e: State, d: State, px: Pixel)
    requires InStep(e, d) && e.table[Hash(px)] == px
    ensures d.table[Hash(px)] == px
  {
    HashFacts();
  }

  /** A RUN chunk yields its pixels and leaves the two sides in step. */
  lemma SyncRun(e: State, d: State, n: nat, cs: seq<Chunk>, data: seq<byte>, pos: nat, m: nat) returns (d': State,
                pos': nat)
    requires InStep(e, d) && d.run == 0 && 1 <= n <= 62 && ValidChunks(cs) && Follows(data, pos, [Run(n)] + cs)
    ensures InStep(e, d') && d'.run == 0 && pos' <= |data| && Follows(data, pos', cs)
    ensures DecodeFrom(d, data, pos, n + m) == Repeat(e.prev, n) + DecodeFrom(d', data, pos', m)
  {
    hide Hash, Follows, InStep, ReadChunk, ChunkPixel, Bytes;
    FollowsHead(data, pos, Run(n), cs);
    pos' := pos + 1;
    var d1 := ApplyChunk(d, Run(n));
    d' := d1.(run := 0);
    RunKeepsInStep(e, d, n);
    DecodeRun(d1, data, pos', n + m - 1);
    assert [d.prev] + Repeat(d.prev, n - 1) == Repeat(d.prev, n);
    assert DecodeFrom(d, data, pos, n + m) == [d.prev] + (Repeat(d.prev, n - 1) + DecodeFrom(d', data, pos', m));
  }

  /** Flushing the pending run, if there is one. */
  lemma SyncFlush(e: State, d: State, cs: seq<Chunk>, data: seq<byte>, pos: nat, m: nat) returns (d': State, pos': nat)
    requires InStep(e, d) && d.run == 0 && e.run < 62 && ValidChunks(cs) && pos <= |data|
    requires Follows(data, pos, Flush(e.run) + cs)
    ensures InStep(e, d') && d'.run == 0 && pos' <= |data| && Follows(data, pos', cs)
    ensures DecodeFrom(d, data, pos, e.run + m) == Repeat(e.prev, e.run) + DecodeFrom(d', data, pos', m)
  {
    hide InStep, Bytes, DecodeFrom, Follows;
    if e.run > 0 {
      d', pos' := SyncRun(e, d, e.run, cs, data, pos, m);
    } else {
      assert Flush(e.run) + cs == cs;
      d', pos' := d, pos;
    }
  }

  /** A non-run chunk yields its pixel and leaves the two sides in step. */
  lemma SyncPixel(e: State, d: State, px: Pixel, cs: seq<Chunk>, data: seq<byte>, pos: nat, m: nat)
    returns (e': State, d': State, pos': nat)
    requires InStep(e, d) && d.run == 0 && px != e.prev && ValidChunks(cs)
    requires Follows(data, pos, [if e.table[Hash(px)] == px then Index(Hash(px)) else Literal(e.prev, px)] + cs)
    ensures e' == Coder(e.table[Hash(px) := px], px, 0)
    ensures InStep(e', d') && d'.run == 0 && pos' <= |data| && Follows(data, pos', cs)
    ensures DecodeFrom(d, data, pos, 1 + m) == [px] + DecodeFrom(d', data, pos', m)
  {
    hide Hash, InStep, Follows, ReadChunk, Bytes, Literal;
    var c := if e.table[Hash(px)] == px then Index(Hash(px)) else Literal(e.prev, px);
    SamePrev(e, d);
    e' := Coder(e.table[Hash(px) := px], px, 0);
    FollowsHead(data, pos, c, cs);
    pos' := pos + |ChunkBytes(c)|;
    if e.table[Hash(px)] == px {
      MatchAgrees(e, d, px);
    } else {
      LiteralPixel(d, px);
    }
    assert ChunkPixel(d, c) == px;
    d' := ApplyChunk(d, c);
    StoreKeepsInStep(e, d, px);
  }

  /** One pixel of the encoder: what it writes makes the decoder produce `done`. */
  lemma SyncStep(e: State, d: State, px: Pixel, last: bool, rest: seq<Chunk>, data: seq<byte>, pos: nat, m: nat)
    returns (e': State, d': State, pos': nat, done: seq<Pixel>)
    requires InStep(e, d) && d.run == 0 && e.run < 62 && pos <= |data| && ValidChunks(rest)
    requires Follows(data, pos, EncodePixel(e, px, last).1 + rest)
    ensures e' == EncodePixel(e, px, last).0
    ensures InStep(e', d') && d'.run == 0 && pos' <= |data| && Follows(data, pos', rest)
    ensures done + Repeat(px, e'.run) == Repeat(e.prev, e.run) + [px]
    ensures DecodeFrom(d, data, pos, e.run + 1 + m) == done + DecodeFrom(d', data, pos', e'.run + m)
  {
    hide Hash, Follows, Literal, Bytes, DecodeFrom, InStep;
    e' := EncodePixel(e, px, last).0;
    if px == e.prev {
      if e.run + 1 == 62 || last {
        d', pos' := SyncRun(e, d, e.run + 1, rest, data, pos, m);
        RunIsFree(e, d', 0);
        done := Repeat(px, e.run + 1);
      } else {
        assert [] + rest == rest;
        RunIsFree(e, d, e.run + 1);
        d', pos', done := d, pos, [];
      }
    } else {
      var c := if e.table[Hash(px)] == px then Index(Hash(px)) else Literal(e.prev, px);
      assert EncodePixel(e, px, last).1 + rest == Flush(e.run) + ([c] + rest);
      var d1, pos1 := SyncFlush(e, d, [c] + rest, data, pos, 1 + m);
      var e2;
      e2, d', pos' := SyncPixel(e, d1, px, rest, data, pos1, m);
      assert e.table[Hash(px)] == px ==> e.table[Hash(px) := px] == e.table;
      done := Repeat(e.prev, e.run) + [px];
    }
  }

  /**
   * From any point of the encoder's loop, with `e.run` pixels counted but not yet written, the
   * decoder turns the bytes still to come into exactly those pixels and the rest of the image.
   */
  lemma {:induction false} Sync(e: State, d: State, img: seq<Pixel>, i: nat, data: seq<byte>, pos: nat)
    requires InStep(e, d)
    requires d.run == 0 && e.run < 62 && i <= |img| && pos <= |data|
    requires i == |img| ==> e.run == 0
    requires Follows(data, pos, EncodeFrom(e, img, i))
    ensures DecodeFrom(d, data, pos, e.run + (|img| - i)) == Repeat(e.prev, e.run) + img[i..]
    decreases |img| - i
  {
    hide Follows, InStep, EncodePixel;
    if i < |img| {
      var last := i == |img| - 1;
      var rest := EncodeFrom(EncodePixel(e, img[i], last).0, img, i + 1);
      var e', d', pos', done := SyncStep(e, d, img[i], last, rest, data, pos, |img| - i - 1);
      Sync(e', d', img, i + 1, data, pos');
      assert img[i..] == [img[i]] + img[i + 1..];
      assert e.run + (|img| - i) == e.run + 1 + (|img| - i - 1);
      assert done + (Repeat(img[i], e'.run) + img[i + 1..]) == done + Repeat(img[i], e'.run) + img[i + 1..];
    } else {
      assert e.run + (|img| - i) == 0 && img[i..] == [] && Repeat(e.prev, 0) == [];
      assert DecodeFrom(d, data, pos, 0) == [];
    }
  }

  // ---- The file format ---------------------------------------------------

  const MAGIC: seq<byte> := [0x71, 0x6F, 0x69, 0x66] // "qoif"
  const HEADER_SIZE := 14
  const END_MARK: seq<byte> := [0, 0, 0, 0, 0, 0, 0, 1]
  const MAX_SIDE := 20000

  /** A 32-bit number, most significant byte first. */
  function Big32(v: nat): (s: seq<byte>)
    requires v < 0x1_0000_0000
    ensures |s| == 4
  {
    [v / 0x100_0000, v / 0x1_0000 % 256, v / 0x100 % 256, v % 256]
  }

  function Read32(data: seq<byte>, pos: nat): (v: nat)
    requires pos + 4 <= |data|
  {
    data[pos] as int * 0x100_0000 + data[pos + 1] as int * 0x1_0000 + data[pos + 2] as int * 0x100 + data[pos + 3]
  }

  function Header(w: nat, h: nat): (s: seq<byte>)
    requires w < 0x1_0000_0000 && h < 0x1_0000_0000
    ensures |s| == HEADER_SIZE
  {
    MAGIC + Big32(w) + Big32(h) + [4, 0]
  }

  /** The whole file the encoder writes. */
  function File(w: nat, h: nat, img: seq<Pixel>): (s: seq<byte>)
    requires w < 0x1_0000_0000 && h < 0x1_0000_0000
  {
    Header(w, h) + Bytes(EncodeFrom(INITIAL, img, 0)) + END_MARK
  }

  datatype Picture = Picture(w: nat, h: nat, img: seq<Pixel>)

  /** What the decoder makes of a file when memory suffices. */
  function Decoded(data: seq<byte>): (r: Option<Picture>)
  {
    if |data| < HEADER_SIZE + 8 || data[..4] != MAGIC then None
    else
      var w, h := Read32(data, 4), Read32(data, 8);
      MulMono(0, w, h);
      if w == 0 || h == 0 || w > MAX_SIDE || h > MAX_SIDE || w * h > MAX_PIXELS then None
      else Some(Picture(w, h, DecodeFrom(INITIAL, data, HEADER_SIZE, w * h)))
  }

  lemma ReadHeader(data: seq<byte>, w: nat, h: nat)
    requires w < 0x1_0000_0000 && h < 0x1_0000_0000
    requires |data| >= HEADER_SIZE && data[..HEADER_SIZE] == Header(w, h)
    ensures data[..4] == MAGIC && Read32(data, 4) == w && Read32(data, 8) == h
  {
    var d := data[..HEADER_SIZE];
    assert forall k :: 0 <= k < HEADER_SIZE ==> data[k] == d[k];
    assert data[..4] == d[..4] == MAGIC;
    assert d[4..8] == Big32(w) && d[8..12] == Big32(h);
    assert forall k :: 0 <= k < 4 ==> d[4 + k] == d[4..8][k] && d[8 + k] == d[8..12][k];
    Big32Back(w);
    Big32Back(h);
    assert Read32(data, 4) == Read32(d[4..8], 0) && Read32(data, 8) == Read32(d[8..12], 0);
  }

  lemma Big32Back(v: nat)
    requires v < 0x1_0000_0000
    ensures Read32(Big32(v), 0) == v
  {
    var a := v / 0x100;
    var b := a / 0x100;
    assert v / 0x1_0000 == b && v / 0x100_0000 == b / 0x100;
    assert v == a * 0x100 + v % 0x100 && a == b * 0x100 + a % 0x100 && b == b / 0x100 * 0x100 + b % 0x100;
  }

  /** Decoding an encoded image gives the image back, pixel for pixel. */
  lemma RoundTrip(w: nat, h: nat, img: seq<Pixel>)
    requires 0 < w <= MAX_SIDE && 0 < h <= MAX_SIDE && w * h <= MAX_PIXELS && |img| == w * h
    ensures Decoded(File(w, h, img)) == Some(Picture(w, h, img))
  {
    hide Header, Bytes, EncodeFrom, DecodeFrom, Read32;
    var data := File(w, h, img);
    var cs := EncodeFrom(INITIAL, img, 0);
    assert data[..HEADER_SIZE] == Header(w, h);
    ReadHeader(data, w, h);
    assert Follows(data, HEADER_SIZE, cs);
    assert |img| > 0 by {
      assert w * h > 0;
    }
    HashFacts();
    assert InStep(INITIAL, INITIAL);
    Sync(INITIAL, INITIAL, img, 0, data, HEADER_SIZE);
    assert Repeat(START, 0) + img[0..] == img;
  }

  // ---- Size and shape of the output --------------------------------------

  /** A pending run stands for a pixel that has not been paid for yet. */
  function Owed(run: nat): (n: nat) {
    if run > 0 then 1 else 0
  }

  /** Five bytes a pixel always suffice. */
  lemma {:induction false} SizeBound(e: State, img: seq<Pixel>, i: nat)
    requires e.run < 62 && i <= |img|
    requires i == |img| ==> e.run == 0
    ensures |Bytes(EncodeFrom(e, img, i))| <= 5 * (|img| - i) + Owed(e.run)
    decreases |img| - i
  {
    hide EncodePixel, Bytes;
    if i == |img| {
      NoBytes();
    } else {
      var last := i == |img| - 1;
      var (e', cs) := EncodePixel(e, img[i], last);
      SizeBound(e', img, i + 1);
      BytesConcat(cs, EncodeFrom(e', img, i + 1));
      PixelSize(e, img[i], last);
    }
  }

  lemma NoBytes()
    ensures Bytes([]) == []
  {
  }

  lemma PixelSize(e: State, px: Pixel, last: bool)
    requires e.run < 62
    ensures |Bytes(EncodePixel(e, px, last).1)| + Owed(EncodePixel(e, px, last).0.run) <= 5 + Owed(e.run)
  {
    var cs := EncodePixel(e, px, last).1;
    if px != e.prev && e.run > 0 {
      assert cs == [cs[0]] + [cs[1]] && cs[0] == Run(e.run);
      BytesOne(cs[0]);
      BytesOne(cs[1]);
      BytesConcat([cs[0]], [cs[1]]);
    } else if cs != [] {
      assert cs == [cs[0]];
      BytesOne(cs[0]);
    }
  }

  lemma BytesOne(c: Chunk)
    requires ValidChunk(c)
    ensures Bytes([c]) == ChunkBytes(c)
  {
    assert Bytes([c]) == ChunkBytes(c) + Bytes([]);
  }

  /** The file never outgrows the buffer the encoder allocates. */
  lemma FileSize(w: nat, h: nat, img: seq<Pixel>)
    requires w < 0x1_0000_0000 && h < 0x1_0000_0000 && |img| == w * h && |img| > 0
    ensures |File(w, h, img)| <= 5 * (w * h) + 22
  {
    SizeBound(INITIAL, img, 0);
  }

  /** No two adjacent INDEX chunks name the same slot: the second pixel would have been a run. */
  ghost predicate NoRepeatedIndex(cs: seq<Chunk>) {
    forall i :: 0 <= i < |cs| - 1 && cs[i].Index? ==> cs[i + 1] != cs[i]
  }

  /** What one pixel's chunks look like. */
  lemma PixelShape(e: State, px: Pixel, last: bool)
    requires e.run < 62
    ensures
      var (e', cs) := EncodePixel(e, px, last);
      && (cs == [] ==> e'.run > 0)
      && (forall k :: 0 <= k < |cs| - 1 ==> !cs[k].Index?)
      && (cs != [] && cs[|cs| - 1].Index? ==> e'.table[cs[|cs| - 1].slot] == px)
      && (cs != [] && cs[0].Index? ==>
        e.run == 0 && e.table[cs[0].slot] == px && Hash(px) == cs[0].slot && px != e.prev)
  {
    hide Hash, Literal;
  }

  lemma EncodeStep(e: State, img: seq<Pixel>, i: nat)
    requires e.run < 62 && i < |img|
    ensures
      var (e', cs) := EncodePixel(e, img[i], i == |img| - 1);
      EncodeFrom(e, img, i) == cs + EncodeFrom(e', img, i + 1)
  {
  }

  lemma {:induction false} NeverRepeatsIndex(e: State, img: seq<Pixel>, i: nat)
    requires e.run < 62 && i <= |img|
    ensures NoRepeatedIndex(EncodeFrom(e, img, i))
    ensures
      var cs := EncodeFrom(e, img, i);
      cs != [] && cs[0].Index? ==> e.run == 0 && e.table[cs[0].slot] != e.prev
    decreases |img| - i
  {
    hide EncodePixel, Hash, EncodeFrom;
    if i == |img| {
      NothingToEncode(e, img);
    } else {
      var (e', cs) := EncodePixel(e, img[i], i == |img| - 1);
      NeverRepeatsIndex(e', img, i + 1);
      PixelShape(e, img[i], i == |img| - 1);
      EncodeStep(e, img, i);
      var rest := EncodeFrom(e', img, i + 1);
      var all := EncodeFrom(e, img, i);
      if cs == [] {
        assert all == rest;
      } else {
        forall k | 0 <= k < |all| - 1 && all[k].Index? ensures all[k + 1] != all[k] {
          if k >= |cs| {
            assert all[k] == rest[k - |cs|] && all[k + 1] == rest[k + 1 - |cs|];
          } else if k == |cs| - 1 {
            assert all[k] == cs[k] && all[k + 1] == rest[0];
          }
        }
      }
    }
  }

  lemma NothingToEncode(e: State, img: seq<Pixel>)
    requires e.run < 62
    ensures EncodeFrom(e, img, |img|) == []
  {
  }

  // ---- The codec as loops over a byte buffer ------------------------------

  /** Appends a chunk's bytes at `p`. */
  method PutChunk(out: array<byte>, p: nat, c: Chunk) returns (p': nat)
    requires ValidChunk(c) && p + |ChunkBytes(c)| <= out.Length
    modifies out
    ensures p' == p + |ChunkBytes(c)| && out[..p'] == old(out[..p]) + ChunkBytes(c)
  {
    var s := ChunkBytes(c);
    p' := p;
    for k := 0 to |s|
      invariant p' == p + k
      invariant out[..p'] == old(out[..p]) + s[..k]
    {
      out[p'] := s[k];
      p' := p' + 1;
    }
  }

  /** The encoder's work for one pixel. */
  method PutPixel(out: array<byte>, p: nat, index: array<Pixel>, prev: Pixel, run: nat, px: Pixel, last: bool)
    returns (p': nat, run': nat)
    requires index.Length == 64 && run < 62 && p + 5 + Owed(run) <= out.Length
    modifies out, index
    ensures
      var (e', cs) := EncodePixel(Coder(old(index[..]), prev, run), px, last);
      && run' == e'.run && index[..] == e'.table
      && p' == p + |Bytes(cs)| <= out.Length && out[..p'] == old(out[..p]) + Bytes(cs)
  {
    hide Hash, Literal, ChunkBytes;
    ghost var e := Coder(index[..], prev, run);
    ghost var cs := EncodePixel(e, px, last).1;
    p', run' := p, run;
    if px == prev {
      run' := run' + 1;
      if run' == 62 || last {
        BytesOne(Run(run'));
        p' := PutChunk(out, p', Run(run'));
        run' := 0;
      }
    } else {
      if run' > 0 {
        BytesOne(Run(run'));
        p' := PutChunk(out, p', Run(run'));
        run' := 0;
      }
      var hh := Hash(px);
      var c;
      if index[hh] == px {
        c := Index(hh);
      } else {
        index[hh] := px;
        c := Literal(prev, px);
      }
      BytesOne(c);
      BytesConcat(Flush(run), [c]);
      if run > 0 {
        RunIsOneByte(run);
      }
      p' := PutChunk(out, p', c);
    }
  }

  lemma RunIsOneByte(n: nat)
    requires 1 <= n <= 62
    ensures |ChunkBytes(Run(n))| == 1
  {
  }

  /** put32 */
  method Put32(out: array<byte>, p: nat, v: nat) returns (p': nat)
    requires v < 0x1_0000_0000 && p + 4 <= out.Length
    modifies out
    ensures p' == p + 4 && out[..p'] == old(out[..p]) + Big32(v)
  {
    out[p], out[p + 1] := v / 0x100_0000, v / 0x1_0000 % 256;
    out[p + 2], out[p + 3] := v / 0x100 % 256, v % 256;
    p' := p + 4;
  }

  method PutHeader(out: array<byte>, w: nat, h: nat) returns (p: nat)
    requires w < 0x1_0000_0000 && h < 0x1_0000_0000 && out.Length >= HEADER_SIZE
    modifies out
    ensures p == HEADER_SIZE && out[..p] == Header(w, h)
  {
    out[0], out[1], out[2], out[3] := 0x71, 0x6F, 0x69, 0x66;
    assert out[..4] == MAGIC;
    p := Put32(out, 4, w);
    p := Put32(out, p, h);
    out[p] := 4;
    out[p + 1] := 0;
    p := p + 2;
  }

  method PutEndMark(out: array<byte>, p: nat) returns (p': nat)
    requires p + 8 <= out.Length
    modifies out
    ensures p' == p + 8 && out[..p'] == old(out[..p]) + END_MARK
  {
    p' := p;
    for i := 0 to 7
      invariant p' == p + i && out[..p'] == old(out[..p]) + Repeat(0, i)
    {
      out[p'] := 0;
      p' := p' + 1;
    }
    out[p'] := 1;
    p' := p' + 1;
  }

  /** The encoder's two loops. */
  method PutPixels(s: Surface, out: array<byte>, start: nat, ghost img: seq<Pixel>) returns (p: nat)
    requires s.Valid() && img == s.Image() && s.pixels as object != out
    requires s.w < 0x8000_0000 && s.h < 0x8000_0000 && out.Length == 5 * |img| + 22
    requires start == HEADER_SIZE && out[..start] == Header(s.w, s.h)
    modifies out
    ensures p + 8 <= out.Length
    ensures out[..p] + END_MARK == File(s.w, s.h, img)
  {
    hide EncodePixel, EncodeFrom, Progress, File, Header, Hash, Bytes;
    var w, h := s.w, s.h;
    p := start;
    var index := new Pixel[64](_ => CLEAR);
    assert index[..] == INITIAL.table;
    var prev, run := START, 0;
    ghost var done := [];
    Begin(out[..], p, w, h, img);
    for y := 0 to h
      invariant Progress(out[..], p, index[..], prev, run, w, h, img, y * w, done)
    {
      for x := 0 to w
        invariant Progress(out[..], p, index[..], prev, run, w, h, img, y * w + x, done)
      {
        var px := s.At(x, y);
        CellOrder(w, h, x, y);
        ghost var i := y * w + x;
        assert px == img[i];
        Room(out[..], p, index[..], prev, run, w, h, img, i, done);
        ghost var before := out[..];
        ghost var e := Coder(index[..], prev, run);
        var last := y == h - 1 && x == w - 1;
        p, run := PutPixel(out, p, index, prev, run, px, last);
        prev := px;
        Advance(before, out[..], p, e, w, h, img, i, done);
        done := done + EncodePixel(e, px, last).1;
      }
      assert (y + 1) * w == y * w + w;
    }
    assert h * w == |img|;
    Finish(out[..], p, index[..], prev, run, w, h, img, done);
  }

  /** qoi_encode; `memory` says whether malloc finds the buffer. The size must fit the target's 32-bit long. */
  method Encode(s: Surface?, memory: bool) returns (out: array?<byte>, len: nat)
    requires s != null && s.w > 0 && s.h > 0 ==> s.Valid() && s.w * s.h * 5 + 22 < 0x8000_0000
    ensures out == null <==> s == null || s.w <= 0 || s.h <= 0 || !memory
    ensures out != null ==>
      && s.w < 0x8000_0000 && s.h < 0x8000_0000
      && fresh(out) && out.Length == s.w * s.h * 5 + 22
      && len <= out.Length && out[..len] == File(s.w, s.h, s.Image())
  {
    hide File, Header;
    len := 0;
    if s == null || s.w <= 0 || s.h <= 0 || !memory {
      return null, 0;
    }
    SidesFit(s.w, s.h);
    var n := s.w * s.h;
    out := new byte[n * 5 + 14 + 8];
    var p := PutHeader(out, s.w, s.h);
    p := PutPixels(s, out, p, s.Image());
    len := PutEndMark(out, p);
  }

  /** Where the encoder's loop stands after `i` pixels. */
  ghost predicate Progress(out: seq<byte>, p: nat, index: seq<Pixel>, prev: Pixel, run: nat,
                           w: nat, h: nat, img: seq<Pixel>, i: nat, done: seq<Chunk>)
  {
    && w < 0x8000_0000 && h < 0x8000_0000 && |index| == 64 && run < 62 && i <= |img| && ValidChunks(done)
    && |out| == 5 * |img| + 22 && (i == |img| && i > 0 ==> run == 0)
    && p == HEADER_SIZE + |Bytes(done)| && |Bytes(done)| + Owed(run) <= 5 * i
    && p <= |out| && out[..p] == Header(w, h) + Bytes(done)
    && done + EncodeFrom(Coder(index, prev, run), img, i) == EncodeFrom(INITIAL, img, 0)
  }

  lemma SidesFit(w: int, h: int)
    requires w > 0 && h > 0 && w * h * 5 + 22 < 0x8000_0000
    ensures w < 0x8000_0000 && h < 0x8000_0000
  {
    assert w <= w * h && h <= w * h;
  }

  lemma CellOrder(w: int, h: int, x: int, y: int)
    requires 0 <= x < w && 0 <= y < h
    ensures 0 <= y * w + x < w * h
    ensures (y * w + x) / w == y && (y * w + x) % w == x
    ensures y == h - 1 && x == w - 1 <==> y * w + x == w * h - 1
  {
    MulMono(0, y, w);
    MulMono(y, h - 1, w);
    assert (h - 1) * w == w * h - w;
    if y < h - 1 {
      MulMono(y, h - 2, w);
      assert (h - 2) * w == w * h - w - w;
    }
    DivUnique(y * w + x, w, y, x);
  }

  lemma Room(out: seq<byte>, p: nat, index: seq<Pixel>, prev: Pixel, run: nat,
             w: nat, h: nat, img: seq<Pixel>, i: nat, done: seq<Chunk>)
    requires Progress(out, p, index, prev, run, w, h, img, i, done) && i < |img|
    ensures run < 62 && |index| == 64 && p + 5 + Owed(run) <= |out|
    ensures ValidChunks(done) && p == HEADER_SIZE + |Bytes(done)|
  {
  }

  lemma Begin(out: seq<byte>, p: nat, w: nat, h: nat, img: seq<Pixel>)
    requires w < 0x8000_0000 && h < 0x8000_0000 && |out| == 5 * |img| + 22
    requires p == HEADER_SIZE && out[..p] == Header(w, h)
    ensures Progress(out, p, INITIAL.table, START, 0, w, h, img, 0, [])
  {
    assert [] + EncodeFrom(INITIAL, img, 0) == EncodeFrom(INITIAL, img, 0);
  }

  lemma Advance(before: seq<byte>, out: seq<byte>, p': nat, e: State, w: nat, h: nat, img: seq<Pixel>, i: nat,
                done: seq<Chunk>)
    requires i < |img| && |out| == |before| && e.run < 62
    requires ValidChunks(done)
    requires Progress(before, HEADER_SIZE + |Bytes(done)|, e.table, e.prev, e.run, w, h, img, i, done)
    requires
      var (e', cs) := EncodePixel(e, img[i], i == |img| - 1);
      && p' == HEADER_SIZE + |Bytes(done)| + |Bytes(cs)| <= |out|
      && out[..p'] == before[..HEADER_SIZE + |Bytes(done)|] + Bytes(cs)
    ensures
      var (e', cs) := EncodePixel(e, img[i], i == |img| - 1);
      Progress(out, p', e'.table, img[i], e'.run, w, h, img, i + 1, done + cs)
  {
    hide Hash, Literal, Header, EncodePixel, Bytes, EncodeFrom;
    EncodeStep(e, img, i);
    var last := i == |img| - 1;
    var (e', cs) := EncodePixel(e, img[i], last);
    PixelSize(e, img[i], last);
    BytesConcat(done, cs);
    assert e' == Coder(e'.table, img[i], e'.run);
    assert done + (cs + EncodeFrom(e', img, i + 1)) == done + cs + EncodeFrom(e', img, i + 1);
  }

  lemma Finish(out: seq<byte>, p: nat, index: seq<Pixel>, prev: Pixel, run: nat, w: nat, h: nat, img: seq<Pixel>,
               done: seq<Chunk>)
    requires Progress(out, p, index, prev, run, w, h, img, |img|, done)
    ensures p + 8 <= |out|
    ensures out[..p] + END_MARK == File(w, h, img)
  {
    assert done + [] == done;
  }

  /** Reads one chunk and stores its pixel, the body of the decoder's `pos < len` branch. */
  method TakeChunk(data: array<byte>, len: nat, pos: nat, index: array<Pixel>, prev: Pixel)
    returns (ok: bool, pos': nat, px: Pixel, run: nat)
    requires pos < len <= data.Length && index.Length == 64
    modifies index
    ensures ok <==> ReadChunk(data[..len], pos).Some?
    ensures ok ==>
      var (c, q) := ReadChunk(data[..len], pos).value;
      pos' == q && Coder(index[..], px, run) == ApplyChunk(Coder(old(index[..]), prev, 0), c)
    ensures !ok ==> unchanged(index)
  {
    hide Hash, AddByte;
    ghost var d := Coder(index[..], prev, 0);
    ghost var view := data[..len];
    var op: int := data[pos];
    pos', px, run := pos + 1, prev, 0;
    if op == 0xFE {
      if pos' + 3 > len {
        return false, pos', px, run;
      }
      px := Pixel(px.a, data[pos'], data[pos' + 1], data[pos' + 2]);
      pos' := pos' + 3;
    } else if op == 0xFF {
      if pos' + 4 > len {
        return false, pos', px, run;
      }
      px := Pixel(data[pos' + 3], data[pos'], data[pos' + 1], data[pos' + 2]);
      pos' := pos' + 4;
    } else if op < 0x40 {
      px := index[op];
    } else if op < 0x80 {
      px := Pixel(px.a, AddByte(px.r, op / 16 % 4 - 2), AddByte(px.g, op / 4 % 4 - 2), AddByte(px.b, op % 4 - 2));
    } else if op < 0xC0 {
      if pos' >= len {
        return false, pos', px, run;
      }
      var b2: int := data[pos'];
      pos' := pos' + 1;
      var vg := op % 64 - 32;
      px := Pixel(px.a, AddByte(px.r, vg + (b2 / 16 - 8)), AddByte(px.g, vg), AddByte(px.b, vg + (b2 % 16 - 8)));
    } else {
      run := op % 64;
    }
    index[Hash(px)] := px;
    ok := true;
    assert view[pos] == data[pos];
  }

  /** The decoder's next pixel, of `n` still to come; `ok` is false on a truncated chunk. */
  method NextPixel(data: array<byte>, len: nat, pos: nat, index: array<Pixel>, prev: Pixel, run: nat, ghost n: nat)
    returns (ok: bool, pos': nat, px: Pixel, run': nat)
    requires pos <= len <= data.Length && index.Length == 64 && n > 0
    modifies index
    ensures pos' <= len
    ensures
      DecodeFrom(Coder(old(index[..]), prev, run), data[..len], pos, n) ==
      if ok then [px] + DecodeFrom(Coder(index[..], px, run'), data[..len], pos', n - 1) else Repeat(CLEAR, n)
  {
    hide ReadChunk, ApplyChunk;
    ok, pos', px, run' := true, pos, prev, run;
    if run > 0 {
      run' := run - 1;
    } else if pos < len {
      ok, pos', px, run' := TakeChunk(data, len, pos, index, prev);
      if !ok {
        pos' := pos;
      }
    }
  }

  /** The decoder's loop, from the start of the chunks. */
  method TakePixels(data: array<byte>, len: nat, pixels: array<Pixel>)
    requires HEADER_SIZE <= len <= data.Length
    requires pixels[..] == Repeat(CLEAR, pixels.Length)
    modifies pixels
    ensures pixels[..] == DecodeFrom(INITIAL, data[..len], HEADER_SIZE, pixels.Length)
  {
    hide DecodeFrom;
    var n := pixels.Length;
    ghost var view := data[..len];
    ghost var whole := DecodeFrom(INITIAL, view, HEADER_SIZE, n);
    var index := new Pixel[64](_ => CLEAR);
    assert index[..] == INITIAL.table;
    var px, pos: nat, run: nat := START, HEADER_SIZE, 0;
    var i := 0;
    ghost var got: seq<Pixel> := [];
    while i < n
      invariant i <= n && pos <= len
      invariant data[..len] == view
      invariant |got| == i && forall k :: 0 <= k < n ==> pixels[k] == if k < i then got[k] else CLEAR
      invariant got + DecodeFrom(Coder(index[..], px, run), view, pos, n - i) == whole
    {
      var ok;
      ok, pos, px, run := NextPixel(data, len, pos, index, px, run, n - i);
      if !ok {
        break;
      }
      OnePixel(got, px, DecodeFrom(Coder(index[..], px, run), view, pos, n - i - 1));
      pixels[i] := px;
      got := got + [px];
      i := i + 1;
    }
    if i == n {
      NoPixels(Coder(index[..], px, run), view, pos);
    }
  }

  lemma OnePixel(got: seq<Pixel>, px: Pixel, rest: seq<Pixel>)
    ensures got + ([px] + rest) == got + [px] + rest
  {
  }

  lemma NoPixels(d: State, data: seq<byte>, pos: nat)
    requires pos <= |data|
    ensures DecodeFrom(d, data, pos, 0) == []
  {
  }

  /** qoi_decode; `memory` says whether calloc finds the pixels. */
  method Decode(data: array?<byte>, len: int, out: Surface, memory: bool) returns (rc: int)
    requires data != null ==> len <= data.Length
    modifies out
    ensures rc == if data != null && len >= 0 && Decoded(data[..len]).Some? && memory then 0 else -1
    ensures rc == 0 ==>
      && out.Valid() && fresh(out.pixels) && out.stride == out.w
      && Decoded(data[..len]) == Some(Picture(out.w, out.h, out.pixels[..]))
    ensures rc != 0 ==> unchanged(out)
  {
    hide DecodeFrom;
    if data == null || len < 14 + 8 {
      return -1;
    }
    ghost var view := data[..len];
    if data[0] != 0x71 || data[1] != 0x6F || data[2] != 0x69 || data[3] != 0x66 {
      assert view[..4][0] == data[0] && view[..4][1] == data[1] && view[..4][2] == data[2] && view[..4][3] == data[3];
      return -1;
    }
    assert view[..4] == MAGIC;
    var w := data[4] as int * 0x100_0000 + data[5] as int * 0x1_0000 + data[6] as int * 0x100 + data[7] as int;
    var h := data[8] as int * 0x100_0000 + data[9] as int * 0x1_0000 + data[10] as int * 0x100 + data[11] as int;
    if w == 0 || h == 0 || w > MAX_SIDE || h > MAX_SIDE {
      return -1;
    }
    rc := out.Alloc(w, h, memory);
    if rc != 0 {
      return -1;
    }
    TakePixels(data, len, out.pixels);
    assert data[..len] == view;
    assert (h - 1) * w + w == w * h;
  }
}
