/** The codec against the format's specification: it decodes every file of the format, and writes files of it. */
module QoiConformance {
  import opened CTypes
  import opened Raster
  import opened QoiSpec
  import Q = Qoi

  // ---- One chunk ---------------------------------------------------------

  /** The codec's chunk for a chunk of the specification. */
  function Coded(op: Op): (c: Q.Chunk)
    requires Legal(op)
  {
    match op
    case OpRgb(r, g, b) => Q.Rgb(r, g, b)
    case OpRgba(r, g, b, a) => Q.Rgba(r, g, b, a)
    case OpIndex(position) => Q.Index(position)
    case OpDiff(dr, dg, db) => Q.Diff(dr, dg, db)
    case OpLuma(green, red, blue) => Q.Luma(green, red, blue)
    case OpRun(length) => Q.Run(length)
  }

  lemma Tags()
    ensures Binary("00") == 0 && Binary("01") == 1 && Binary("10") == 2 && Binary("11") == 3
  {
    assert Binary("") == 0 && Binary("0") == 0 && Binary("1") == 1;
    assert "00"[..1] == "0" && "01"[..1] == "0" && "10"[..1] == "1" && "11"[..1] == "1";
  }

  /** Both write a chunk in the same bytes. */
  lemma SameBytes(op: Op, s: seq<byte>)
    requires Legal(op)
    ensures Q.ValidChunk(Coded(op)) && (Spells(s, op) <==> s == Q.ChunkBytes(Coded(op)))
  {
    Tags();
  }

  // ---- The tables are what was seen --------------------------------------

  /** A decoder's table holds the last pixel seen at each position. */
  ghost predicate Knows(d: Q.State, seen: seq<Pixel>) {
    d.prev == Previous(seen) && forall k :: 0 <= k < 64 ==> d.table[k] == LastAt(seen, k)
  }

  lemma LastAtSnoc(seen: seq<Pixel>, p: Pixel, k: nat)
    ensures LastAt(seen + [p], k) == if Position(p) == k then p else LastAt(seen, k)
  {
    var s := seen + [p];
    assert s[..|s| - 1] == seen;
  }

  lemma {:induction false} LastAtRepeat(seen: seq<Pixel>, p: Pixel, n: nat, k: nat)
    requires n >= 1
    ensures LastAt(seen + Repeat(p, n), k) == if Position(p) == k then p else LastAt(seen, k)
    ensures Previous(seen + Repeat(p, n)) == p
    decreases n
  {
    if n == 1 {
      assert Repeat(p, 1) == [p];
      LastAtSnoc(seen, p, k);
    } else {
      LastAtRepeat(seen, p, n - 1, k);
      LastAtSnoc(seen + Repeat(p, n - 1), p, k);
      assert seen + Repeat(p, n) == seen + Repeat(p, n - 1) + [p];
    }
  }

  /** Storing the pixel a chunk repeats or adds keeps the table in line with what was seen. */
  lemma StoreKnows(d: Q.State, seen: seq<Pixel>, p: Pixel, n: nat, run: nat)
    requires Knows(d, seen) && n >= 1
    ensures Knows(Q.Coder(d.table[Q.Hash(p) := p], p, run), seen + Repeat(p, n))
  {
    var t := d.table[Q.Hash(p) := p];
    forall k | 0 <= k < 64 ensures t[k] == LastAt(seen + Repeat(p, n), k) {
      LastAtRepeat(seen, p, n, k);
    }
    LastAtRepeat(seen, p, n, 0);
  }

  lemma SumDiffers(to: byte, from: byte, d: int)
    ensures Differs(to, from, d) <==> to == Q.AddByte(from, d)
  {
    var v: int := from + d;
    assert v == v / 256 * 256 + v % 256;
    if Differs(to, from, d) {
      var q := (to - from - d) / 256;
      assert to - v == q * 256;
      DivUnique(v, 256, -q, to);
    }
    if to == v % 256 {
      assert to - from - d == -(v / 256) * 256;
    }
  }

  /** A chunk's pixels are the pixel the decoder finds, repeated for a run. */
  lemma SamePixel(d: Q.State, seen: seq<Pixel>, op: Op, px: seq<Pixel>)
    requires Knows(d, seen) && Legal(op)
    ensures Means(seen, op, px) <==> px == Repeat(Q.ChunkPixel(d, Coded(op)), if op.OpRun? then op.length else 1)
  {
    hide Q.AddByte, Differs;
    var p := Q.ChunkPixel(d, Coded(op));
    assert Repeat(p, 1) == [p];
    if (op.OpDiff? || op.OpLuma?) && |px| == 1 {
      var (vr, vg, vb) :=
        if op.OpDiff? then (op.dr, op.dg, op.db) else (op.green + op.red, op.green, op.green + op.blue);
      SumDiffers(px[0].r, d.prev.r, vr);
      SumDiffers(px[0].g, d.prev.g, vg);
      SumDiffers(px[0].b, d.prev.b, vb);
    }
  }

  // ---- Decoding ----------------------------------------------------------

  /** The decoder turns a stream of the format into the pixels it draws, and goes on from there. */
  lemma {:induction false} DecodesStream(d: Q.State, data: seq<byte>, pos: nat, s: seq<byte>, ops: seq<Op>,
                                         img: seq<Pixel>, from: nat, more: nat)
    returns (d': Q.State)
    requires from <= |img| && Stream(s, ops, img, from)
    requires Knows(d, img[..from]) && d.run == 0 && Lies(data, pos, s)
    ensures Knows(d', img) && d'.run == 0 && pos + |s| <= |data|
    ensures Q.DecodeFrom(d, data, pos, |img| - from + more) == img[from..] + Q.DecodeFrom(d', data, pos + |s|, more)
    decreases |ops|
  {
    hide Q.DecodeFrom, Draws, Knows, Lies;
    LiesInside(data, pos, s);
    if ops == [] {
      d' := d;
      assert img[..from] == img && img[from..] == [];
    } else {
      var n: nat, m: nat :| Draws(s, ops[0], img, from, n, m) && Stream(s[n..], ops[1..], img, from + m);
      var d1 := FirstChunk(d, data, pos, s, ops[0], img, from, n, m, more);
      d' := DecodesStream(d1, data, pos + n, s[n..], ops[1..], img, from + m, more);
      assert img[from..] == img[from..from + m] + img[from + m..];
    }
  }

  /** These bytes of the data are `s`. */
  predicate Lies(data: seq<byte>, pos: nat, s: seq<byte>) {
    pos + |s| <= |data| && data[pos..pos + |s|] == s
  }

  lemma LiesInside(data: seq<byte>, pos: nat, s: seq<byte>)
    requires Lies(data, pos, s)
    ensures pos + |s| <= |data|
    ensures forall n: nat :: n <= |s| ==> Lies(data, pos, s[..n]) && Lies(data, pos + n, s[n..])
  {
    forall n: nat | n <= |s| ensures Lies(data, pos, s[..n]) && Lies(data, pos + n, s[n..]) {
      Q.SplitSlice(data, pos, s[..n], s[n..]);
      assert s[..n] + s[n..] == s;
    }
  }

  lemma FirstChunk(d: Q.State, data: seq<byte>, pos: nat, s: seq<byte>, op: Op, img: seq<Pixel>, from: nat, n: nat,
                   m: nat, more: nat)
    returns (d': Q.State)
    requires Draws(s, op, img, from, n, m) && Knows(d, img[..from]) && d.run == 0 && Lies(data, pos, s)
    ensures n <= |s| && from + m <= |img| && pos + n <= |data|
    ensures Knows(d', img[..from + m]) && d'.run == 0 && Lies(data, pos + n, s[n..])
    ensures Q.DecodeFrom(d, data, pos, |img| - from + more) ==
      img[from..from + m] + Q.DecodeFrom(d', data, pos + n, |img| - from - m + more)
  {
    hide Q.ReadChunk, Q.ChunkPixel, Q.Hash, Q.DecodeFrom, Spells, Means, Legal, Knows;
    LiesInside(data, pos, s);
    assert Lies(data, pos, s[..n]);
    SameBytes(op, s[..n]);
    Q.ReadBack(Coded(op), data, pos);
    SamePixel(d, img[..from], op, img[from..from + m]);
    d' := OneChunk(d, data, pos, op, img, from, m, n, more);
  }

  /** One chunk decoded. */
  lemma OneChunk(d: Q.State, data: seq<byte>, pos: nat, op: Op, img: seq<Pixel>, from: nat, m: nat, n: nat,
                 more: nat)
    returns (d': Q.State)
    requires from + m <= |img| && Legal(op) && Knows(d, img[..from]) && d.run == 0 && pos < |data|
    requires Q.ReadChunk(data, pos) == Some((Coded(op), pos + n)) && pos + n <= |data|
    requires img[from..from + m] == Repeat(Q.ChunkPixel(d, Coded(op)), if op.OpRun? then op.length else 1)
    ensures Knows(d', img[..from + m]) && d'.run == 0
    ensures Q.DecodeFrom(d, data, pos, |img| - from + more) ==
      img[from..from + m] + Q.DecodeFrom(d', data, pos + n, |img| - from - m + more)
  {
    hide Q.DecodeFrom, Q.ReadChunk, Q.ChunkPixel, Q.Hash, Knows;
    var p := Q.ChunkPixel(d, Coded(op));
    d' := Q.Coder(d.table[Q.Hash(p) := p], p, 0);
    StoreKnows(d, img[..from], p, m, 0);
    assert img[..from + m] == img[..from] + img[from..from + m];
    ChunkThenRun(d, data, pos, Coded(op), n, m, |img| - from + more);
  }

  /** A chunk of `m` pixels, from the decoder's side. */
  lemma ChunkThenRun(d: Q.State, data: seq<byte>, pos: nat, c: Q.Chunk, n: nat, m: nat, count: nat)
    requires d.run == 0 && pos < |data| && pos + n <= |data| && Q.ReadChunk(data, pos) == Some((c, pos + n))
    requires (c.Index? ==> c.slot < 64) && (c.Run? ==> c.n > 0) && m == (if c.Run? then c.n else 1) <= count
    ensures
      var p := Q.ChunkPixel(d, c);
      Q.DecodeFrom(d, data, pos, count) ==
      Repeat(p, m) + Q.DecodeFrom(Q.Coder(d.table[Q.Hash(p) := p], p, 0), data, pos + n, count - m)
  {
    hide Q.DecodeFrom, Q.ReadChunk, Q.ChunkPixel, Q.Hash;
    var p := Q.ChunkPixel(d, c);
    var d1 := Q.ApplyChunk(d, c);
    ChunkFirst(d, data, pos, c, n, count);
    Q.DecodeRun(d1, data, pos + n, count - 1);
    var rest := Q.DecodeFrom(d1.(run := 0), data, pos + n, count - m);
    assert [p] + (Repeat(p, m - 1) + rest) == Repeat(p, m) + rest;
  }

  lemma ChunkFirst(d: Q.State, data: seq<byte>, pos: nat, c: Q.Chunk, n: nat, count: nat)
    requires d.run == 0 && pos < |data| && pos + n <= |data| && Q.ReadChunk(data, pos) == Some((c, pos + n))
    requires (c.Index? ==> c.slot < 64) && (c.Run? ==> c.n > 0) && count > 0
    ensures Q.DecodeFrom(d, data, pos, count) ==
      [Q.ApplyChunk(d, c).prev] + Q.DecodeFrom(Q.ApplyChunk(d, c), data, pos + n, count - 1)
  {
    hide Q.ReadChunk, Q.ApplyChunk;
  }

  lemma KnowsNothing()
    ensures Knows(Q.INITIAL, [])
  {
  }

  lemma Magic(data: seq<byte>)
    requires |data| >= 4
    ensures data[..4] == Ascii("qoif") <==> data[..4] == Q.MAGIC
  {
    assert Ascii("qoif") == Q.MAGIC;
  }

  /** The decoder reads every file of the format with sides up to 20000, from any encoder and with any chunks. */
  lemma DecodesEveryFile(data: seq<byte>, w: nat, h: nat, channels: byte, space: byte, ops: seq<Op>, img: seq<Pixel>)
    requires QoiFile(data, w, h, channels, space, ops, img)
    requires 1 <= w <= 20000 && 1 <= h <= 20000 && w * h <= MAX_PIXELS
    ensures Q.Decoded(data) == Some(Q.Picture(w, h, img))
  {
    hide Stream, Q.DecodeFrom, Knows;
    var n := |data| - 8;
    Magic(data);
    SidesRead(data, w, h);
    KnowsNothing();
    assert img[..0] == [] && img[0..] == img;
    var d := DecodesStream(Q.INITIAL, data, 14, data[14..n], ops, img, 0, 0);
    Q.NoPixels(d, data, n);
    assert img + [] == img;
  }

  /** The bytes of a chunk cut off before its end. */
  ghost predicate CutChunk(s: seq<byte>, op: Op) {
    Legal(op) && s != [] && exists t :: t != [] && Spells(s + t, op)
  }

  lemma CutIsRefused(data: seq<byte>, pos: nat, op: Op)
    requires pos < |data| && CutChunk(data[pos..], op)
    ensures Q.ReadChunk(data, pos) == None
  {
    var t :| t != [] && Spells(data[pos..] + t, op);
    var s := data[pos..] + t;
    SameBytes(op, s);
    assert s[0] == data[pos] && |s| > |data| - pos;
    if op.OpLuma? {
      assert 128 <= s[0] < 192;
    }
  }

  lemma {:induction false} EndRepeats(d: Q.State, data: seq<byte>, n: nat)
    requires d.run == 0
    ensures Q.DecodeFrom(d, data, |data|, n) == Repeat(d.prev, n)
    decreases n
  {
    if n > 0 {
      EndRepeats(d, data, n - 1);
      assert Repeat(d.prev, n) == [d.prev] + Repeat(d.prev, n - 1);
    }
  }

  /**
   * Data that ends too early: the pixels drawn so far are all there; after a whole chunk the last of them is repeated
   * to the end of the picture, and after a cut one the rest stays clear.
   */
  lemma DecodesCutData(data: seq<byte>, w: nat, h: nat, ops: seq<Op>, img: seq<Pixel>, n: nat, cut: Op)
    requires 22 <= |data| && 14 <= n <= |data| && data[..4] == Ascii("qoif")
    requires BigEndian(data[4..8], w) && BigEndian(data[8..12], h)
    requires 1 <= w <= 20000 && 1 <= h <= 20000 && w * h <= MAX_PIXELS
    requires Stream(data[14..n], ops, img, 0) && |img| < w * h
    requires n == |data| || CutChunk(data[n..], cut)
    ensures
      var rest := if n == |data| then Previous(img) else CLEAR;
      Q.Decoded(data) == Some(Q.Picture(w, h, img + Repeat(rest, w * h - |img|)))
  {
    hide Stream, Q.DecodeFrom, CutChunk;
    Magic(data);
    SidesRead(data, w, h);
    KnowsNothing();
    assert img[..0] == [] && img[0..] == img;
    var more := w * h - |img|;
    var d := DecodesStream(Q.INITIAL, data, 14, data[14..n], ops, img, 0, more);
    if n == |data| {
      EndRepeats(d, data, more);
    } else {
      CutIsRefused(data, n, cut);
      CutLeavesClear(d, data, n, more);
    }
  }

  lemma CutLeavesClear(d: Q.State, data: seq<byte>, pos: nat, n: nat)
    requires d.run == 0 && pos < |data| && n > 0 && Q.ReadChunk(data, pos) == None
    ensures Q.DecodeFrom(d, data, pos, n) == Repeat(CLEAR, n)
  {
    hide Q.ReadChunk;
  }

  lemma SidesRead(data: seq<byte>, w: nat, h: nat)
    requires |data| >= 12
    ensures BigEndian(data[4..8], w) <==> Q.Read32(data, 4) == w
    ensures BigEndian(data[8..12], h) <==> Q.Read32(data, 8) == h
  {
    var (s, t) := (data[4..8], data[8..12]);
    assert s[0] == data[4] && s[1] == data[5] && s[2] == data[6] && s[3] == data[7];
    assert t[0] == data[8] && t[1] == data[9] && t[2] == data[10] && t[3] == data[11];
  }

  /** Memory permitting, the decoder takes exactly the data with a header of sane sides and 22 bytes in all. */
  lemma TakesSaneHeaders(data: seq<byte>)
    ensures Q.Decoded(data).Some? <==>
      && |data| >= 22 && data[..4] == Ascii("qoif")
      && exists w: nat, h: nat ::
        && BigEndian(data[4..8], w) && BigEndian(data[8..12], h)
        && 1 <= w <= 20000 && 1 <= h <= 20000 && w * h <= MAX_PIXELS
  {
    hide Q.DecodeFrom, Q.Read32, BigEndian;
    if |data| >= 22 {
      Magic(data);
      var (w, h) := (Q.Read32(data, 4), Q.Read32(data, 8));
      SidesRead(data, w, h);
      forall u: nat, v: nat | BigEndian(data[4..8], u) && BigEndian(data[8..12], v) ensures u == w && v == h {
        SidesRead(data, u, v);
      }
    }
  }

  // ---- Encoding ----------------------------------------------------------

  /** The encoder's table holds the last pixel that was no repeat, at each position. */
  ghost predicate Remembers(e: Q.State, seen: seq<Pixel>) {
    e.prev == Previous(seen) && forall k :: 0 <= k < 64 ==> e.table[k] == LastFresh(seen, k)
  }

  lemma LastFreshSnoc(seen: seq<Pixel>, p: Pixel, k: nat)
    ensures LastFresh(seen + [p], k) == if p != Previous(seen) && Position(p) == k then p else LastFresh(seen, k)
  {
    var s := seen + [p];
    assert s[..|s| - 1] == seen;
  }

  /** One more pixel remembered. */
  lemma StoreRemembers(e: Q.State, seen: seq<Pixel>, px: Pixel, last: bool)
    requires Remembers(e, seen) && e.run < 62
    ensures Remembers(Q.EncodePixel(e, px, last).0, seen + [px])
  {
    hide Q.Literal;
    var t := Q.EncodePixel(e, px, last).0.table;
    forall k | 0 <= k < 64 ensures t[k] == LastFresh(seen + [px], k) {
      LastFreshSnoc(seen, px, k);
    }
  }

  lemma ThisByte(a: byte, b: byte)
    ensures b == Q.AddByte(a, Signed8(b - a))
  {
    Q.ChannelBack(a, b, 0);
  }

  /** A difference that fits a byte's signed range is the difference the encoder computes. */
  lemma OneDifference(to: byte, from: byte, d: int)
    requires -128 <= d < 128
    ensures Differs(to, from, d) <==> d == Signed8(to - from)
  {
    ThisByte(from, to);
    SumDiffers(to, from, d);
    SumDiffers(to, from, Signed8(to - from));
    if Differs(to, from, d) {
      var e := Signed8(to - from);
      var (p, q) := ((to - from - d) / 256, (to - from - e) / 256);
      assert d - e == (q - p) * 256;
    }
  }

  /** The encoder's differences are a diff chunk's, or none is. */
  lemma DiffIsFound(seen: seq<Pixel>, px: Pixel)
    ensures
      var p := Previous(seen);
      var (vr, vg, vb) := (Signed8(px.r - p.r), Signed8(px.g - p.g), Signed8(px.b - p.b));
      && (DiffDraws(seen, px) <==> px.a == p.a && Legal(OpDiff(vr, vg, vb)))
      && (px.a == p.a && Legal(OpDiff(vr, vg, vb)) ==> Means(seen, OpDiff(vr, vg, vb), [px]))
  {
    hide Differs, Signed8;
    var p := Previous(seen);
    var (vr, vg, vb) := (Signed8(px.r - p.r), Signed8(px.g - p.g), Signed8(px.b - p.b));
    if dr, dg, db :| Legal(OpDiff(dr, dg, db)) && Means(seen, OpDiff(dr, dg, db), [px]) {
      OneDifference(px.r, p.r, dr);
      OneDifference(px.g, p.g, dg);
      OneDifference(px.b, p.b, db);
    }
    if Legal(OpDiff(vr, vg, vb)) {
      OneDifference(px.r, p.r, vr);
      OneDifference(px.g, p.g, vg);
      OneDifference(px.b, p.b, vb);
    }
  }

  /** The same for the second difference of a luma chunk, which the encoder takes of the first ones. */
  lemma SecondDifference(to: byte, from: byte, green: int, d: int)
    requires -8 <= d < 8 && -32 <= green < 32
    ensures Differs(to, from, green + d) <==> d == Signed8(Signed8(to - from) - green)
  {
    hide Signed8, Differs;
    OneDifference(to, from, green + d);
    WrapOnce(Signed8(to - from), green, d);
  }

  lemma WrapOnce(v: int, green: int, d: int)
    requires -8 <= d < 8 && -32 <= green < 32 && -128 <= v < 128
    ensures green + d == v <==> d == Signed8(v - green)
  {
    var u := v - green + 128;
    assert u == u / 256 * 256 + u % 256;
  }

  lemma LumaIsFound(seen: seq<Pixel>, px: Pixel)
    ensures
      var p := Previous(seen);
      var (vr, vg, vb) := (Signed8(px.r - p.r), Signed8(px.g - p.g), Signed8(px.b - p.b));
      var op := OpLuma(vg, Signed8(vr - vg), Signed8(vb - vg));
      && (LumaDraws(seen, px) <==> px.a == p.a && Legal(op))
      && (px.a == p.a && Legal(op) ==> Means(seen, op, [px]))
  {
    hide Differs, Signed8;
    var p := Previous(seen);
    var (vr, vg, vb) := (Signed8(px.r - p.r), Signed8(px.g - p.g), Signed8(px.b - p.b));
    if green, red, blue :| Legal(OpLuma(green, red, blue)) && Means(seen, OpLuma(green, red, blue), [px]) {
      OneDifference(px.g, p.g, green);
      SecondDifference(px.r, p.r, green, red);
      SecondDifference(px.b, p.b, green, blue);
    }
    var (red, blue) := (Signed8(vr - vg), Signed8(vb - vg));
    if Legal(OpLuma(vg, red, blue)) {
      OneDifference(px.g, p.g, vg);
      SecondDifference(px.r, p.r, vg, red);
      SecondDifference(px.b, p.b, vg, blue);
    }
  }

  /** A repeat leaves the last pixel at its position the same, except for the pixel before the first one. */
  lemma {:induction false} FreshIsLast(seen: seq<Pixel>, k: nat)
    ensures LastFresh(seen, k) == LastAt(seen, k) || (k == 53 && LastFresh(seen, k) == Pixel(0, 0, 0, 0))
    ensures
      var p := Previous(seen);
      Position(p) == k ==> LastFresh(seen, k) == p || (k == 53 && LastFresh(seen, k) == Pixel(0, 0, 0, 0))
    ensures LastFresh(seen, k) != LastAt(seen, k) ==> LastAt(seen, k) == Pixel(255, 0, 0, 0)
    ensures Position(Previous(seen)) == k && LastFresh(seen, k) != Previous(seen) ==>
      Previous(seen) == Pixel(255, 0, 0, 0)
    decreases |seen|
  {
    if seen != [] {
      FreshIsLast(seen[..|seen| - 1], k);
    }
  }

  /** The specification's chunk for what the encoder writes of a pixel it has no run for. */
  function PixelOp(e: Q.State, px: Pixel): (op: Op)
    ensures Legal(op) && !op.OpRun?
  {
    if e.table[Q.Hash(px)] == px then OpIndex(Q.Hash(px))
    else
      match Q.Literal(e.prev, px)
      case Diff(vr, vg, vb) => OpDiff(vr, vg, vb)
      case Luma(vg, vgr, vgb) => OpLuma(vg, vgr, vgb)
      case Rgb(r, g, b) => OpRgb(r, g, b)
      case Rgba(r, g, b, a) => OpRgba(r, g, b, a)
  }

  /** It is the chunk the specification's choice picks, and it means the pixel. */
  lemma PixelPicked(e: Q.State, img: seq<Pixel>, i: nat)
    requires i < |img| && Remembers(e, img[..i]) && img[i] != e.prev
    ensures Picked(img, i, PixelOp(e, img[i])) && Means(img[..i], PixelOp(e, img[i]), [img[i]])
    ensures Coded(PixelOp(e, img[i])) ==
      if e.table[Q.Hash(img[i])] == img[i] then Q.Index(Q.Hash(img[i])) else Q.Literal(e.prev, img[i])
  {
    hide Signed8, Differs, LastAt, LastFresh;
    DiffIsFound(img[..i], img[i]);
    LumaIsFound(img[..i], img[i]);
    FreshIsLast(img[..i], Position(img[i]));
  }

  /** One chunk in front of a stream. */
  lemma Joined(c: Q.Chunk, cs: seq<Q.Chunk>, op: Op, ops: seq<Op>, img: seq<Pixel>, from: nat, m: nat)
    requires Q.ValidChunks(cs) && Legal(op) && c == Coded(op) && 0 < m && from + m <= |img|
    requires Means(img[..from], op, img[from..from + m]) && m == if op.OpRun? then op.length else 1
    requires Picked(img, from, op) && AllPicked(ops, img, from + m)
    requires Stream(Q.Bytes(cs), ops, img, from + m)
    ensures Q.ValidChunks([c] + cs)
    ensures Stream(Q.Bytes([c] + cs), [op] + ops, img, from) && AllPicked([op] + ops, img, from)
  {
    hide Means, Picked, Legal, Spells, Q.ValidChunk, Q.ChunkBytes;
    SameBytes(op, []);
    SameBytes(op, Q.ChunkBytes(c));
    var (s, t) := (Q.ChunkBytes(c), Q.Bytes(cs));
    assert ([c] + cs)[1..] == cs && ([op] + ops)[1..] == ops;
    assert Q.Bytes([c] + cs) == s + t && (s + t)[..|s|] == s && (s + t)[|s|..] == t;
    var (all, list) := (s + t, [op] + ops);
    assert Draws(all, list[0], img, from, |s|, m) && Stream(all[|s|..], list[1..], img, from + m);
  }

  /** A pending run: the pixels from `from` up to `i` repeat the one before them. */
  ghost predicate Pending(img: seq<Pixel>, from: nat, i: nat, p: Pixel) {
    && from <= i <= |img| && (forall j :: from <= j < i ==> img[j] == p)
    && (from < i ==> Previous(img[..from]) == p)
  }

  /** A run chunk written for a pending run. */
  lemma RunJoined(cs: seq<Q.Chunk>, ops: seq<Op>, img: seq<Pixel>, from: nat, i: nat, p: Pixel)
    requires Pending(img, from, i, p) && from < i && i - from <= 62 && Q.ValidChunks(cs)
    requires i - from == 62 || i == |img| || img[i] != p
    requires AllPicked(ops, img, i) && Stream(Q.Bytes(cs), ops, img, i)
    ensures Q.ValidChunks([Q.Run(i - from)] + cs)
    ensures Stream(Q.Bytes([Q.Run(i - from)] + cs), [OpRun(i - from)] + ops, img, from)
    ensures AllPicked([OpRun(i - from)] + ops, img, from)
  {
    hide Stream, AllPicked, Q.Bytes;
    Joined(Q.Run(i - from), cs, OpRun(i - from), ops, img, from, i - from);
  }

  lemma EndOfStream(img: seq<Pixel>)
    ensures Stream(Q.Bytes([]), [], img, |img|) && AllPicked([], img, |img|)
  {
  }

  /** What the encoder writes from any point on is a stream of the format, picked by its rules. */
  lemma {:induction false} EncodesStream(e: Q.State, img: seq<Pixel>, i: nat) returns (ops: seq<Op>)
    requires i <= |img| && e.run < 62 && e.run <= i && (i == |img| ==> e.run == 0)
    requires Remembers(e, img[..i]) && Pending(img, i - e.run, i, e.prev)
    ensures Stream(Q.Bytes(Q.EncodeFrom(e, img, i)), ops, img, i - e.run) && AllPicked(ops, img, i - e.run)
    decreases |img| - i
  {
    hide Stream, AllPicked, Remembers, Q.Bytes, Q.Literal, Picked, Means;
    if i == |img| {
      EndOfStream(img);
      ops := [];
      return;
    }
    var (px, from, last) := (img[i], i - e.run, i == |img| - 1);
    StoreRemembers(e, img[..i], px, last);
    PreviousIs(e, img[..i]);
    assert img[..i + 1] == img[..i] + [px];
    var e' := Q.EncodePixel(e, px, last).0;
    if px == e.prev {
      RunGrows(img, from, i, e.prev);
    }
    ops := EncodesStream(e', img, i + 1);
    ops := PixelJoined(e, img, i, last, Q.EncodeFrom(e', img, i + 1), ops);
  }

  /** What is written for one pixel, in front of the rest. */
  lemma PixelJoined(e: Q.State, img: seq<Pixel>, i: nat, last: bool, rest: seq<Q.Chunk>, more: seq<Op>)
    returns (ops: seq<Op>)
    requires i < |img| && e.run < 62 && e.run <= i && last == (i == |img| - 1) && Q.ValidChunks(rest)
    requires Remembers(e, img[..i]) && Pending(img, i - e.run, i, e.prev)
    requires
      var from := i + 1 - Q.EncodePixel(e, img[i], last).0.run;
      0 <= from <= |img| && Stream(Q.Bytes(rest), more, img, from) && AllPicked(more, img, from)
    ensures Q.ValidChunks(Q.EncodePixel(e, img[i], last).1 + rest)
    ensures Stream(Q.Bytes(Q.EncodePixel(e, img[i], last).1 + rest), ops, img, i - e.run)
    ensures AllPicked(ops, img, i - e.run)
  {
    hide Stream, AllPicked, Remembers, Q.Bytes, Q.Literal, Picked, Means, Previous, Q.Hash;
    var (px, from, cs) := (img[i], i - e.run, Q.EncodePixel(e, img[i], last).1);
    PreviousIs(e, img[..i]);
    if px == e.prev {
      RunGrows(img, from, i, e.prev);
      if cs == [] {
        assert [] + rest == rest;
        ops := more;
      } else {
        RunJoined(rest, more, img, from, i + 1, e.prev);
        ops := [OpRun(i + 1 - from)] + more;
      }
    } else {
      PixelPicked(e, img, i);
      var c := Coded(PixelOp(e, px));
      assert img[i..i + 1] == [px];
      Joined(c, rest, PixelOp(e, px), more, img, i, 1);
      ops := [PixelOp(e, px)] + more;
      if e.run > 0 {
        RunJoined([c] + rest, ops, img, from, i, e.prev);
        ops := [OpRun(e.run)] + ops;
        assert cs + rest == [Q.Run(e.run)] + ([c] + rest);
      } else {
        assert cs + rest == [c] + rest;
      }
    }
  }

  lemma PreviousIs(e: Q.State, seen: seq<Pixel>)
    requires Remembers(e, seen)
    ensures Previous(seen) == e.prev
  {
  }

  lemma RunGrows(img: seq<Pixel>, from: nat, i: nat, p: Pixel)
    requires Pending(img, from, i, p) && i < |img| && img[i] == p && Previous(img[..i]) == p
    ensures Pending(img, from, i + 1, p) && Pending(img, i + 1, i + 1, p)
  {
  }

  lemma RemembersNothing()
    ensures Remembers(Q.INITIAL, [])
  {
  }

  /** The encoder's file is a file of the format for its image: four channels, sRGB, and every chunk the right one. */
  lemma EncodesFile(w: nat, h: nat, img: seq<Pixel>) returns (ops: seq<Op>)
    requires w < 0x1_0000_0000 && h < 0x1_0000_0000 && |img| == w * h
    ensures QoiFile(Q.File(w, h, img), w, h, 4, 0, ops, img) && AllPicked(ops, img, 0)
  {
    hide Stream, AllPicked, Remembers, Q.Bytes, Q.EncodeFrom, Q.Read32;
    var data := Q.File(w, h, img);
    var cs := Q.EncodeFrom(Q.INITIAL, img, 0);
    var n := |data| - 8;
    RemembersNothing();
    assert img[..0] == [];
    ops := EncodesStream(Q.INITIAL, img, 0);
    assert data[14..n] == Q.Bytes(cs) && data[n..] == Q.END_MARK;
    assert data[..4] == Q.MAGIC;
    Magic(data);
    assert data[4..8] == Q.Big32(w) && data[8..12] == Q.Big32(h);
    WrittenBig(w);
    WrittenBig(h);
  }

  lemma WrittenBig(v: nat)
    requires v < 0x1_0000_0000
    ensures BigEndian(Q.Big32(v), v)
  {
    Q.Big32Back(v);
  }
}
