/** The QOI format by its specification, version 1.0: what the bytes of a file mean, with no coder in sight. */
module QoiSpec {
  import opened CTypes
  import opened Raster

  /** The six chunks, by their fields. */
  datatype Op =
    | OpRgb(r: byte, g: byte, b: byte)
    | OpRgba(r: byte, g: byte, b: byte, a: byte)
    | OpIndex(position: nat)
    | OpDiff(dr: int, dg: int, db: int)
    | OpLuma(green: int, red: int, blue: int)
    | OpRun(length: nat)

  predicate Legal(op: Op) {
    match op
    case OpRgb(_, _, _) => true
    case OpRgba(_, _, _, _) => true
    case OpIndex(position) => position <= 63
    case OpDiff(dr, dg, db) => -2 <= dr <= 1 && -2 <= dg <= 1 && -2 <= db <= 1
    case OpLuma(green, red, blue) => -32 <= green <= 31 && -8 <= red <= 7 && -8 <= blue <= 7
    case OpRun(length) => 1 <= length <= 62
  }

  // ---- Bits --------------------------------------------------------------

  /** The number that bits spell, most significant first. */
  function Binary(bits: string): (v: nat)
    requires forall i :: 0 <= i < |bits| ==> bits[i] == '0' || bits[i] == '1'
    decreases |bits|
  {
    if bits == "" then 0 else 2 * Binary(bits[..|bits| - 1]) + if bits[|bits| - 1] == '1' then 1 else 0
  }

  /** The first byte is a tag of two bits over a field of six, or a tag of eight. */
  predicate Tagged(b: byte, tag: string, field: int)
    requires |tag| == 2 && forall i :: 0 <= i < |tag| ==> tag[i] == '0' || tag[i] == '1'
  {
    0 <= field < 64 && b == Binary(tag) * 64 + field
  }

  /** The bytes of a chunk; differences and the run's length carry a bias. */
  ghost predicate Spells(s: seq<byte>, op: Op)
    requires Legal(op)
  {
    match op
    case OpRgb(r, g, b) => s == [255 - 1, r, g, b]
    case OpRgba(r, g, b, a) => s == [255, r, g, b, a]
    case OpIndex(position) => |s| == 1 && Tagged(s[0], "00", position)
    case OpDiff(dr, dg, db) => |s| == 1 && Tagged(s[0], "01", (dr + 2) * 16 + (dg + 2) * 4 + (db + 2))
    case OpLuma(green, red, blue) =>
      |s| == 2 && Tagged(s[0], "10", green + 32) && s[1] == (red + 8) * 16 + (blue + 8)
    case OpRun(length) => |s| == 1 && Tagged(s[0], "11", length - 1)
  }

  // ---- Pixels ------------------------------------------------------------

  /** Where a pixel is put among the 64 seen before. */
  function Position(p: Pixel): (k: nat)
    ensures k < 64
  {
    (p.r * 3 + p.g * 5 + p.b * 7 + p.a * 11) % 64
  }

  /** The pixel before the next one; black and opaque at the start. */
  function Previous(seen: seq<Pixel>): (p: Pixel) {
    if seen == [] then Pixel(255, 0, 0, 0) else seen[|seen| - 1]
  }

  /** The last pixel seen that belongs at a position; all zero when there is none. */
  function LastAt(seen: seq<Pixel>, k: nat): (p: Pixel)
    decreases |seen|
  {
    if seen == [] then Pixel(0, 0, 0, 0)
    else if Position(seen[|seen| - 1]) == k then seen[|seen| - 1]
    else LastAt(seen[..|seen| - 1], k)
  }

  /** A channel that differs by `d` from another, with wrap-around. */
  predicate Differs(to: byte, from: byte, d: int) {
    (to - from - d) % 256 == 0
  }

  /** The pixels a chunk stands for after those seen. */
  ghost predicate Means(seen: seq<Pixel>, op: Op, px: seq<Pixel>) {
    var p := Previous(seen);
    match op
    case OpRgb(r, g, b) => px == [Pixel(p.a, r, g, b)]
    case OpRgba(r, g, b, a) => px == [Pixel(a, r, g, b)]
    case OpIndex(position) => px == [LastAt(seen, position)]
    case OpDiff(dr, dg, db) =>
      |px| == 1 && px[0].a == p.a && Differs(px[0].r, p.r, dr) && Differs(px[0].g, p.g, dg) && Differs(px[0].b, p.b, db)
    case OpLuma(green, red, blue) =>
      && |px| == 1 && px[0].a == p.a && Differs(px[0].g, p.g, green)
      && Differs(px[0].r, p.r, green + red) && Differs(px[0].b, p.b, green + blue)
    case OpRun(length) => |px| == length && forall i :: 0 <= i < length ==> px[i] == p
  }

  // ---- Streams and files -------------------------------------------------

  /** The first `n` bytes are a chunk that draws the next `m` pixels. */
  ghost predicate Draws(s: seq<byte>, op: Op, img: seq<Pixel>, from: nat, n: nat, m: nat): (b: bool)
    ensures b ==> n <= |s| && from + m <= |img|
  {
    && n <= |s| && from + m <= |img|
    && Legal(op) && Spells(s[..n], op) && Means(img[..from], op, img[from..from + m])
  }

  /** A list of chunks that draw an image from its `from`-th pixel on, written one after the other. */
  ghost predicate Stream(s: seq<byte>, ops: seq<Op>, img: seq<Pixel>, from: nat)
    requires from <= |img|
    decreases |ops|
  {
    if ops == [] then s == [] && from == |img|
    else exists n: nat, m: nat :: Draws(s, ops[0], img, from, n, m) && Stream(s[n..], ops[1..], img, from + m)
  }

  /** A number in four bytes, the largest part first. */
  predicate BigEndian(s: seq<byte>, v: nat) {
    |s| == 4 && s[0] as int * 16777216 + s[1] as int * 65536 + s[2] as int * 256 + s[3] as int == v
  }

  /** A file: "qoif", the sides, the channels and the color space, the chunks, and seven bytes 0 and one byte 1. */
  ghost predicate QoiFile(data: seq<byte>, w: nat, h: nat, channels: byte, space: byte, ops: seq<Op>, img: seq<Pixel>) {
    var n := |data| - 8;
    && n >= 14 && |img| == w * h
    && data[..4] == Ascii("qoif") && BigEndian(data[4..8], w) && BigEndian(data[8..12], h)
    && data[12] == channels && data[13] == space
    && Stream(data[14..n], ops, img, 0)
    && data[n..] == [0, 0, 0, 0, 0, 0, 0, 1]
  }

  // ---- Which chunks an encoder picks -------------------------------------

  /** The last pixel at a position that was not a repeat of the one before it. */
  function LastFresh(seen: seq<Pixel>, k: nat): (p: Pixel)
    decreases |seen|
  {
    if seen == [] then Pixel(0, 0, 0, 0)
    else
      var (p, rest) := (seen[|seen| - 1], seen[..|seen| - 1]);
      if p != Previous(rest) && Position(p) == k then p else LastFresh(rest, k)
  }

  ghost predicate DiffDraws(seen: seq<Pixel>, px: Pixel) {
    exists dr, dg, db :: Legal(OpDiff(dr, dg, db)) && Means(seen, OpDiff(dr, dg, db), [px])
  }

  ghost predicate LumaDraws(seen: seq<Pixel>, px: Pixel) {
    exists green, red, blue :: Legal(OpLuma(green, red, blue)) && Means(seen, OpLuma(green, red, blue), [px])
  }

  /**
   * The choice for the pixel after those seen: a run when it repeats the last one, taken to its end or to 62; else an
   * index when the pixel is found that way; else a difference, a luma difference, and a full pixel, with alpha only
   * when that changed.
   */
  ghost predicate Picked(img: seq<Pixel>, from: nat, op: Op)
    requires from < |img|
  {
    var (seen, px) := (img[..from], img[from]);
    var found := LastFresh(seen, Position(px)) == px;
    && (op.OpRun? <==> px == Previous(seen))
    && (op.OpRun? ==> op.length == 62 || from + op.length >= |img| || img[from + op.length] != px)
    && (op.OpIndex? <==> !op.OpRun? && found)
    && (op.OpIndex? ==> op.position == Position(px))
    && (op.OpDiff? <==> !op.OpRun? && !found && DiffDraws(seen, px))
    && (op.OpLuma? <==> !op.OpRun? && !found && !DiffDraws(seen, px) && LumaDraws(seen, px))
    && (op.OpRgba? <==> !op.OpRun? && !found && px.a != Previous(seen).a)
  }

  /** Every chunk of a stream that draws an image from its `from`-th pixel on is picked so. */
  ghost predicate AllPicked(ops: seq<Op>, img: seq<Pixel>, from: nat)
    requires from <= |img|
    decreases |ops|
  {
    ops != [] ==>
      && from < |img| && Picked(img, from, ops[0])
      && var next := from + if ops[0].OpRun? then ops[0].length else 1;
      next <= |img| && AllPicked(ops[1..], img, next)
  }
}
