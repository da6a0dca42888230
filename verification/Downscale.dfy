/** The area-average downscale of core/raster.c. */
module Downscale {
  import opened CTypes
  import opened Raster

  datatype Channel = A | R | G | B

  function Get(p: Pixel, c: Channel): (v: byte) {
    match c
    case A => p.a
    case R => p.r
    case G => p.g
    case B => p.b
  }

  /** The source columns and rows a pixel is averaged over: [x0, x1) by [y0, y1). */
  datatype Box = Box(x0: int, x1: int, y0: int, y1: int)

  function Count(b: Box): (n: int) {
    (b.x1 - b.x0) * (b.y1 - b.y0)
  }

  /** Where the i-th of `n` parts of [0, size) starts. */
  function Cut(i: int, size: int, n: int): (c: int)
    requires n > 0
  {
    i * size / n
  }

  /** The end of a box: past its start, and not past the source. */
  function End(start: int, next: int, size: int): (e: int) {
    var e := if next <= start then start + 1 else next;
    if e > size then size else e
  }

  /** The box of destination cell (dx, dy); never empty, even when the destination is the larger. */
  function BoxOf(dx: int, dy: int, dw: int, dh: int, sw: int, sh: int): (b: Box)
    requires dw > 0 && dh > 0
  {
    var x0, y0 := Cut(dx, sw, dw), Cut(dy, sh, dh);
    Box(x0, End(x0, Cut(dx + 1, sw, dw), sw), y0, End(y0, Cut(dy + 1, sh, dh), sh))
  }

  function RowSum(px: seq<Pixel>, stride: int, c: Channel, y: int, x0: int, x1: int): (s: int)
    decreases x1 - x0
  {
    if x1 <= x0 then 0 else RowSum(px, stride, c, y, x0, x1 - 1) + Get(Sample(px, stride, x1 - 1, y), c)
  }

  function BoxSum(px: seq<Pixel>, stride: int, c: Channel, b: Box): (s: int)
    decreases b.y1 - b.y0
  {
    if b.y1 <= b.y0 then 0
    else BoxSum(px, stride, c, b.(y1 := b.y1 - 1)) + RowSum(px, stride, c, b.y1 - 1, b.x0, b.x1)
  }

  // ---- The sample boxes --------------------------------------------------

  /** Successive parts meet, cover [0, size), and are not empty when there is at least one unit for each. */
  lemma Cuts(i: int, size: int, n: int)
    requires 0 <= i < n && 0 <= size
    ensures Cut(0, size, n) == 0 && Cut(n, size, n) == size
    ensures 0 <= Cut(i, size, n) <= Cut(i + 1, size, n) <= size
    ensures n <= size ==> Cut(i, size, n) < Cut(i + 1, size, n)
    ensures n == size ==> Cut(i, size, n) == i
    ensures 0 < size ==> Cut(i, size, n) < size
  {
    var a, b := Cut(i, size, n), Cut(i + 1, size, n);
    MulMono(0, i, size);
    MulMono(i + 1, n, size);
    assert (i + 1) * size == i * size + size;
    DivUnique(n * size, n, size, 0);
    DivMono(0, i * size, n);
    DivMono(i * size, (i + 1) * size, n);
    DivMono((i + 1) * size, n * size, n);
    if n <= size {
      DivMono(i * size + n, (i + 1) * size, n);
      DivPlus(i * size, n);
    }
    if n == size {
      DivUnique(i * size, n, i, 0);
    }
    if 0 < size {
      DivBelow(i * size, n, size);
    }
  }

  lemma DivMono(a: int, b: int, n: int)
    requires n > 0 && a <= b
    ensures a / n <= b / n
  {
    var q, r := a / n, b / n;
    assert q * n <= a && b < r * n + n && (r + 1) * n == r * n + n;
    if q > r {
      MulMono(r + 1, q, n);
    }
  }

  lemma DivPlus(a: int, n: int)
    requires n > 0
    ensures (a + n) / n == a / n + 1
  {
    var q, r := a / n, a % n;
    assert (q + 1) * n == q * n + n;
    DivUnique(a + n, n, q + 1, r);
  }

  lemma DivBelow(a: int, n: int, m: int)
    requires n > 0 && 0 <= a < n * m
    ensures a / n < m
  {
    var q := a / n;
    assert q * n <= a;
    if q >= m {
      MulMono(m, q, n);
    }
  }

  /** With a destination no larger than the source, each box is exactly the part between two cuts. */
  lemma BoxBetweenCuts(dx: int, dy: int, dw: int, dh: int, sw: int, sh: int)
    requires 0 <= dx < dw <= sw && 0 <= dy < dh <= sh
    ensures BoxOf(dx, dy, dw, dh, sw, sh) ==
      Box(Cut(dx, sw, dw), Cut(dx + 1, sw, dw), Cut(dy, sh, dh), Cut(dy + 1, sh, dh))
  {
    Cuts(dx, sw, dw);
    Cuts(dy, sh, dh);
  }

  /** One side of a box: it starts in the source cell where the destination cell's start falls; it ends where the next
      one's falls when the destination is no larger, and holds that one cell when it is no smaller. */
  predicate SideOf(i: int, n: int, size: int, x0: int, x1: int) {
    && x0 * n <= i * size < (x0 + 1) * n
    && (n <= size ==> x1 * n <= (i + 1) * size < (x1 + 1) * n)
    && (n >= size ==> x1 == x0 + 1)
  }

  lemma CutIs(i: int, n: int, size: int)
    requires n > 0
    ensures Cut(i, size, n) * n <= i * size < (Cut(i, size, n) + 1) * n
  {
    var (v, q) := (i * size, i * size / n);
    assert v == q * n + v % n && (q + 1) * n == q * n + n;
  }

  lemma OneSide(i: int, n: int, size: int)
    requires 0 <= i < n && size > 0
    ensures SideOf(i, n, size, Cut(i, size, n), End(Cut(i, size, n), Cut(i + 1, size, n), size))
  {
    var (a, b) := (Cut(i, size, n), Cut(i + 1, size, n));
    Cuts(i, size, n);
    CutIs(i, n, size);
    CutIs(i + 1, n, size);
    if n >= size {
      assert (i + 1) * size == i * size + size && (a + 2) * n == (a + 1) * n + n;
      if b > a + 1 {
        MulMono(a + 2, b, n);
      }
    }
  }

  /** Where the box of a destination cell lies, without a division, for every pair of sizes. */
  lemma BoxSides(dx: int, dy: int, dw: int, dh: int, sw: int, sh: int)
    requires 0 <= dx < dw && 0 <= dy < dh && sw > 0 && sh > 0
    ensures
      var b := BoxOf(dx, dy, dw, dh, sw, sh);
      SideOf(dx, dw, sw, b.x0, b.x1) && SideOf(dy, dh, sh, b.y0, b.y1)
  {
    hide SideOf, Cut, End;
    OneSide(dx, dw, sw);
    OneSide(dy, dh, sh);
  }

  /** A box always lies on the source and holds at least one pixel. */
  lemma BoxOnSource(dx: int, dy: int, dw: int, dh: int, sw: int, sh: int)
    requires 0 <= dx < dw && 0 <= dy < dh && 0 < sw && 0 < sh
    ensures
      var b := BoxOf(dx, dy, dw, dh, sw, sh);
      0 <= b.x0 < b.x1 <= sw && 0 <= b.y0 < b.y1 <= sh && 0 < Count(b)
  {
    Cuts(dx, sw, dw);
    Cuts(dy, sh, dh);
    var b := BoxOf(dx, dy, dw, dh, sw, sh);
    MulMono(1, b.x1 - b.x0, b.y1 - b.y0);
  }

  // ---- Sums over boxes ---------------------------------------------------

  lemma {:induction false} RowSumSplit(px: seq<Pixel>, stride: int, c: Channel, y: int, x0: int, x1: int, x2: int)
    requires x0 <= x1 <= x2
    ensures RowSum(px, stride, c, y, x0, x2) == RowSum(px, stride, c, y, x0, x1) + RowSum(px, stride, c, y, x1, x2)
    decreases x2 - x1
  {
    if x1 < x2 {
      RowSumSplit(px, stride, c, y, x0, x1, x2 - 1);
    }
  }

  lemma {:induction false} BoxSumSplitX(px: seq<Pixel>, stride: int, c: Channel, b: Box, x: int)
    requires b.x0 <= x <= b.x1
    ensures BoxSum(px, stride, c, b) == BoxSum(px, stride, c, b.(x1 := x)) + BoxSum(px, stride, c, b.(x0 := x))
    decreases b.y1 - b.y0
  {
    if b.y0 < b.y1 {
      BoxSumSplitX(px, stride, c, b.(y1 := b.y1 - 1), x);
      RowSumSplit(px, stride, c, b.y1 - 1, b.x0, x, b.x1);
    }
  }

  lemma {:induction false} BoxSumSplitY(px: seq<Pixel>, stride: int, c: Channel, b: Box, y: int)
    requires b.y0 <= y <= b.y1
    ensures BoxSum(px, stride, c, b) == BoxSum(px, stride, c, b.(y1 := y)) + BoxSum(px, stride, c, b.(y0 := y))
    decreases b.y1 - y
  {
    if y < b.y1 {
      BoxSumSplitY(px, stride, c, b.(y1 := b.y1 - 1), y);
    }
  }

  /** The boxes of the first `n` destination columns of row `dy`. */
  function RowOfBoxes(px: seq<Pixel>, stride: int, c: Channel, n: int, dy: int, dw: int, dh: int, sw: int,
                      sh: int): (s: int)
    requires 0 <= n <= dw && 0 <= dy && 0 < dw && 0 < dh
    decreases n
  {
    if n == 0 then 0
    else RowOfBoxes(px, stride, c, n - 1, dy, dw, dh, sw, sh) + BoxSum(px, stride, c, BoxOf(n - 1, dy, dw, dh, sw, sh))
  }

  /** The boxes of the first `m` destination rows. */
  function AllBoxes(px: seq<Pixel>, stride: int, c: Channel, m: int, dw: int, dh: int, sw: int, sh: int): (s: int)
    requires 0 <= m <= dh && 0 < dw && 0 < dh
    decreases m
  {
    if m == 0 then 0
    else AllBoxes(px, stride, c, m - 1, dw, dh, sw, sh) + RowOfBoxes(px, stride, c, dw, m - 1, dw, dh, sw, sh)
  }

  lemma EmptyWidth(px: seq<Pixel>, stride: int, c: Channel, x: int, y0: int, y1: int)
    ensures BoxSum(px, stride, c, Box(x, x, y0, y1)) == 0
    decreases y1 - y0
  {
    if y0 < y1 {
      EmptyWidth(px, stride, c, x, y0, y1 - 1);
    }
  }

  lemma {:induction false} RowOfBoxesIsBand(px: seq<Pixel>, stride: int, c: Channel, n: int, dy: int, dw: int, dh: int,
                                            sw: int, sh: int)
    requires 0 <= n <= dw <= sw && 0 <= dy < dh <= sh && 0 < dw
    ensures RowOfBoxes(px, stride, c, n, dy, dw, dh, sw, sh) ==
      BoxSum(px, stride, c, Box(0, Cut(n, sw, dw), Cut(dy, sh, dh), Cut(dy + 1, sh, dh)))
    decreases n
  {
    hide BoxSum, Cut, BoxOf;
    var y0, y1 := Cut(dy, sh, dh), Cut(dy + 1, sh, dh);
    if n == 0 {
      Cuts(0, sw, dw);
      EmptyWidth(px, stride, c, 0, y0, y1);
    } else {
      RowOfBoxesIsBand(px, stride, c, n - 1, dy, dw, dh, sw, sh);
      BoxBetweenCuts(n - 1, dy, dw, dh, sw, sh);
      Cuts(n - 1, sw, dw);
      BoxSumSplitX(px, stride, c, Box(0, Cut(n, sw, dw), y0, y1), Cut(n - 1, sw, dw));
    }
  }

  /** The boxes partition the source: their sums add up to the source's channel total. */
  lemma {:induction false} BoxesPartition(px: seq<Pixel>, stride: int, c: Channel, m: int, dw: int, dh: int, sw: int,
                                          sh: int)
    requires 0 <= m <= dh <= sh && 0 < dw <= sw && 0 < dh
    ensures AllBoxes(px, stride, c, m, dw, dh, sw, sh) == BoxSum(px, stride, c, Box(0, sw, 0, Cut(m, sh, dh)))
    ensures m == dh ==> AllBoxes(px, stride, c, m, dw, dh, sw, sh) == BoxSum(px, stride, c, Box(0, sw, 0, sh))
    decreases m
  {
    hide BoxSum, Cut, BoxOf;
    Cuts(0, sh, dh);
    if m == 0 {
      NoRows(px, stride, c, sw);
    } else {
      BoxesPartition(px, stride, c, m - 1, dw, dh, sw, sh);
      RowOfBoxesIsBand(px, stride, c, dw, m - 1, dw, dh, sw, sh);
      Cuts(0, sw, dw);
      Cuts(m - 1, sh, dh);
      BoxSumSplitY(px, stride, c, Box(0, sw, 0, Cut(m, sh, dh)), Cut(m - 1, sh, dh));
    }
  }

  lemma NoRows(px: seq<Pixel>, stride: int, c: Channel, sw: int)
    ensures BoxSum(px, stride, c, Box(0, sw, 0, 0)) == 0
  {
  }

  /** Bounds on a sum from bounds on the pixels. */
  lemma {:induction false} BoxSumBounds(px: seq<Pixel>, stride: int, c: Channel, b: Box, lo: int, hi: int)
    requires b.x0 <= b.x1 && b.y0 <= b.y1
    requires forall x, y :: b.x0 <= x < b.x1 && b.y0 <= y < b.y1 ==> lo <= Get(Sample(px, stride, x, y), c) <= hi
    ensures lo * Count(b) <= BoxSum(px, stride, c, b) <= hi * Count(b)
    decreases b.y1 - b.y0
  {
    hide Sample;
    var n, m := b.x1 - b.x0, b.y1 - b.y0;
    if m > 0 {
      var b' := b.(y1 := b.y1 - 1);
      BoxSumBounds(px, stride, c, b', lo, hi);
      RowSumBounds(px, stride, c, b.y1 - 1, b.x0, b.x1, lo, hi);
      assert Count(b) == Count(b') + n by {
        assert n * m == n * (m - 1) + n;
      }
      Distribute(lo, Count(b'), n);
      Distribute(hi, Count(b'), n);
    } else {
      assert Count(b) == 0;
    }
  }

  lemma Distribute(a: int, b: int, c: int)
    ensures a * (b + c) == a * b + a * c
  {
  }

  lemma {:induction false} RowSumBounds(px: seq<Pixel>, stride: int, c: Channel, y: int, x0: int, x1: int, lo: int,
                                        hi: int)
    requires x0 <= x1
    requires forall x :: x0 <= x < x1 ==> lo <= Get(Sample(px, stride, x, y), c) <= hi
    ensures lo * (x1 - x0) <= RowSum(px, stride, c, y, x0, x1) <= hi * (x1 - x0)
    decreases x1 - x0
  {
    hide Sample;
    if x0 < x1 {
      RowSumBounds(px, stride, c, y, x0, x1 - 1, lo, hi);
      Distribute(lo, x1 - 1 - x0, 1);
      Distribute(hi, x1 - 1 - x0, 1);
    }
  }

  // ---- The averaged pixel ------------------------------------------------

  const WORD := 0x1_0000_0000

  /** Unsigned 32-bit accumulation: sum and count wrap, and an empty count reads as one. */
  function Average(sum: int, count: int): (v: byte) {
    var n := if Word(count) == 0 then 1 else Word(count);
    Word(sum) / n % 256
  }

  function Averaged(px: seq<Pixel>, stride: int, b: Box): (p: Pixel) {
    var n := Count(b);
    Pixel(Average(BoxSum(px, stride, A, b), n), Average(BoxSum(px, stride, R, b), n),
          Average(BoxSum(px, stride, G, b), n), Average(BoxSum(px, stride, B, b), n))
  }

  const EXACT_BOX := 16843009 // (2^32 - 1) / 255

  /** Up to EXACT_BOX pixels the sums cannot wrap: each channel is the floor of the box's mean and lies between its
      extremes. */
  lemma AverageExact(px: seq<Pixel>, stride: int, c: Channel, b: Box, lo: int, hi: int)
    requires b.x0 < b.x1 && b.y0 < b.y1 && 0 < Count(b) <= EXACT_BOX
    requires forall x, y :: b.x0 <= x < b.x1 && b.y0 <= y < b.y1 ==> lo <= Get(Sample(px, stride, x, y), c) <= hi
    ensures
      var sum := BoxSum(px, stride, c, b);
      Get(Averaged(px, stride, b), c) == sum / Count(b) && lo <= sum / Count(b) <= hi && 0 <= sum < WORD
  {
    hide BoxSum, Sample, Count;
    var n, sum := Count(b), BoxSum(px, stride, c, b);
    BoxSumBounds(px, stride, c, b, 0, 255);
    BoxSumBounds(px, stride, c, b, lo, hi);
    assert sum <= 255 * EXACT_BOX < WORD;
    QuotientBetween(sum, n, lo, hi);
    QuotientBetween(sum, n, 0, 255);
    assert sum % WORD == sum && n % WORD == n;
    assert Average(sum, n) == sum / n;
  }

  lemma QuotientBetween(sum: int, n: int, lo: int, hi: int)
    requires n > 0 && lo * n <= sum <= hi * n
    ensures lo <= sum / n <= hi
  {
    DivMono(lo * n, sum, n);
    DivMono(sum, hi * n, n);
    DivUnique(lo * n, n, lo, 0);
    DivUnique(hi * n, n, hi, 0);
  }

  /** The bound is the best possible: a larger white box (within 32-bit counts) averages to less than white. */
  lemma WhiteBoxWraps(px: seq<Pixel>, stride: int, c: Channel, b: Box)
    requires b.x0 < b.x1 && b.y0 < b.y1 && EXACT_BOX < Count(b) < WORD
    requires forall x, y :: b.x0 <= x < b.x1 && b.y0 <= y < b.y1 ==> Get(Sample(px, stride, x, y), c) == 255
    ensures BoxSum(px, stride, c, b) / Count(b) == 255
    ensures Get(Averaged(px, stride, b), c) < 255
  {
    hide BoxSum, Sample, Count;
    var n, sum := Count(b), BoxSum(px, stride, c, b);
    BoxSumBounds(px, stride, c, b, 255, 255);
    DivUnique(sum, n, 255, 0);
    assert sum == 255 * n >= WORD;
    var wrapped := sum % WORD;
    assert wrapped <= sum - WORD < 255 * n;
    DivBelow(wrapped, n, 255);
    DivMono(0, wrapped, n);
    assert n % WORD == n;
    assert Average(sum, n) == wrapped / n;
  }

  lemma EqualSizesBox(x: int, y: int, w: int, h: int)
    requires 0 <= x < w && 0 <= y < h
    ensures BoxOf(x, y, w, h, w, h) == Box(x, x + 1, y, y + 1)
  {
    Cuts(x, w, w);
    Cuts(y, h, h);
    NextCut(x, w);
    NextCut(y, h);
    hide Cut;
  }

  /** With equal sizes every box is one pixel, and its average is that pixel. */
  lemma EqualSizesCopy(px: seq<Pixel>, stride: int, x: int, y: int, w: int, h: int)
    requires 0 <= x < w && 0 <= y < h
    ensures Averaged(px, stride, BoxOf(x, y, w, h, w, h)) == Sample(px, stride, x, y)
  {
    EqualSizesBox(x, y, w, h);
    var p := Sample(px, stride, x, y);
    OnePixel(px, stride, A, x, y);
    OnePixel(px, stride, R, x, y);
    OnePixel(px, stride, G, x, y);
    OnePixel(px, stride, B, x, y);
    AverageOfOne(p.a);
    AverageOfOne(p.r);
    AverageOfOne(p.g);
    AverageOfOne(p.b);
    hide BoxSum, Sample, BoxOf, Average;
    assert Count(Box(x, x + 1, y, y + 1)) == 1;
  }

  lemma AverageOfOne(v: byte)
    ensures Average(v, 1) == v
  {
  }

  lemma NextCut(i: int, n: int)
    requires 0 <= i < n
    ensures Cut(i + 1, n, n) == i + 1
  {
    DivUnique((i + 1) * n, n, i + 1, 0);
  }

  lemma OnePixel(px: seq<Pixel>, stride: int, c: Channel, x: int, y: int)
    ensures BoxSum(px, stride, c, Box(x, x + 1, y, y + 1)) == Get(Sample(px, stride, x, y), c)
  {
    hide Sample;
    assert BoxSum(px, stride, c, Box(x, x + 1, y, y)) == 0;
    assert RowSum(px, stride, c, y, x, x) == 0;
  }

  // ---- The loops ---------------------------------------------------------

  /** The four channel sums and the pixel count the inner loops keep. */
  datatype Totals = Totals(a: int, r: int, g: int, b: int, n: int)

  /** An unsigned 32-bit value. */
  function Word(x: int): (w: int) {
    x % WORD
  }

  function Wrapped(t: Totals): (w: Totals) {
    Totals(Word(t.a), Word(t.r), Word(t.g), Word(t.b), Word(t.n))
  }

  function Plus(t: Totals, p: Pixel): (s: Totals) {
    Totals(t.a + p.a, t.r + p.r, t.g + p.g, t.b + p.b, t.n + 1)
  }

  lemma WrapPlus(t: Totals, p: Pixel)
    ensures Wrapped(Plus(Wrapped(t), p)) == Wrapped(Plus(t, p))
  {
    hide Word;
    ModPlus(t.a, p.a);
    ModPlus(t.r, p.r);
    ModPlus(t.g, p.g);
    ModPlus(t.b, p.b);
    ModPlus(t.n, 1);
  }

  lemma ModPlus(s: int, v: int)
    ensures Word(Word(s) + v) == Word(s + v)
  {
  }

  /** The exact totals of a box, and of a box together with the start of the next row. */
  function BoxTotals(px: seq<Pixel>, stride: int, b: Box): (t: Totals) {
    Totals(BoxSum(px, stride, A, b), BoxSum(px, stride, R, b), BoxSum(px, stride, G, b), BoxSum(px, stride, B, b),
           Count(b))
  }

  function PartTotals(px: seq<Pixel>, stride: int, b: Box, x: int): (t: Totals) {
    var s := BoxTotals(px, stride, b);
    Totals(s.a + RowSum(px, stride, A, b.y1, b.x0, x), s.r + RowSum(px, stride, R, b.y1, b.x0, x),
           s.g + RowSum(px, stride, G, b.y1, b.x0, x), s.b + RowSum(px, stride, B, b.y1, b.x0, x), s.n + (x - b.x0))
  }

  lemma NoTotals(px: seq<Pixel>, stride: int, b: Box)
    ensures BoxTotals(px, stride, b.(y1 := b.y0)) == Totals(0, 0, 0, 0, 0)
  {
  }

  lemma RowStart(px: seq<Pixel>, stride: int, b: Box)
    ensures PartTotals(px, stride, b, b.x0) == BoxTotals(px, stride, b)
  {
  }

  lemma RowStep(px: seq<Pixel>, stride: int, b: Box, x: int)
    requires b.x0 <= x
    ensures PartTotals(px, stride, b, x + 1) == Plus(PartTotals(px, stride, b, x), Sample(px, stride, x, b.y1))
  {
    hide Sample;
  }

  lemma RowEnd(px: seq<Pixel>, stride: int, b: Box)
    requires b.y0 <= b.y1
    ensures PartTotals(px, stride, b, b.x1) == BoxTotals(px, stride, b.(y1 := b.y1 + 1))
  {
    hide RowSum;
    Distribute(b.x1 - b.x0, b.y1 - b.y0, 1);
  }

  lemma ZeroWord()
    ensures Word(0) == 0
  {
  }

  /** The two inner loops over a box, in 32-bit words. */
  method SumBox(src: Surface, b: Box) returns (t: Totals)
    requires src.Valid() && 0 <= b.x0 < b.x1 <= src.w && 0 <= b.y0 < b.y1 <= src.h
    ensures t == Wrapped(BoxTotals(src.pixels[..], src.stride, b))
  {
    hide Sample, BoxTotals, PartTotals, Word;
    ghost var px := src.pixels[..];
    t := Totals(0, 0, 0, 0, 0);
    NoTotals(px, src.stride, b);
    ZeroWord();
    for sy := b.y0 to b.y1
      invariant t == Wrapped(BoxTotals(px, src.stride, b.(y1 := sy)))
    {
      ghost var part := b.(y1 := sy);
      RowStart(px, src.stride, part);
      for sx := b.x0 to b.x1
        invariant t == Wrapped(PartTotals(px, src.stride, part, sx))
      {
        CellInRange(src.stride, src.w, src.h, sx, sy);
        SampleIs(px, src.stride, sx, sy);
        RowStep(px, src.stride, part, sx);
        WrapPlus(PartTotals(px, src.stride, part, sx), Sample(px, src.stride, sx, sy));
        t := Wrapped(Plus(t, src.pixels[Cell(src.stride, sx, sy)]));
      }
      RowEnd(px, src.stride, part);
    }
    assert b.(y1 := b.y1) == b;
  }

  /** The destination buffer after a downscale: every logical cell is its box's average, padding stays. */
  function ScaledCells(dpx: seq<Pixel>, dw: int, dh: int, dstride: int, spx: seq<Pixel>, sw: int, sh: int,
                       sstride: int): (out: seq<Pixel>)
    requires dstride >= dw > 0 && dh > 0
    ensures |out| == |dpx|
  {
    seq(|dpx|, k requires 0 <= k < |dpx| =>
      var (x, y) := (Column(dstride, k), Row(dstride, k));
      if x < dw && y < dh then Averaged(spx, sstride, BoxOf(x, y, dw, dh, sw, sh)) else dpx[k])
  }

  /** surface_downscale */
  method DownscaleTo(dst: Surface, src: Surface)
    requires dst.w > 0 && dst.h > 0 && src.w > 0 && src.h > 0 ==> dst.Valid() && src.Valid() && dst.pixels != src.pixels
    modifies dst.pixels
    ensures (dst.w <= 0 || dst.h <= 0 || src.w <= 0 || src.h <= 0) && dst.pixels != null ==>
      dst.pixels[..] == old(dst.pixels[..])
    ensures dst.w > 0 && dst.h > 0 && src.w > 0 && src.h > 0 ==>
      dst.pixels[..] ==
      ScaledCells(old(dst.pixels[..]), dst.w, dst.h, dst.stride, src.pixels[..], src.w, src.h, src.stride)
  {
    if dst.w <= 0 || dst.h <= 0 || src.w <= 0 || src.h <= 0 {
      return;
    }
    hide Column, Row, Scanned, BoxOf, BoxTotals, Averaged, ScaledCells;
    var w, h, stride, px := dst.w, dst.h, dst.stride, dst.pixels;
    ghost var was, from := px[..], src.pixels[..];
    ghost var goal := ScaledCells(was, w, h, stride, from, src.w, src.h, src.stride);
    ghost var c := Rect(0, 0, w, h);
    ScaledAre(was, w, h, stride, from, src.w, src.h, src.stride);
    ScanStart(was, goal, stride, c);
    for dy := 0 to h
      invariant Scanned(px[..], was, goal, stride, c, 0, dy) && src.pixels[..] == from
    {
      for dx := 0 to w
        invariant Scanned(px[..], was, goal, stride, c, dx, dy) && src.pixels[..] == from
      {
        var b := BoxOf(dx, dy, w, h, src.w, src.h);
        BoxOnSource(dx, dy, w, h, src.w, src.h);
        var t := SumBox(src, b);
        AverageOf(from, src.stride, b);
        CellInRange(stride, w, h, dx, dy);
        var k := Cell(stride, dx, dy);
        ScanStep(px[..], was, goal, stride, c, dx, dy);
        CellAt(stride, dx, dy, k);
        ghost var before := px[..];
        var n := if t.n == 0 then 1 else t.n;
        px[k] := Pixel(t.a / n % 256, t.r / n % 256, t.g / n % 256, t.b / n % 256);
        assert px[..] == before[k := goal[k]];
      }
      ScanRow(px[..], was, goal, stride, c, dy);
    }
    ScanEnd(px[..], was, goal, stride, c);
  }

  lemma ScaledAre(dpx: seq<Pixel>, dw: int, dh: int, dstride: int, spx: seq<Pixel>, sw: int, sh: int, sstride: int)
    requires dstride >= dw > 0 && dh > 0
    ensures
      var goal := ScaledCells(dpx, dw, dh, dstride, spx, sw, sh, sstride);
      forall k :: 0 <= k < |dpx| ==>
        var (x, y) := (Column(dstride, k), Row(dstride, k));
        goal[k] ==
          if Inside(Rect(0, 0, dw, dh), x, y) then Averaged(spx, sstride, BoxOf(x, y, dw, dh, sw, sh)) else dpx[k]
  {
    forall k | 0 <= k < |dpx| ensures 0 <= Column(dstride, k) && 0 <= Row(dstride, k) {
    }
    hide Column, Row, Averaged, BoxOf;
  }

  lemma AverageOf(px: seq<Pixel>, stride: int, b: Box)
    ensures
      var t := Wrapped(BoxTotals(px, stride, b));
      var n := if t.n == 0 then 1 else t.n;
      Averaged(px, stride, b) == Pixel(t.a / n % 256, t.r / n % 256, t.g / n % 256, t.b / n % 256)
  {
    hide BoxSum, Count;
  }
}
