/** Machine types and operators of the C target that several modules share. */
module CTypes {
  type byte = x: int | 0 <= x < 256

  datatype Option<+T> = None | Some(value: T)

  /** C's integer division for a positive divisor: truncates toward zero. */
  function TruncDiv(a: int, b: int): (q: int)
    requires b > 0
  {
    if a >= 0 then a / b else -((-a) / b)
  }

  /** C's remainder for a positive divisor: takes the sign of the dividend. */
  function TruncMod(a: int, b: int): (r: int)
    requires b > 0
  {
    a - TruncDiv(a, b) * b
  }

  /** A conversion to a signed 8-bit integer. */
  function Signed8(x: int): (s: int)
    ensures -128 <= s < 128
  {
    (x + 128) % 256 - 128
  }

  /** A conversion to a signed 32-bit integer (`int` and `long` on the target). */
  function Signed32(x: int): (s: int)
    ensures -0x8000_0000 <= s < 0x8000_0000
  {
    (x + 0x8000_0000) % 0x1_0000_0000 - 0x8000_0000
  }

  lemma Fits32(x: int)
    requires -0x8000_0000 <= x < 0x8000_0000
    ensures Signed32(x) == x
  {
  }

  /** `n` copies of `x`. */
  function Repeat<T>(x: T, n: nat): (s: seq<T>)
    ensures |s| == n
    ensures forall i :: 0 <= i < n ==> s[i] == x
  {
    seq(n, _ => x)
  }

  /** The bytes of a literal. */
  function Ascii(s: string): (b: seq<byte>)
    ensures |b| == |s|
  {
    seq(|s|, i requires 0 <= i < |s| => s[i] as int % 256)
  }

  /** The bytes of plain text are its characters. */
  lemma AsciiBytes(s: string, i: nat)
    requires i < |s| && s[i] < 128 as char
    ensures Ascii(s)[i] as char == s[i]
  {
  }

  // ---- Facts about products and quotients --------------------------------

  lemma MulMono(a: int, b: int, c: int)
    requires a <= b && c >= 0
    ensures a * c <= b * c
  {
    assert (b - a) * c >= 0;
  }

  lemma SmallMultiple(d: int, w: int)
    requires w > 0 && -w < d * w < w
    ensures d == 0
  {
    if d >= 1 {
      MulMono(1, d, w);
    } else if d <= -1 {
      MulMono(d, -1, w);
    }
  }

  /** A quotient and remainder determine each other. */
  lemma DivUnique(i: int, w: int, q: int, r: int)
    requires w > 0 && 0 <= r < w && i == q * w + r
    ensures i / w == q && i % w == r
  {
    var q', r' := i / w, i % w;
    assert i == q' * w + r';
    assert (q' - q) * w == q' * w - q * w;
    SmallMultiple(q' - q, w);
  }
}
