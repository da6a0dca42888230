/** Written numbers: how the HTTP and printf code writes them, and how the HTTP code reads them. */
module Numerals {
  import opened CTypes

  function DigitByte(d: nat, upper: bool): (c: byte)
    requires d < 16
  {
    if d < 10 then 48 + d else if upper then 55 + d else 87 + d
  }

  /** The digit a byte stands for, letters of either case. */
  function DigitValue(c: byte): (d: Option<nat>)
    ensures d.Some? ==> d.value < 16
  {
    if 48 <= c <= 57 then Some(c - 48)
    else if 97 <= c <= 102 then Some(c - 87)
    else if 65 <= c <= 70 then Some(c - 55)
    else None
  }

  predicate IsDigit(c: byte, base: nat) {
    DigitValue(c).Some? && DigitValue(c).value < base
  }

  /** The shortest way to write a number. */
  function Numeral(v: nat, base: nat, upper: bool): (s: seq<byte>)
    requires 2 <= base <= 16
    ensures s != []
    decreases v
  {
    if v < base then [DigitByte(v, upper)]
    else ShrinksBy(v, base); Numeral(v / base, base, upper) + [DigitByte(v % base, upper)]
  }

  lemma ShrinksBy(v: nat, base: nat)
    requires 2 <= base <= v
    ensures 0 < v / base < v
  {
    var q := v / base;
    assert v == q * base + v % base;
    MulMono(2, base, q);
  }

  predicate AllDigits(s: seq<byte>, base: nat) {
    forall i :: 0 <= i < |s| ==> IsDigit(s[i], base)
  }

  /** A number with one more digit. */
  function Shift(n: int, base: nat, d: nat): (v: int)
    ensures n >= 0 ==> v >= 0
    ensures n >= 0 && base >= 1 ==> v >= n
  {
    if n >= 0 && base >= 1 then MulMono(1, base, n); n * base + d else n * base + d
  }

  lemma ShiftBack(v: nat, base: nat)
    requires base > 0
    ensures Shift(v / base, base, v % base) == v
  {
    assert v == v / base * base + v % base;
  }

  /** The number a digit string stands for. */
  function Value(s: seq<byte>, base: nat): (v: nat)
    requires base <= 16 && AllDigits(s, base)
    decreases |s|
  {
    if s == [] then 0 else Shift(Value(s[..|s| - 1], base), base, DigitValue(s[|s| - 1]).value)
  }

  /** One more digit at the end. */
  lemma ValueOfSnoc(s: seq<byte>, c: byte, base: nat)
    requires base <= 16 && AllDigits(s, base) && IsDigit(c, base)
    ensures AllDigits(s + [c], base) && Value(s + [c], base) == Shift(Value(s, base), base, DigitValue(c).value)
  {
    hide IsDigit, DigitValue;
    var t := s + [c];
    assert t[..|t| - 1] == s;
  }

  lemma ValueOfNone(d: nat, base: nat)
    requires base <= 16
    ensures Shift(Value([], base), base, d) == d
  {
  }

  lemma DigitByteIsDigit(d: nat, base: nat, upper: bool)
    requires d < base <= 16
    ensures IsDigit(DigitByte(d, upper), base) && DigitValue(DigitByte(d, upper)) == Some(d)
    ensures DigitByte(d, upper) == 48 <==> d == 0
  {
  }

  /** A written number reads back, and does not start with a needless zero. */
  lemma {:induction false} NumeralReadsBack(v: nat, base: nat, upper: bool)
    requires 2 <= base <= 16
    ensures
      var s := Numeral(v, base, upper);
      && AllDigits(s, base) && Value(s, base) == v && (v != 0 ==> s[0] != 48)
    decreases v
  {
    hide IsDigit, DigitValue, DigitByte, Value, Shift;
    if v < base {
      DigitByteIsDigit(v, base, upper);
      ValueOfSnoc([], DigitByte(v, upper), base);
      ValueOfNone(v, base);
      assert [] + [DigitByte(v, upper)] == [DigitByte(v, upper)];
    } else {
      ShrinksBy(v, base);
      NumeralReadsBack(v / base, base, upper);
      DigitByteIsDigit(v % base, base, upper);
      ValueOfSnoc(Numeral(v / base, base, upper), DigitByte(v % base, upper), base);
      ShiftBack(v, base);
    }
  }

  /** Base ten is the widest of the two used: 32 bits take at most ten digits. */
  lemma {:induction false} NumeralLength(v: nat, base: nat, upper: bool, limit: nat, k: nat)
    requires 10 <= base <= 16 && v < limit && k >= 1 && limit == Power10(k)
    ensures |Numeral(v, base, upper)| <= k
    decreases k
  {
    assert Power10(0) == 1;
    if v >= base {
      ShrinksBy(v, base);
      assert v / base <= v / 10 by {
        var q := v / base;
        assert v == q * base + v % base;
        MulMono(10, base, q);
      }
      NumeralLength(v / base, base, upper, Power10(k - 1), k - 1);
    }
  }

  function Power10(k: nat): (p: nat)
    ensures p >= 1
  {
    if k == 0 then 1 else 10 * Power10(k - 1)
  }

  lemma WordLength(v: nat, base: nat, upper: bool)
    requires 10 <= base <= 16 && v < 0x1_0000_0000
    ensures |Numeral(v, base, upper)| <= 10
  {
    assert Power10(3) == 1000;
    assert Power10(6) == 1000 * Power10(3);
    assert Power10(10) == 10000 * Power10(6);
    NumeralLength(v, base, upper, Power10(10), 10);
  }

  // ---- Writing digits from the last one ----------------------------------

  function Backwards(s: seq<byte>): (t: seq<byte>)
    ensures |t| == |s|
  {
    seq(|s|, i requires 0 <= i < |s| => s[|s| - 1 - i])
  }

  lemma BackwardsSnoc(s: seq<byte>, c: byte)
    ensures Backwards(s + [c]) == [c] + Backwards(s)
  {
  }

  /** The digits still to be found while `v` is divided down. */
  function Remaining(v: nat, base: nat, upper: bool): (s: seq<byte>)
    requires 2 <= base <= 16
  {
    if v == 0 then [] else Numeral(v, base, upper)
  }

  /** One division moves a digit from those to be found to those found, last one first. */
  lemma DigitMoves(v: nat, base: nat, upper: bool, found: seq<byte>)
    requires 2 <= base <= 16
    ensures Numeral(v, base, upper) + Backwards(found)
      == Remaining(v / base, base, upper) + Backwards(found + [DigitByte(v % base, upper)])
    ensures |Numeral(v, base, upper)| == |Remaining(v / base, base, upper)| + 1
  {
    hide DigitByte, Backwards, Numeral, Remaining;
    var c := DigitByte(v % base, upper);
    BackwardsSnoc(found, c);
    LastDigit(v, base, upper);
  }

  lemma LastDigit(v: nat, base: nat, upper: bool)
    requires 2 <= base <= 16
    ensures Numeral(v, base, upper) == Remaining(v / base, base, upper) + [DigitByte(v % base, upper)]
  {
    hide DigitByte;
    if v >= base {
      ShrinksBy(v, base);
    } else {
      DivUnique(v, base, 0, v);
    }
  }

  // ---- Reading -----------------------------------------------------------

  /** What the reading loops leave in their 32-bit accumulator: they stop at the first byte that is no digit. */
  function Read(s: seq<byte>, base: nat, n: int): (v: int)
    requires base <= 16
    decreases |s|
  {
    if s == [] || !IsDigit(s[0], base) then n
    else Read(s[1..], base, Signed32(Shift(n, base, DigitValue(s[0]).value)))
  }

  /** The wrap-around of a sum depends on its terms modulo 2^32 alone. */
  lemma WrapsOnce(n: nat, base: nat, d: nat)
    ensures Signed32(Shift(Signed32(n), base, d)) == Signed32(Shift(n, base, d))
  {
    var k := (n + 0x8000_0000) / 0x1_0000_0000;
    assert Signed32(n) == n - k * 0x1_0000_0000;
    assert Shift(Signed32(n), base, d) == Shift(n, base, d) - k * base * 0x1_0000_0000 by {
      calc {
        (n - k * 0x1_0000_0000) * base;
        n * base - k * 0x1_0000_0000 * base;
        n * base - k * base * 0x1_0000_0000;
      }
    }
    WrapsAway(Shift(n, base, d), k * base);
  }

  lemma WrapsAway(x: int, m: int)
    ensures Signed32(x - m * 0x1_0000_0000) == Signed32(x)
  {
  }

  /** Reading a digit string of any length gives its value wrapped to 32 bits. */
  lemma {:induction false} ReadsDigits(s: seq<byte>, rest: seq<byte>, base: nat)
    requires 2 <= base <= 16 && AllDigits(s, base)
    ensures Read(s + rest, base, 0) == Read(rest, base, Signed32(Value(s, base)))
    decreases |s|
  {
    if s == [] {
      assert s + rest == rest;
    } else {
      hide IsDigit, DigitValue, Shift, Signed32;
      var t, c := s[..|s| - 1], s[|s| - 1];
      assert s + rest == t + ([c] + rest);
      assert AllDigits(t, base) && IsDigit(c, base);
      ReadsDigits(t, [c] + rest, base);
      ReadsOne(c, rest, base, Value(t, base));
    }
  }

  lemma ReadsOne(c: byte, rest: seq<byte>, base: nat, n: nat)
    requires 2 <= base <= 16 && IsDigit(c, base)
    ensures Read([c] + rest, base, Signed32(n)) == Read(rest, base, Signed32(Shift(n, base, DigitValue(c).value)))
  {
    hide DigitValue, Signed32, Shift;
    WrapsOnce(n, base, DigitValue(c).value);
    assert ([c] + rest)[1..] == rest;
  }

  /** Reading a digit string that fits 31 bits gives its value. */
  lemma ReadsValue(s: seq<byte>, rest: seq<byte>, base: nat)
    requires 2 <= base <= 16 && AllDigits(s, base) && Value(s, base) < 0x8000_0000
    ensures Read(s + rest, base, 0) == Read(rest, base, Value(s, base))
  {
    ReadsDigits(s, rest, base);
    Fits32(Value(s, base));
  }
}
