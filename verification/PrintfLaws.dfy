/** What the printer promises: numbers read back, and where it departs from C99 section 7.19.6.1. */
module PrintfLaws {
  import opened CTypes
  import opened Numerals
  import opened HttpText
  import opened Printf
  import HttpLaws

  /** A padded number is as wide as asked for, or as its digits when they are more. */
  lemma PaddedWidth(u: nat, base: nat, upper: bool, width: int, zero: bool)
    requires 2 <= base <= 16
    ensures
      var n := |Numeral(u, base, upper)|;
      |Padded(u, base, upper, width, zero)| == if width > n then width else n
  {
    hide Numeral;
  }

  lemma ZeroIsDigit(base: nat)
    requires 1 <= base <= 16
    ensures IsDigit(ZERO, base) && DigitValue(ZERO) == Some(0) && Shift(0, base, 0) == 0
  {
  }

  lemma {:induction false} LeadingZeros(k: nat, s: seq<byte>, base: nat)
    requires 1 <= base <= 16 && AllDigits(s, base)
    ensures AllDigits(Repeat(ZERO, k) + s, base) && Value(Repeat(ZERO, k) + s, base) == Value(s, base)
    decreases |s|, k
  {
    hide DigitValue, Shift;
    ZeroIsDigit(base);
    var t := Repeat(ZERO, k) + s;
    assert AllDigits(t, base);
    if s == [] {
      assert t == Repeat(ZERO, k);
      if k > 0 {
        LeadingZeros(k - 1, s, base);
        assert t[..|t| - 1] == Repeat(ZERO, k - 1) + s;
      }
    } else {
      LeadingZeros(k, s[..|s| - 1], base);
      assert t[..|t| - 1] == Repeat(ZERO, k) + s[..|s| - 1];
    }
  }

  /** Digits printed in base 10 or 16, with zeros before them or not, read back to the number. */
  lemma PaddedReadsBack(u: nat, base: nat, upper: bool, width: int)
    requires 2 <= base <= 16
    ensures
      var s := Padded(u, base, upper, width, true);
      AllDigits(s, base) && Value(s, base) == u
  {
    hide Numeral, Value, AllDigits, Repeat;
    var num := Numeral(u, base, upper);
    NumeralReadsBack(u, base, upper);
    LeadingZeros(if width > |num| then width - |num| else 0, num, base);
  }

  // ---- C99 ---------------------------------------------------------------

  /** A field in C99: spaces before everything, or zeros between the sign and the digits, up to the width. */
  function Field(sign: seq<byte>, text: seq<byte>, width: int, zero: bool): (t: seq<byte>) {
    var gap := width - |sign| - |text|;
    var fill := Repeat(PadByte(zero), if gap > 0 then gap else 0);
    if zero then sign + fill + text else fill + sign + text
  }

  function Sign(v: int): (s: seq<byte>) {
    if v < 0 then [MINUS] else []
  }

  /** %d prints what C99 asks for unless the value is negative and the width exceeds its digits. */
  lemma SignedIsStandard(v: int, width: int, zero: bool)
    ensures Convert('d' as int, width, zero, Signed(v)) ==
            Some(Field(Sign(v), Numeral(Magnitude(v), 10, false), width, zero))
      <==> v >= 0 || width <= |Numeral(Magnitude(v), 10, false)|
  {
    hide Numeral;
    var num := Numeral(Magnitude(v), 10, false);
    var out, std := Sign(v) + Padded(Magnitude(v), 10, false, width, zero), Field(Sign(v), num, width, zero);
    if v >= 0 {
      assert out == std;
    } else if width <= |num| {
      assert out == std;
    } else {
      assert |out| == 1 + width && |std| == width;
    }
  }

  /** %u, %x and %X print what C99 asks for, with the zero flag and without. */
  lemma UnsignedIsStandard(u: nat, width: int, zero: bool)
    ensures Convert('u' as int, width, zero, Unsigned(u)) == Some(Field([], Numeral(u, 10, false), width, zero))
    ensures Convert('x' as int, width, zero, Unsigned(u)) == Some(Field([], Numeral(u, 16, false), width, zero))
    ensures Convert('X' as int, width, zero, Unsigned(u)) == Some(Field([], Numeral(u, 16, true), width, zero))
  {
    hide Numeral;
    NoSign(Padded(u, 10, false, width, zero), Numeral(u, 10, false), width, zero);
    NoSign(Padded(u, 16, false, width, zero), Numeral(u, 16, false), width, zero);
    NoSign(Padded(u, 16, true, width, zero), Numeral(u, 16, true), width, zero);
  }

  lemma NoSign(s: seq<byte>, num: seq<byte>, width: int, zero: bool)
    requires s == Repeat(PadByte(zero), if width > |num| then width - |num| else 0) + num
    ensures s == Field([], num, width, zero)
  {
  }

  /** %x and %X print the same digits in different cases. */
  lemma HexCases(u: nat, width: int, zero: bool)
    ensures
      var lower := Convert('x' as int, width, zero, Unsigned(u));
      var upper := Convert('X' as int, width, zero, Unsigned(u));
      SameIgnoringCase(lower.value, upper.value)
  {
    hide Numeral, Repeat;
    DigitCases(u);
    var a, b := Numeral(u, 16, false), Numeral(u, 16, true);
    var fill := Repeat(PadByte(zero), if width > |a| then width - |a| else 0);
    assert Padded(u, 16, false, width, zero) == fill + a && Padded(u, 16, true, width, zero) == fill + b;
  }

  lemma {:induction false} DigitCases(u: nat)
    ensures SameIgnoringCase(Numeral(u, 16, false), Numeral(u, 16, true))
    decreases u
  {
    if u >= 16 {
      ShrinksBy(u, 16);
      DigitCases(u / 16);
    }
  }

  /** %s ignores its width, so it prints what C99 asks for exactly when the text is that wide already. */
  lemma TextIsStandard(s: seq<byte>, width: int)
    ensures Convert('s' as int, width, false, Text(Some(s))) == Some(Field([], s, width, false)) <==> width <= |s|
  {
    if width > |s| {
      assert |Field([], s, width, false)| == width;
    } else {
      assert Field([], s, width, false) == s;
    }
  }

  /** %c ignores its width too. */
  lemma CharIsStandard(v: int, width: int)
    ensures Convert('c' as int, width, false, Signed(v)) == Some(Field([], [v % 256], width, false)) <==> width <= 1
  {
    if width > 1 {
      assert |Field([], [v % 256], width, false)| == width;
    } else {
      assert Field([], [v % 256], width, false) == [v % 256];
    }
  }

  // ---- Reading printed numbers -------------------------------------------

  lemma {:induction false} SpacesAreSkipped(k: nat, s: seq<byte>)
    requires HttpLaws.NoLeadingBlank(s)
    ensures SkipBlanks(Repeat(SPACE, k) + s) == s
  {
    HttpLaws.BlanksAreSkipped(Repeat(SPACE, k), s);
  }

  lemma ReadsDigits(s: seq<byte>, u: nat)
    requires AllDigits(s, 10) && Value(s, 10) == u < 0x8000_0000
    ensures Read(s, 10, 0) == u
  {
    hide AllDigits, Value;
    ReadsValue(s, [], 10);
    assert s + [] == s;
  }

  lemma NoPad(s: seq<byte>)
    ensures Repeat(SPACE, 0) + s == s
  {
  }

  lemma DigitIsNoSign(s: seq<byte>)
    requires s != [] && AllDigits(s, 10)
    ensures s[0] != MINUS && s[0] != 43 && !IsBlank(s[0])
  {
    assert IsDigit(s[0], 10);
  }

  lemma ReadsUnsigned(u: nat, width: int, zero: bool)
    requires u < 0x8000_0000
    ensures ReadLong(Padded(u, 10, false, width, zero)) == u
  {
    hide Numeral, Value, AllDigits, Repeat, Read, SkipBlanks;
    var num := Numeral(u, 10, false);
    NumeralReadsBack(u, 10, false);
    PaddedReadsBack(u, 10, false, width);
    var s := if zero then Padded(u, 10, false, width, true) else num;
    DigitIsNoSign(s);
    ReadsDigits(s, u);
    SpacesAreSkipped(if zero || width <= |num| then 0 else width - |num|, s);
    NoPad(s);
  }

  lemma ReadsNegative(s: seq<byte>)
    ensures ReadLong([MINUS] + s) == Signed32(-Read(s, 10, 0))
  {
    hide Read;
    var t := [MINUS] + s;
    assert t[0] == MINUS && t[1..] == s;
    assert SkipBlanks(t) == t;
  }

  /** After a minus sign, digits or zeros read on; a space ends the number at once. */
  lemma ReadsAfterMinus(u: nat, width: int, zero: bool)
    requires u < 0x8000_0000
    ensures Read(Padded(u, 10, false, width, zero), 10, 0)
      == if zero || width <= |Numeral(u, 10, false)| then u else 0
  {
    hide Numeral, AllDigits, Value;
    var num, s := Numeral(u, 10, false), Padded(u, 10, false, width, zero);
    if zero || width <= |num| {
      hide Read, Repeat;
      NumeralReadsBack(u, 10, false);
      PaddedReadsBack(u, 10, false, width);
      NoPad(num);
      ReadsDigits(if zero then s else num, u);
    } else {
      assert s[0] == SPACE;
    }
  }

  /** The HTTP code's reader gives back every number %d prints, except a negative one padded with spaces. */
  lemma SignedReadsBack(v: int, width: int, zero: bool)
    requires -0x8000_0000 < v < 0x8000_0000
    ensures ReadLong(Convert('d' as int, width, zero, Signed(v)).value) == v
      <==> v >= 0 || zero || width <= |Numeral(Magnitude(v), 10, false)|
  {
    hide Numeral, Read, Padded, ReadLong, Signed32;
    var s := Padded(Magnitude(v), 10, false, width, zero);
    if v >= 0 {
      assert [] + s == s;
      ReadsUnsigned(v, width, zero);
    } else {
      ReadsNegative(s);
      ReadsAfterMinus(-v, width, zero);
      Fits32(v);
      Fits32(0);
    }
  }
}
