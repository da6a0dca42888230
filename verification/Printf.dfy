/** mbedtls_nt4_vsnprintf of net/mbedtls_platform_nt4.c, against a printer without a buffer. */
module Printf {
  import opened CTypes
  import opened Numerals

  const PERCENT: byte := 37
  const ZERO: byte := 48
  const SPACE: byte := 32
  const MINUS: byte := 45

  /** An argument; int and long are both 32 bits on the target. No text stands for a NULL string pointer. */
  datatype Arg = Signed(v: int) | Unsigned(u: nat) | Text(s: Option<seq<byte>>)

  predicate ArgFits(a: Arg) {
    match a
    case Signed(v) => -0x8000_0000 <= v < 0x8000_0000
    case Unsigned(u) => u < 0x1_0000_0000
    case Text(s) => s.Some? ==> 0 !in s.value
  }

  // ---- One conversion ----------------------------------------------------

  function PadByte(zero: bool): (c: byte) {
    if zero then ZERO else SPACE
  }

  /** The digits of a number, padded on the left to a width. */
  function Padded(u: nat, base: nat, upper: bool, width: int, zero: bool): (s: seq<byte>)
    requires 2 <= base <= 16
  {
    var num := Numeral(u, base, upper);
    Repeat(PadByte(zero), if width > |num| then width - |num| else 0) + num
  }

  function Magnitude(v: int): (u: nat) {
    if v < 0 then -v else v
  }

  /** What one argument prints as; undefined when the argument is of another kind. */
  function Convert(conv: byte, width: int, zero: bool, a: Arg): (s: Option<seq<byte>>) {
    if conv == 'c' as int then (if a.Signed? then Some([a.v % 256]) else None)
    else if conv == 's' as int then
      (if a.Text? then Some(if a.s.Some? then a.s.value else Ascii("(null)")) else None)
    else if conv == 'd' as int || conv == 'i' as int then
      (if a.Signed? then Some((if a.v < 0 then [MINUS] else []) + Padded(Magnitude(a.v), 10, false, width, zero))
       else None)
    else if conv == 'u' as int then (if a.Unsigned? then Some(Padded(a.u, 10, false, width, zero)) else None)
    else if conv == 'x' as int then (if a.Unsigned? then Some(Padded(a.u, 16, false, width, zero)) else None)
    else if conv == 'X' as int then (if a.Unsigned? then Some(Padded(a.u, 16, true, width, zero)) else None)
    else None
  }

  predicate TakesArg(conv: byte) {
    || conv == 'c' as int || conv == 's' as int || conv == 'd' as int || conv == 'i' as int
    || conv == 'u' as int || conv == 'x' as int || conv == 'X' as int
  }

  // ---- The format --------------------------------------------------------

  function SkipDigits(s: seq<byte>): (t: seq<byte>)
    ensures |t| <= |s|
    decreases |s|
  {
    if s != [] && 48 <= s[0] <= 57 then SkipDigits(s[1..]) else s
  }

  function SkipOne(s: seq<byte>, c: byte): (t: seq<byte>)
    ensures |t| <= |s|
  {
    if s != [] && s[0] == c then s[1..] else s
  }

  /** A directive after its percent sign: the flag, the width, and the conversion with what follows it. */
  datatype Directive = Directive(zero: bool, width: int, tail: seq<byte>)

  function ReadDirective(s: seq<byte>): (d: Directive)
    ensures |d.tail| <= |s|
  {
    var t := SkipOne(s, ZERO);
    Directive(s != [] && s[0] == ZERO, Read(t, 10, 0), SkipOne(SkipOne(SkipDigits(t), 'l' as int), 'z' as int))
  }

  function Prepend(a: seq<byte>, b: Option<seq<byte>>): (c: Option<seq<byte>>) {
    if b.Some? then Some(a + b.value) else None
  }

  /** Everything a format prints; undefined when an argument is missing or of the wrong kind. */
  function Print(fmt: seq<byte>, args: seq<Arg>): (s: Option<seq<byte>>)
    decreases |fmt|
  {
    if fmt == [] then Some([])
    else if fmt[0] != PERCENT then Prepend([fmt[0]], Print(fmt[1..], args))
    else
      var d := ReadDirective(fmt[1..]);
      if d.tail == [] then Some([PERCENT])
      else
        var c := d.tail[0];
        if c == PERCENT then Prepend([PERCENT], Print(d.tail[1..], args))
        else if !TakesArg(c) then Prepend([PERCENT, c], Print(d.tail[1..], args))
        else if args == [] || Convert(c, d.width, d.zero, args[0]).None? then None
        else Prepend(Convert(c, d.width, d.zero, args[0]).value, Print(d.tail[1..], args[1..]))
  }

  // ---- The bounded printer -----------------------------------------------

  /** The part of the output that fits below `cap` is in the buffer. */
  ghost predicate Holds(buf: array<byte>, cap: nat, text: seq<byte>)
    reads buf
  {
    cap <= buf.Length && forall i :: 0 <= i < |text| && i < cap ==> buf[i] == text[i]
  }

  /** emit */
  method Emit(buf: array<byte>, cap: nat, pos: nat, s: seq<byte>, ghost text: seq<byte>) returns (q: nat)
    requires Holds(buf, cap, text) && pos == |text|
    modifies buf
    ensures Holds(buf, cap, text + s) && q == |text + s|
    ensures buf[cap..] == old(buf[cap..])
  {
    q := pos;
    for i := 0 to |s|
      invariant q == pos + i && Holds(buf, cap, text + s[..i])
      invariant buf[cap..] == old(buf[cap..])
    {
      if q < cap {
        buf[q] := s[i];
      }
      q := q + 1;
      assert text + s[..i + 1] == text + s[..i] + [s[i]];
    }
    assert s[..|s|] == s;
  }

  /** The digits of emit_uint, last one first. */
  method FindDigits(digits: array<byte>, value: nat, base: nat, upper: bool) returns (n: nat)
    requires value < 0x1_0000_0000 && 10 <= base <= 16 && digits.Length == 32
    modifies digits
    ensures n <= digits.Length && Numeral(value, base, upper) == Backwards(digits[..n])
  {
    hide Numeral, Backwards, DigitByte;
    ghost var goal := Numeral(value, base, upper);
    WordLength(value, base, upper);
    assert digits[..0] == [];
    assert goal + Backwards([]) == goal;
    DigitMoves(value, base, upper, []);
    digits[0] := DigitByte(value % base, upper);
    assert digits[..1] == [] + [DigitByte(value % base, upper)];
    var v: nat := value / base;
    n := 1;
    while v != 0 && n < digits.Length
      invariant n + |Remaining(v, base, upper)| == |goal|
      invariant goal == Remaining(v, base, upper) + Backwards(digits[..n])
      decreases digits.Length - n
    {
      ghost var found := digits[..n];
      DigitMoves(v, base, upper, found);
      digits[n] := DigitByte(v % base, upper);
      assert digits[..n + 1] == found + [DigitByte(v % base, upper)];
      n, v := n + 1, v / base;
    }
    assert [] + Backwards(digits[..n]) == Backwards(digits[..n]);
  }

  /** The padding loop. */
  method EmitPad(buf: array<byte>, cap: nat, pos: nat, pad: int, zero: bool, ghost text: seq<byte>) returns (q: nat)
    requires Holds(buf, cap, text) && pos == |text|
    modifies buf
    ensures
      var all := text + Repeat(PadByte(zero), if pad > 0 then pad else 0);
      Holds(buf, cap, all) && q == |all|
    ensures buf[cap..] == old(buf[cap..])
  {
    q := pos;
    var i := 0;
    assert text + Repeat(PadByte(zero), 0) == text;
    while i < pad
      invariant 0 <= i && (i <= pad || i == 0)
      invariant Holds(buf, cap, text + Repeat(PadByte(zero), i)) && q == |text| + i
      invariant buf[cap..] == old(buf[cap..])
    {
      q := Emit(buf, cap, q, [PadByte(zero)], text + Repeat(PadByte(zero), i));
      assert text + Repeat(PadByte(zero), i) + [PadByte(zero)] == text + Repeat(PadByte(zero), i + 1);
      i := i + 1;
    }
  }

  /** emit_uint */
  method EmitUint(buf: array<byte>, cap: nat, pos: nat, value: nat, base: nat, upper: bool, width: int, zero: bool,
                  ghost text: seq<byte>)
    returns (q: nat)
    requires Holds(buf, cap, text) && pos == |text| && value < 0x1_0000_0000 && 10 <= base <= 16
    modifies buf
    ensures Holds(buf, cap, text + Padded(value, base, upper, width, zero))
    ensures q == |text + Padded(value, base, upper, width, zero)|
    ensures buf[cap..] == old(buf[cap..])
  {
    hide Numeral, Holds, Repeat;
    var digits := new byte[32];
    var n := FindDigits(digits, value, base, upper);
    var ds := digits[..n];
    q := EmitPad(buf, cap, pos, width - n, zero, text);
    var rev := new byte[32](i => 0);
    for i := 0 to n
      invariant rev[..i] == Backwards(ds)[..i]
      modifies rev
    {
      rev[i] := ds[n - 1 - i];
    }
    assert rev[..n] == Backwards(ds);
    ghost var pad := Repeat(PadByte(zero), if width - n > 0 then width - n else 0);
    q := Emit(buf, cap, q, rev[..n], text + pad);
    assert text + pad + Backwards(ds) == text + (pad + Backwards(ds));
  }

  /** The width loop. */
  method ScanWidth(fmt: seq<byte>, p: nat) returns (width: int, q: nat)
    requires p <= |fmt|
    ensures p <= q <= |fmt| && width == Read(fmt[p..], 10, 0) && fmt[q..] == SkipDigits(fmt[p..])
  {
    hide Signed32;
    q, width := p, 0;
    while q < |fmt| && 48 <= fmt[q] <= 57
      invariant p <= q <= |fmt|
      invariant Read(fmt[p..], 10, 0) == Read(fmt[q..], 10, width) && SkipDigits(fmt[p..]) == SkipDigits(fmt[q..])
    {
      assert fmt[q..][0] == fmt[q] && fmt[q..][1..] == fmt[q + 1..];
      var d: int := fmt[q];
      width := Signed32(width * 10 + (d - 48));
      q := q + 1;
    }
  }

  method ScanOne(fmt: seq<byte>, p: nat, c: byte) returns (found: bool, q: nat)
    requires p <= |fmt|
    ensures p <= q <= |fmt| && fmt[q..] == SkipOne(fmt[p..], c) && (found <==> p < |fmt| && fmt[p] == c)
  {
    found, q := p < |fmt| && fmt[p] == c, p;
    if found {
      q := p + 1;
    }
  }

  /** The flag, the width and the modifiers of a directive that starts at `p`. */
  method ScanDirective(fmt: seq<byte>, p: nat) returns (zero: bool, width: int, q: nat)
    requires p <= |fmt|
    ensures p <= q <= |fmt| && ReadDirective(fmt[p..]) == Directive(zero, width, fmt[q..])
  {
    hide SkipOne, SkipDigits, Read;
    var skipped;
    zero, q := ScanOne(fmt, p, ZERO);
    width, q := ScanWidth(fmt, q);
    skipped, q := ScanOne(fmt, q, 'l' as int);
    skipped, q := ScanOne(fmt, q, 'z' as int);
  }

  /** What %d makes of its argument before printing digits: negated in 32 bits, then read as unsigned. */
  lemma NegationIsMagnitude(v: int)
    requires -0x8000_0000 <= v < 0x8000_0000
    ensures (if v < 0 then Signed32(-v) else v) % 0x1_0000_0000 == Magnitude(v)
  {
  }

  /** %d and %i */
  method EmitSigned(buf: array<byte>, cap: nat, pos: nat, value: int, width: int, zero: bool, ghost text: seq<byte>)
    returns (q: nat)
    requires Holds(buf, cap, text) && pos == |text| && -0x8000_0000 <= value < 0x8000_0000
    modifies buf
    ensures
      var all := text + ((if value < 0 then [MINUS] else []) + Padded(Magnitude(value), 10, false, width, zero));
      Holds(buf, cap, all) && q == |all|
    ensures buf[cap..] == old(buf[cap..])
  {
    hide Holds, Padded, Signed32;
    q := pos;
    var v := value;
    ghost var sign, num := if value < 0 then [MINUS] else [], Padded(Magnitude(value), 10, false, width, zero);
    NegationIsMagnitude(value);
    if v < 0 {
      q := Emit(buf, cap, q, [MINUS], text);
      v := Signed32(-v);
    }
    assert text + [] == text;
    q := EmitUint(buf, cap, q, v % 0x1_0000_0000, 10, false, width, zero, text + sign);
    assert text + sign + num == text + (sign + num);
  }

  /** The conversions that take an argument. */
  method EmitConversion(buf: array<byte>, cap: nat, pos: nat, conv: byte, width: int, zero: bool, a: Arg,
                        ghost text: seq<byte>)
    returns (q: nat)
    requires Holds(buf, cap, text) && pos == |text| && ArgFits(a) && Convert(conv, width, zero, a).Some?
    modifies buf
    ensures
      var all := text + Convert(conv, width, zero, a).value;
      Holds(buf, cap, all) && q == |all|
    ensures buf[cap..] == old(buf[cap..])
  {
    hide Holds, Padded, Ascii;
    if conv == 'c' as int {
      q := Emit(buf, cap, pos, [a.v % 256], text);
    } else if conv == 's' as int {
      q := Emit(buf, cap, pos, if a.s.Some? then a.s.value else Ascii("(null)"), text);
    } else if conv == 'd' as int || conv == 'i' as int {
      q := EmitSigned(buf, cap, pos, a.v, width, zero, text);
    } else if conv == 'u' as int {
      q := EmitUint(buf, cap, pos, a.u, 10, false, width, zero, text);
    } else if conv == 'x' as int {
      q := EmitUint(buf, cap, pos, a.u, 16, false, width, zero, text);
    } else {
      q := EmitUint(buf, cap, pos, a.u, 16, true, width, zero, text);
    }
  }

  /** What printing has left to do once `text` is out. */
  ghost predicate Left(whole: seq<byte>, text: seq<byte>, fmt: seq<byte>, args: seq<Arg>) {
    Print(fmt, args).Some? && whole == text + Print(fmt, args).value
  }

  lemma AllPrinted(whole: seq<byte>, text: seq<byte>, args: seq<Arg>)
    requires Left(whole, text, [], args)
    ensures whole == text
  {
    assert text + [] == text;
  }

  lemma LeftAfter(whole: seq<byte>, text: seq<byte>, fmt: seq<byte>, args: seq<Arg>,
                  piece: seq<byte>, more: seq<byte>, rest: seq<Arg>)
    requires Left(whole, text, fmt, args) && Print(fmt, args) == Prepend(piece, Print(more, rest))
    ensures Left(whole, text + piece, more, rest)
  {
    hide Print;
    assert text + (piece + Print(more, rest).value) == text + piece + Print(more, rest).value;
  }

  /** One directive, after its percent sign; `piece` is what it prints, and `done` says the format ended in it. */
  method EmitDirective(buf: array<byte>, cap: nat, pos: nat, fmt: seq<byte>, p: nat, args: seq<Arg>, a: nat,
                       ghost text: seq<byte>)
    returns (q: nat, at: nat, next: nat, done: bool, ghost piece: seq<byte>)
    requires Holds(buf, cap, text) && pos == |text| && p < |fmt| && fmt[p] == PERCENT && a <= |args|
    requires (forall i :: 0 <= i < |args| ==> ArgFits(args[i])) && Print(fmt[p..], args[a..]).Some?
    modifies buf
    ensures Holds(buf, cap, text + piece) && q == |text + piece|
    ensures p < at <= |fmt| && a <= next <= |args|
    ensures Print(fmt[p..], args[a..]) == if done then Some(piece) else Prepend(piece, Print(fmt[at..], args[next..]))
    ensures buf[cap..] == old(buf[cap..])
  {
    hide Holds, ReadDirective, Convert, ArgFits;
    var zero, width;
    ghost var s := fmt[p..];
    assert s[1..] == fmt[p + 1..] && s[0] == PERCENT;
    zero, width, at := ScanDirective(fmt, p + 1);
    next, done := a, at == |fmt|;
    if done {
      piece := [PERCENT];
      q := Emit(buf, cap, pos, [PERCENT], text);
      return;
    }
    var c := fmt[at];
    assert fmt[at..][0] == c && fmt[at..][1..] == fmt[at + 1..];
    if c == PERCENT {
      piece := [PERCENT];
      q := Emit(buf, cap, pos, [PERCENT], text);
    } else if TakesArg(c) {
      assert args[a..][0] == args[a] && args[a..][1..] == args[a + 1..];
      piece := Convert(c, width, zero, args[a]).value;
      q := EmitConversion(buf, cap, pos, c, width, zero, args[a], text);
      next := a + 1;
    } else {
      piece := [PERCENT, c];
      q := Emit(buf, cap, pos, [PERCENT], text);
      q := Emit(buf, cap, q, [c], text + [PERCENT]);
      assert text + [PERCENT] + [c] == text + [PERCENT, c];
    }
    at := at + 1;
  }

  /** One turn of the format loop: a directive, or any other byte as it is. */
  method EmitItem(buf: array<byte>, cap: nat, pos: nat, fmt: seq<byte>, p: nat, args: seq<Arg>, a: nat,
                  ghost text: seq<byte>)
    returns (q: nat, at: nat, next: nat, done: bool, ghost piece: seq<byte>)
    requires Holds(buf, cap, text) && pos == |text| && p < |fmt| && a <= |args|
    requires (forall i :: 0 <= i < |args| ==> ArgFits(args[i])) && Print(fmt[p..], args[a..]).Some?
    modifies buf
    ensures Holds(buf, cap, text + piece) && q == |text + piece|
    ensures p < at <= |fmt| && a <= next <= |args|
    ensures Print(fmt[p..], args[a..]) == if done then Some(piece) else Prepend(piece, Print(fmt[at..], args[next..]))
    ensures buf[cap..] == old(buf[cap..])
  {
    hide Holds, ArgFits, ReadDirective, Convert;
    if fmt[p] == PERCENT {
      q, at, next, done, piece := EmitDirective(buf, cap, pos, fmt, p, args, a, text);
    } else {
      assert fmt[p..][0] == fmt[p] && fmt[p..][1..] == fmt[p + 1..];
      at, next, done, piece := p + 1, a, false, [fmt[p]];
      q := Emit(buf, cap, pos, [fmt[p]], text);
    }
  }

  /** The format loop. */
  method EmitAll(buf: array<byte>, cap: nat, fmt: seq<byte>, args: seq<Arg>) returns (r: nat)
    requires cap <= buf.Length && Print(fmt, args).Some? && forall i :: 0 <= i < |args| ==> ArgFits(args[i])
    modifies buf
    ensures Holds(buf, cap, Print(fmt, args).value) && r == |Print(fmt, args).value|
    ensures buf[cap..] == old(buf[cap..])
  {
    hide Print, ArgFits;
    ghost var whole, text := Print(fmt, args).value, [];
    var p, a, done := 0, 0, false;
    r := 0;
    assert fmt[0..] == fmt && args[0..] == args && [] + whole == whole;
    while p < |fmt| && !done
      invariant 0 <= p <= |fmt| && 0 <= a <= |args|
      invariant Holds(buf, cap, text) && r == |text| && buf[cap..] == old(buf[cap..])
      invariant if done then text == whole else Left(whole, text, fmt[p..], args[a..])
      decreases |fmt| - p, !done
    {
      ghost var fs, rest, piece := fmt[p..], args[a..], [];
      r, p, a, done, piece := EmitItem(buf, cap, r, fmt, p, args, a, text);
      if !done {
        LeftAfter(whole, text, fs, rest, piece, fmt[p..], args[a..]);
      }
      text := text + piece;
    }
    if !done {
      assert fmt[p..] == [];
      AllPrinted(whole, text, args[a..]);
    }
  }

  // ---- The size of the buffer --------------------------------------------

  /** The room for characters, computed in an int from a size_t. */
  function Cap(n: nat): (cap: int) {
    if n > 0 then Signed32(n) - 1 else 0
  }

  /** Where the closing NUL goes after `len` characters. */
  function NulAt(len: nat, n: nat): (at: int) {
    if len < Cap(n) then len else Cap(n)
  }

  /** The closing NUL goes into the buffer exactly when the size fits an int; a larger one puts it before the buffer. */
  lemma SizeFitsInt(len: nat, n: nat)
    requires 0 < n < 0x1_0000_0000
    ensures 0 <= NulAt(len, n) < n <==> n < 0x8000_0000
    ensures n < 0x8000_0000 ==> NulAt(len, n) == if len < n then len else n - 1
    ensures n >= 0x8000_0000 ==> NulAt(len, n) < 0
  {
    if n < 0x8000_0000 {
      Fits32(n);
    } else {
      assert n + 0x8000_0000 == 0x1_0000_0000 + (n - 0x8000_0000);
    }
  }

  /** mbedtls_nt4_vsnprintf: returns the length of the whole output; a buffer of any size an int can hold has as much of
      it as fits before the NUL, and nothing beyond the size is touched. */
  method Vsnprintf(buf: array<byte>, n: nat, fmt: seq<byte>, args: seq<Arg>) returns (r: nat)
    requires n < 0x8000_0000
    requires n <= buf.Length && Print(fmt, args).Some? && forall i :: 0 <= i < |args| ==> ArgFits(args[i])
    modifies buf
    ensures
      var whole := Print(fmt, args).value;
      && r == |whole|
      && (n > 0 ==> var m := if r < n then r else n - 1; buf[..m] == whole[..m] && buf[m] == 0)
    ensures buf[n..] == old(buf[n..])
  {
    hide Print, ArgFits, Signed32;
    Fits32(n);
    var cap := if n > 0 then Signed32(n) - 1 else 0;
    r := EmitAll(buf, cap, fmt, args);
    assert buf[n..] == buf[cap..][n - cap..];
    if n > 0 {
      buf[if r < cap then r else cap] := 0;
    }
  }
}
