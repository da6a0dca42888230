/** Formats by their grammar: what the printer makes of every format, piece by piece, and how C99 differs. */
module PrintfFormat {
  import opened CTypes
  import N = Numerals
  import opened Printf
  import L = PrintfLaws

  // ---- The grammar -------------------------------------------------------

  /** What may stand between the percent sign and the letter: the zero flag, the width's digits, and two modifiers. */
  datatype Marks = Marks(zero: bool, width: seq<byte>, long: bool, size: bool)

  /** A piece of a format, with the argument it takes. */
  datatype Piece =
    | Plain(text: seq<byte>)
    | Percent(marks: Marks)
    | Number(marks: Marks, letter: char, arg: Arg)
    | Letter(marks: Marks, arg: Arg)
    | Word(marks: Marks, arg: Arg)
    | Other(marks: Marks, c: byte)

  predicate Decimal(s: seq<byte>) {
    forall i :: 0 <= i < |s| ==> '0' as int <= s[i] <= '9' as int
  }

  /** The digits are read to their end, so a zero in front is the flag. */
  predicate ValidMarks(m: Marks) {
    Decimal(m.width) && (!m.zero && m.width != [] ==> m.width[0] != '0' as int)
  }

  predicate ValidPiece(p: Piece) {
    match p
    case Plain(text) => '%' as int !in text
    case Percent(m) => ValidMarks(m)
    case Number(m, letter, arg) =>
      && ValidMarks(m) && ArgFits(arg)
      && if letter == 'd' || letter == 'i' then arg.Signed? else letter in "uxX" && arg.Unsigned?
    case Letter(m, arg) => ValidMarks(m) && ArgFits(arg) && arg.Signed?
    case Word(m, arg) => ValidMarks(m) && ArgFits(arg) && arg.Text?
    case Other(m, c) =>
      && ValidMarks(m) && ('0' as int <= c <= '9' as int ==> m.long || m.size)
      && c != '%' as int && c != 'c' as int && c != 's' as int && c != 'd' as int && c != 'i' as int
      && c != 'u' as int && c != 'x' as int && c != 'X' as int
      && (c == 'l' as int ==> m.long || m.size) && (c == 'z' as int ==> m.size)
  }

  /** How marks are written. */
  function MarksText(m: Marks): (s: seq<byte>)
    ensures s != [] && s[0] == '%' as int
  {
    ['%' as int] + ((if m.zero then ['0' as int] else [])
    + (m.width + ((if m.long then ['l' as int] else []) + (if m.size then ['z' as int] else []))))
  }

  /** How a piece is written. */
  function PieceText(p: Piece): (s: seq<byte>) {
    match p
    case Plain(text) => text
    case Percent(m) => MarksText(m) + ['%' as int]
    case Number(m, letter, _) => MarksText(m) + [letter as int % 256]
    case Letter(m, _) => MarksText(m) + ['c' as int]
    case Word(m, _) => MarksText(m) + ['s' as int]
    case Other(m, c) => MarksText(m) + [c]
  }

  function FormatText(ps: seq<Piece>): (s: seq<byte>) {
    if ps == [] then [] else PieceText(ps[0]) + FormatText(ps[1..])
  }

  /** A format may break off inside a directive. */
  function EndText(end: Option<Marks>): (s: seq<byte>) {
    if end.Some? then MarksText(end.value) else []
  }

  function ArgOf(p: Piece): (args: seq<Arg>) {
    if p.Number? || p.Letter? || p.Word? then [p.arg] else []
  }

  function ArgsOf(ps: seq<Piece>): (args: seq<Arg>) {
    if ps == [] then [] else ArgOf(ps[0]) + ArgsOf(ps[1..])
  }

  ghost predicate ValidPieces(ps: seq<Piece>) {
    forall i :: 0 <= i < |ps| ==> ValidPiece(ps[i])
  }

  // ---- What it prints ----------------------------------------------------

  /** The number decimal digits stand for. */
  function WidthOf(s: seq<byte>): (w: nat)
    requires Decimal(s)
    decreases |s|
  {
    if s == [] then 0 else WidthOf(s[..|s| - 1]) * 10 + (s[|s| - 1] - '0' as int)
  }

  /** A number in the digits of an alphabet, most significant first. */
  function InDigits(u: nat, alphabet: string): (s: string)
    requires |alphabet| >= 2
    ensures s != ""
    decreases u
  {
    if u < |alphabet| then [alphabet[u]]
    else N.ShrinksBy(u, |alphabet|); InDigits(u / |alphabet|, alphabet) + [alphabet[u % |alphabet|]]
  }

  function Alphabet(letter: char): (alphabet: string)
    ensures |alphabet| >= 2
  {
    if letter == 'x' then "0123456789abcdef" else if letter == 'X' then "0123456789ABCDEF" else "0123456789"
  }

  /** Digits with zeros or spaces before them up to a width. */
  function Filled(digits: seq<byte>, width: int, zero: bool): (s: seq<byte>) {
    Repeat(if zero then '0' as int else ' ' as int, if width > |digits| then width - |digits| else 0) + digits
  }

  function Minus(v: int): (s: seq<byte>) {
    if v < 0 then ['-' as int] else []
  }

  function NumberOf(arg: Arg): (v: int)
    requires !arg.Text?
  {
    if arg.Signed? then arg.v else arg.u
  }

  function Digits(arg: Arg, letter: char): (s: seq<byte>)
    requires !arg.Text?
  {
    var v := NumberOf(arg);
    Ascii(InDigits(if v < 0 then -v else v, Alphabet(letter)))
  }

  /** What a piece prints: numbers in their field after a sign; a character or a text as it is, whatever its width. */
  function Printed(p: Piece): (s: seq<byte>)
    requires ValidPiece(p)
  {
    match p
    case Plain(text) => text
    case Percent(_) => ['%' as int]
    case Number(m, letter, arg) => Minus(NumberOf(arg)) + Filled(Digits(arg, letter), WidthOf(m.width), m.zero)
    case Letter(_, arg) => [arg.v % 256]
    case Word(_, arg) => if arg.s.Some? then arg.s.value else Ascii("(null)")
    case Other(_, c) => ['%' as int, c]
  }

  function AllPrinted(ps: seq<Piece>): (s: seq<byte>)
    requires ValidPieces(ps)
  {
    if ps == [] then [] else Printed(ps[0]) + AllPrinted(ps[1..])
  }

  // ---- C99 ---------------------------------------------------------------

  /** C99 section 7.19.6.1: what a conversion prints, its field of at least the width included. */
  function Standard(p: Piece): (s: seq<byte>)
    requires ValidPiece(p)
  {
    match p
    case Number(m, letter, arg) => StandardNumber(NumberOf(arg), Digits(arg, letter), WidthOf(m.width), m.zero)
    case Letter(m, _) => Spaced(Printed(p), WidthOf(m.width))
    case Word(m, _) => Spaced(Printed(p), WidthOf(m.width))
    case _ => Printed(p)
  }

  /** Zeros go between the sign and the digits, spaces in front of both. */
  function StandardNumber(v: int, digits: seq<byte>, width: int, zero: bool): (s: seq<byte>) {
    var gap := width - |Minus(v)| - |digits|;
    if zero then Minus(v) + Repeat('0' as int, if gap > 0 then gap else 0) + digits
    else Repeat(' ' as int, if gap > 0 then gap else 0) + Minus(v) + digits
  }

  lemma NumberIsStandard(v: int, digits: seq<byte>, width: int, zero: bool)
    ensures Minus(v) + Filled(digits, width, zero) == StandardNumber(v, digits, width, zero)
      <==> v >= 0 || width <= |digits|
  {
    var (s, t) := (Minus(v) + Filled(digits, width, zero), StandardNumber(v, digits, width, zero));
    if v < 0 && width > |digits| {
      assert |s| == 1 + width && |t| == width;
    } else {
      assert s == t;
    }
  }

  function Spaced(text: seq<byte>, width: int): (s: seq<byte>) {
    Repeat(' ' as int, if width > |text| then width - |text| else 0) + text
  }

  /** A piece prints what C99 asks for exactly when it is no negative number wider than its digits, and no character or
      text narrower than its width. */
  lemma PieceIsStandard(p: Piece)
    requires ValidPiece(p)
    ensures Printed(p) == Standard(p) <==>
      match p
      case Number(m, letter, arg) => NumberOf(arg) >= 0 || WidthOf(m.width) <= |Digits(arg, letter)|
      case Letter(m, _) => WidthOf(m.width) <= 1
      case Word(m, _) => WidthOf(m.width) <= |Printed(p)|
      case _ => true
  {
    hide InDigits, WidthOf, Ascii, Digits, Filled, Minus, Spaced, ArgFits;
    match p
    case Number(m, letter, arg) => NumberIsStandard(NumberOf(arg), Digits(arg, letter), WidthOf(m.width), m.zero);
    case Letter(m, _) => SpacedIsWider(Printed(p), WidthOf(m.width));
    case Word(m, _) => SpacedIsWider(Printed(p), WidthOf(m.width));
    case _ =>
  }

  lemma SpacedIsWider(text: seq<byte>, width: int)
    ensures Spaced(text, width) == text <==> width <= |text|
  {
    if width > |text| {
      assert |Spaced(text, width)| == width;
    }
  }

  // ---- Numbers -----------------------------------------------------------

  lemma {:induction false} DigitsAgree(u: nat, letter: char)
    ensures Ascii(InDigits(u, Alphabet(letter))) == N.Numeral(u, |Alphabet(letter)|, letter == 'X')
    decreases u
  {
    var a := Alphabet(letter);
    forall d | 0 <= d < |a| ensures a[d] as int % 256 == N.DigitByte(d, letter == 'X') {
    }
    if u >= |a| {
      N.ShrinksBy(u, |a|);
      DigitsAgree(u / |a|, letter);
    }
  }

  lemma {:induction false} WidthIsValue(s: seq<byte>)
    requires Decimal(s)
    ensures N.AllDigits(s, 10) && N.Value(s, 10) == WidthOf(s)
    decreases |s|
  {
    if s != [] {
      WidthIsValue(s[..|s| - 1]);
    }
  }

  // ---- Reading a directive -----------------------------------------------

  /** What comes after marks is not taken for one of them. */
  predicate Ends(m: Marks, rest: seq<byte>) {
    rest != [] ==>
      && ('0' as int <= rest[0] <= '9' as int ==> m.long || m.size)
      && (rest[0] == 'l' as int ==> m.long || m.size) && (rest[0] == 'z' as int ==> m.size)
  }

  lemma {:induction false} DigitsSkipped(w: seq<byte>, rest: seq<byte>)
    requires Decimal(w) && (rest != [] ==> !('0' as int <= rest[0] <= '9' as int))
    ensures SkipDigits(w + rest) == rest
    decreases |w|
  {
    if w == [] {
      assert w + rest == rest;
    } else {
      assert (w + rest)[1..] == w[1..] + rest;
      DigitsSkipped(w[1..], rest);
    }
  }

  lemma WidthIsRead(w: seq<byte>, rest: seq<byte>)
    requires Decimal(w) && WidthOf(w) < 0x8000_0000 && (rest != [] ==> !('0' as int <= rest[0] <= '9' as int))
    ensures N.Read(w + rest, 10, 0) == WidthOf(w)
  {
    WidthIsValue(w);
    N.ReadsValue(w, rest, 10);
  }

  lemma ModifiersSkipped(long: bool, size: bool, rest: seq<byte>)
    requires Ends(Marks(false, [], long, size), rest)
    ensures
      var l: seq<byte> := if long then ['l' as int] else [];
      var z: seq<byte> := if size then ['z' as int] else [];
      SkipOne(SkipOne(l + (z + rest), 'l' as int), 'z' as int) == rest
  {
    var l: seq<byte> := if long then ['l' as int] else [];
    var z: seq<byte> := if size then ['z' as int] else [];
    assert l + (z + rest) == if long then ['l' as int] + (z + rest) else z + rest;
    assert z + rest == if size then ['z' as int] + rest else rest;
    assert SkipOne(l + (z + rest), 'l' as int) == z + rest;
  }

  /** The flag, the width and the modifiers are read as written. */
  lemma MarksAreRead(m: Marks, rest: seq<byte>)
    requires ValidMarks(m) && WidthOf(m.width) < 0x8000_0000 && Ends(m, rest)
    ensures ReadDirective((MarksText(m) + rest)[1..]) == Directive(m.zero, WidthOf(m.width), rest)
    ensures (MarksText(m) + rest)[0] == '%' as int
  {
    hide SkipOne, SkipDigits, N.Read, WidthOf, MarksText, Ends, Decimal;
    var l: seq<byte> := if m.long then ['l' as int] else [];
    var z: seq<byte> := if m.size then ['z' as int] else [];
    var tail := l + (z + rest);
    AfterPercent(m, rest);
    FlagSkipped(m, tail);
    WidthIsRead(m.width, tail);
    DigitsSkipped(m.width, tail);
    ModifiersSkipped(m.long, m.size, rest);
  }

  lemma AfterPercent(m: Marks, rest: seq<byte>)
    requires Ends(m, rest)
    ensures
      var flag: seq<byte> := if m.zero then ['0' as int] else [];
      var l: seq<byte> := if m.long then ['l' as int] else [];
      var z: seq<byte> := if m.size then ['z' as int] else [];
      var tail := l + (z + rest);
      && (MarksText(m) + rest)[1..] == flag + (m.width + tail)
      && (tail != [] ==> !('0' as int <= tail[0] <= '9' as int))
    ensures Ends(Marks(false, [], m.long, m.size), rest)
  {
    var flag: seq<byte> := if m.zero then ['0' as int] else [];
    var l: seq<byte> := if m.long then ['l' as int] else [];
    var z: seq<byte> := if m.size then ['z' as int] else [];
    assert MarksText(m) + rest == ['%' as int] + (flag + (m.width + (l + (z + rest))));
  }

  lemma FlagSkipped(m: Marks, tail: seq<byte>)
    requires ValidMarks(m) && (tail != [] ==> !('0' as int <= tail[0] <= '9' as int))
    ensures
      var s := (if m.zero then ['0' as int] else []) + (m.width + tail);
      SkipOne(s, ZERO) == m.width + tail && (s != [] && s[0] == ZERO <==> m.zero)
  {
    var s := (if m.zero then ['0' as int] else []) + (m.width + tail);
    if m.zero {
      assert s[1..] == m.width + tail;
    } else {
      assert s == m.width + tail;
      assert s != [] ==> s[0] == if m.width != [] then m.width[0] else tail[0];
    }
  }

  // ---- Printing ----------------------------------------------------------

  lemma {:induction false} PlainPrinted(text: seq<byte>, rest: seq<byte>, args: seq<Arg>)
    requires '%' as int !in text
    ensures Print(text + rest, args) == Prepend(text, Print(rest, args))
    decreases |text|
  {
    if text == [] {
      assert text + rest == rest;
      if Print(rest, args).Some? {
        assert [] + Print(rest, args).value == Print(rest, args).value;
      }
    } else {
      assert (text + rest)[1..] == text[1..] + rest;
      PlainPrinted(text[1..], rest, args);
      if Print(rest, args).Some? {
        var s := Print(rest, args).value;
        assert [text[0]] + (text[1..] + s) == text + s;
      }
    }
  }

  /** The byte after the marks of a directive. */
  function LetterOf(p: Piece): (c: byte)
    requires !p.Plain?
  {
    match p
    case Percent(_) => '%' as int
    case Number(_, letter, _) => letter as int % 256
    case Letter(_, _) => 'c' as int
    case Word(_, _) => 's' as int
    case Other(_, c) => c
  }

  /** What the conversion of an argument gives is what the piece prints. */
  lemma ConvertPrints(p: Piece)
    requires ValidPiece(p) && (p.Number? || p.Letter? || p.Word?)
    ensures TakesArg(LetterOf(p)) && LetterOf(p) != PERCENT
    ensures Convert(LetterOf(p), WidthOf(p.marks.width), p.marks.zero, p.arg) == Some(Printed(p))
  {
    hide N.Numeral, InDigits, WidthOf, Ascii;
    if p.Number? {
      var v := NumberOf(p.arg);
      DigitsAgree(if v < 0 then -v else v, p.letter);
      var s := Filled(Digits(p.arg, p.letter), WidthOf(p.marks.width), p.marks.zero);
      var u: nat := if v < 0 then -v else v;
      assert s == Padded(u, |Alphabet(p.letter)|, p.letter == 'X', WidthOf(p.marks.width), p.marks.zero);
      assert [] + s == s;
    }
  }

  lemma PieceEnds(p: Piece, rest: seq<byte>)
    requires ValidPiece(p) && !p.Plain?
    ensures Ends(p.marks, [LetterOf(p)] + rest)
  {
  }

  /** A directive prints its piece, and the format goes on after it. */
  lemma DirectivePrinted(p: Piece, rest: seq<byte>, args: seq<Arg>)
    requires ValidPiece(p) && !p.Plain? && WidthOf(p.marks.width) < 0x8000_0000
    ensures Print(PieceText(p) + rest, ArgOf(p) + args) == Prepend(Printed(p), Print(rest, args))
  {
    hide ReadDirective, Convert, WidthOf, Ends, MarksText, Printed;
    var (c, all) := (LetterOf(p), ArgOf(p) + args);
    var tail := [c] + rest;
    PieceEnds(p, rest);
    MarksAreRead(p.marks, tail);
    assert PieceText(p) + rest == MarksText(p.marks) + tail;
    assert tail[1..] == rest;
    PrintDirective(PieceText(p) + rest, all);
    if p.Number? || p.Letter? || p.Word? {
      ConvertPrints(p);
      assert all[0] == p.arg && all[1..] == args;
    } else {
      assert all == args;
      NoArgument(p);
    }
  }

  lemma NoArgument(p: Piece)
    requires ValidPiece(p) && (p.Percent? || p.Other?)
    ensures p.Percent? ==> LetterOf(p) == PERCENT && Printed(p) == [PERCENT]
    ensures p.Other? ==> LetterOf(p) != PERCENT && !TakesArg(LetterOf(p)) && Printed(p) == [PERCENT, LetterOf(p)]
  {
  }

  lemma PrintDirective(fmt: seq<byte>, args: seq<Arg>)
    requires fmt != [] && fmt[0] == PERCENT && ReadDirective(fmt[1..]).tail != []
    ensures
      var d := ReadDirective(fmt[1..]);
      var (c, more) := (d.tail[0], d.tail[1..]);
      Print(fmt, args) ==
        if c == PERCENT then Prepend([PERCENT], Print(more, args))
        else if !TakesArg(c) then Prepend([PERCENT, c], Print(more, args))
        else if args == [] || Convert(c, d.width, d.zero, args[0]).None? then None
        else Prepend(Convert(c, d.width, d.zero, args[0]).value, Print(more, args[1..]))
  {
    hide ReadDirective, Convert, TakesArg;
  }

  /** Every width fits an int. */
  ghost predicate WidthsFit(ps: seq<Piece>)
    requires ValidPieces(ps)
  {
    forall i :: 0 <= i < |ps| && !ps[i].Plain? ==> WidthOf(ps[i].marks.width) < 0x8000_0000
  }

  /**
   * What a format prints: its plain text as it is, each directive what its piece prints, in order, each conversion
   * taking the next argument; arguments left over are not looked at, and a directive broken off at the end prints its
   * percent.
   */
  lemma {:induction false} FormatPrints(ps: seq<Piece>, end: Option<Marks>, extra: seq<Arg>)
    requires ValidPieces(ps) && WidthsFit(ps)
    requires end.Some? ==> ValidMarks(end.value) && WidthOf(end.value.width) < 0x8000_0000
    ensures Print(FormatText(ps) + EndText(end), ArgsOf(ps) + extra) ==
      Some(AllPrinted(ps) + if end.Some? then ['%' as int] else [])
    decreases |ps|
  {
    hide Print, PieceText, Printed, WidthOf, ValidPiece, EndText, ArgOf;
    var last: seq<byte> := if end.Some? then ['%' as int] else [];
    if ps == [] {
      EndPrints(end, extra);
      assert [] + EndText(end) == EndText(end) && [] + extra == extra && [] + last == last;
    } else {
      var (p, more, args) := (ps[0], FormatText(ps[1..]), ArgsOf(ps[1..]));
      Regroup(PieceText(p), more, EndText(end));
      Regroup(ArgOf(p), args, extra);
      FormatPrints(ps[1..], end, extra);
      PiecePrints(p, more + EndText(end), args + extra);
      Regroup(Printed(p), AllPrinted(ps[1..]), last);
    }
  }

  lemma Regroup<T>(a: seq<T>, b: seq<T>, c: seq<T>)
    ensures a + b + c == a + (b + c)
  {
  }

  lemma PiecePrints(p: Piece, rest: seq<byte>, args: seq<Arg>)
    requires ValidPiece(p) && (!p.Plain? ==> WidthOf(p.marks.width) < 0x8000_0000)
    ensures Print(PieceText(p) + rest, ArgOf(p) + args) == Prepend(Printed(p), Print(rest, args))
  {
    hide Print, WidthOf;
    if p.Plain? {
      PlainPrinted(p.text, rest, args);
      assert ArgOf(p) + args == args;
    } else {
      DirectivePrinted(p, rest, args);
    }
  }

  lemma EndPrints(end: Option<Marks>, args: seq<Arg>)
    requires end.Some? ==> ValidMarks(end.value) && WidthOf(end.value.width) < 0x8000_0000
    ensures Print(EndText(end), args) == Some(if end.Some? then ['%' as int] else [])
  {
    hide ReadDirective, MarksText, WidthOf;
    if end.Some? {
      MarksAreRead(end.value, []);
      var s := EndText(end);
      assert MarksText(end.value) + [] == s;
      assert ReadDirective(s[1..]).tail == [];
    }
  }

  // ---- Every format is made of pieces ------------------------------------

  lemma {:induction false} SplitDigits(s: seq<byte>) returns (w: seq<byte>)
    ensures Decimal(w) && s == w + SkipDigits(s)
    ensures SkipDigits(s) != [] ==> !('0' as int <= SkipDigits(s)[0] <= '9' as int)
    decreases |s|
  {
    if s != [] && '0' as int <= s[0] <= '9' as int {
      w := SplitDigits(s[1..]);
      w := [s[0]] + w;
      assert s == [s[0]] + s[1..];
    } else {
      w := [];
    }
  }

  /** The marks of a directive, from its text after the percent sign. */
  lemma SplitMarks(s: seq<byte>) returns (m: Marks)
    ensures ValidMarks(m) && ['%' as int] + s == MarksText(m) + ReadDirective(s).tail && Ends(m, ReadDirective(s).tail)
  {
    hide SkipDigits, SkipOne, N.Read;
    var t := SkipOne(s, ZERO);
    var w := SplitDigits(t);
    var u := SkipDigits(t);
    var v := SkipOne(u, 'l' as int);
    var rest := SkipOne(v, 'z' as int);
    m := Marks(s != [] && s[0] == ZERO, w, u != [] && u[0] == 'l' as int, v != [] && v[0] == 'z' as int);
    SkippedOne(s, ZERO);
    SkippedOne(u, 'l' as int);
    SkippedOne(v, 'z' as int);
    Reassembled(m, s, t, u, v, rest);
    EndsHere(m, u, v, rest);
  }

  lemma SkippedOne(s: seq<byte>, c: byte)
    ensures s == (if s != [] && s[0] == c then [c] else []) + SkipOne(s, c)
    ensures !(s != [] && s[0] == c) ==> SkipOne(s, c) == s
  {
  }

  lemma Reassembled(m: Marks, s: seq<byte>, t: seq<byte>, u: seq<byte>, v: seq<byte>, rest: seq<byte>)
    requires s == (if m.zero then ['0' as int] else []) + t && t == m.width + u
    requires u == (if m.long then ['l' as int] else []) + v && v == (if m.size then ['z' as int] else []) + rest
    ensures ['%' as int] + s == MarksText(m) + rest
  {
    var flag: seq<byte> := if m.zero then ['0' as int] else [];
    var l: seq<byte> := if m.long then ['l' as int] else [];
    var z: seq<byte> := if m.size then ['z' as int] else [];
    assert ['%' as int] + (flag + (m.width + (l + (z + rest)))) == ['%' as int] + (flag + (m.width + (l + z))) + rest;
  }

  lemma EndsHere(m: Marks, u: seq<byte>, v: seq<byte>, rest: seq<byte>)
    requires u != [] ==> !('0' as int <= u[0] <= '9' as int)
    requires v == SkipOne(u, 'l' as int) && rest == SkipOne(v, 'z' as int)
    requires (m.long <==> u != [] && u[0] == 'l' as int) && (m.size <==> v != [] && v[0] == 'z' as int)
    ensures Ends(m, rest)
  {
  }

  /** The piece of a directive that is not broken off. */
  lemma SplitPiece(m: Marks, rest: seq<byte>, args: seq<Arg>) returns (p: Piece)
    requires ValidMarks(m) && Ends(m, rest) && rest != [] && forall i :: 0 <= i < |args| ==> ArgFits(args[i])
    requires TakesArg(rest[0]) ==> args != [] && Convert(rest[0], 0, false, args[0]).Some?
    ensures ValidPiece(p) && !p.Plain? && p.marks == m && PieceText(p) == MarksText(m) + [rest[0]]
    ensures ArgOf(p) == if TakesArg(rest[0]) then [args[0]] else []
  {
    hide MarksText, ArgFits, ValidMarks, Padded;
    var c := rest[0];
    if c == '%' as int {
      p := Percent(m);
    } else if !TakesArg(c) {
      p := Other(m, c);
    } else if c == 'c' as int {
      p := Letter(m, args[0]);
    } else if c == 's' as int {
      p := Word(m, args[0]);
    } else {
      p := Number(m, c as char, args[0]);
    }
  }

  lemma ConvertAnyWidth(c: byte, width: int, zero: bool, a: Arg)
    ensures Convert(c, width, zero, a).Some? <==> Convert(c, 0, false, a).Some?
  {
    hide Padded;
  }

  /** Every format the printer has the arguments for is pieces, with or without a directive broken off at the end. */
  lemma {:induction false} EveryFormat(fmt: seq<byte>, args: seq<Arg>)
    returns (ps: seq<Piece>, end: Option<Marks>, extra: seq<Arg>)
    requires Print(fmt, args).Some? && forall i :: 0 <= i < |args| ==> ArgFits(args[i])
    ensures ValidPieces(ps) && (end.Some? ==> ValidMarks(end.value))
    ensures fmt == FormatText(ps) + EndText(end) && args == ArgsOf(ps) + extra
    decreases |fmt|
  {
    hide MarksText, PieceText, ValidPiece, ReadDirective, Convert, ArgFits, ValidMarks, Ends, ArgOf, EndText;
    if fmt == [] {
      ps, end, extra := [], None, args;
      NoEnd();
    } else if fmt[0] != PERCENT {
      ps, end, extra := EveryFormat(fmt[1..], args);
      PlainByte(fmt[0]);
      Front(Plain([fmt[0]]), ps, end, fmt[1..], args, extra);
      ps := [Plain([fmt[0]])] + ps;
      assert fmt == [fmt[0]] + fmt[1..];
    } else {
      var m := SplitMarks(fmt[1..]);
      var d := ReadDirective(fmt[1..]);
      assert fmt == [fmt[0]] + fmt[1..];
      if d.tail == [] {
        ps, end, extra := [], Some(m), args;
        BrokenOff(m);
        assert [] + args == args;
      } else {
        var p, left := FirstDirective(fmt, args, m);
        ps, end, extra := EveryFormat(d.tail[1..], left);
        Front(p, ps, end, d.tail[1..], left, extra);
        ps := [p] + ps;
      }
    }
  }

  /** The first directive of a format, when it is not broken off. */
  lemma FirstDirective(fmt: seq<byte>, args: seq<Arg>, m: Marks) returns (p: Piece, left: seq<Arg>)
    requires Print(fmt, args).Some? && forall i :: 0 <= i < |args| ==> ArgFits(args[i])
    requires fmt != [] && fmt[0] == PERCENT && ReadDirective(fmt[1..]).tail != [] && ValidMarks(m)
    requires fmt == MarksText(m) + ReadDirective(fmt[1..]).tail && Ends(m, ReadDirective(fmt[1..]).tail)
    ensures ValidPiece(p) && args == ArgOf(p) + left && |left| <= |args|
    ensures forall i :: 0 <= i < |left| ==> ArgFits(left[i])
    ensures fmt == PieceText(p) + ReadDirective(fmt[1..]).tail[1..]
    ensures Print(ReadDirective(fmt[1..]).tail[1..], left).Some?
  {
    hide MarksText, PieceText, ValidPiece, ReadDirective, Convert, ArgFits, ValidMarks, Ends, ArgOf, Print, TakesArg;
    var d := ReadDirective(fmt[1..]);
    var (c, more) := (d.tail[0], d.tail[1..]);
    PrintDirective(fmt, args);
    PercentTakesNone();
    if TakesArg(c) {
      ConvertAnyWidth(c, d.width, d.zero, args[0]);
    }
    p := SplitPiece(m, d.tail, args);
    left := if TakesArg(c) then args[1..] else args;
    assert d.tail == [c] + more && args == (if TakesArg(c) then [args[0]] else []) + left;
    Regroup(MarksText(m), [c], more);
  }

  lemma NoEnd()
    ensures FormatText([]) + EndText(None) == []
  {
  }

  lemma BrokenOff(m: Marks)
    ensures FormatText([]) + EndText(Some(m)) == MarksText(m) + []
  {
  }

  lemma PercentTakesNone()
    ensures !TakesArg(PERCENT)
  {
  }

  lemma PlainByte(c: byte)
    requires c != PERCENT
    ensures ValidPiece(Plain([c])) && PieceText(Plain([c])) == [c] && ArgOf(Plain([c])) == []
  {
  }

  /** One more piece in front. */
  lemma Front(p: Piece, ps: seq<Piece>, end: Option<Marks>, fmt: seq<byte>, args: seq<Arg>, extra: seq<Arg>)
    requires ValidPiece(p) && ValidPieces(ps) && fmt == FormatText(ps) + EndText(end) && args == ArgsOf(ps) + extra
    ensures ValidPieces([p] + ps)
    ensures FormatText([p] + ps) + EndText(end) == PieceText(p) + fmt && ArgsOf([p] + ps) + extra == ArgOf(p) + args
  {
    hide PieceText, ValidPiece, EndText, ArgOf;
    assert ([p] + ps)[1..] == ps;
    Regroup(PieceText(p), FormatText(ps), EndText(end));
    Regroup(ArgOf(p), ArgsOf(ps), extra);
  }

  // ---- The function ------------------------------------------------------

  /** mbedtls_nt4_snprintf: the whole length, and of the text the pieces print as much as fits, with a NUL after it. */
  method Snprintf(buf: array<byte>, n: nat, fmt: seq<byte>, args: seq<Arg>, ghost ps: seq<Piece>,
                  ghost end: Option<Marks>, ghost extra: seq<Arg>)
    returns (r: nat)
    requires n < 0x8000_0000 && n <= buf.Length && forall i :: 0 <= i < |args| ==> ArgFits(args[i])
    requires ValidPieces(ps) && WidthsFit(ps)
    requires end.Some? ==> ValidMarks(end.value) && WidthOf(end.value.width) < 0x8000_0000
    requires fmt == FormatText(ps) + EndText(end) && args == ArgsOf(ps) + extra
    modifies buf
    ensures
      var whole := AllPrinted(ps) + if end.Some? then ['%' as int] else [];
      && r == |whole|
      && (n > 0 ==> var m := if r < n then r else n - 1; buf[..m] == whole[..m] && buf[m] == 0)
    ensures buf[n..] == old(buf[n..])
  {
    hide Print, WidthOf, ValidPiece, ArgFits, FormatText, ArgsOf, EndText, AllPrinted;
    FormatPrints(ps, end, extra);
    r := Vsnprintf(buf, n, fmt, args);
  }
}
