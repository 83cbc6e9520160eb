/** What the conversions of the formatter print, letter by letter, with bases and ranges written out, and how
    directives are written. */
module NeoLaws {
  import opened Basics
  import opened Bits
  import opened NeoNumbers
  import opened NeoFormat

  // ---- Digits ----------------------------------------------------------------------------

  /** The digits are in the order of the character set: `0` to `9`, then `a` to `f` or `A` to `F`. */
  lemma DigitsInOrder(d: nat, upper: bool)
    requires d < 16
    ensures Digit(d, upper) as int == if d < 10 then 48 + d else if upper then 55 + d else 87 + d
  {
    assert d < 10 ==> Digit(d, upper) == "0123456789"[d];
    assert d >= 10 ==> Digit(d, upper) == (if upper then "ABCDEF" else "abcdef")[d - 10];
  }

  /** A digit below the base, lower or upper case. */
  predicate IsDigitOf(c: char, base: nat, upper: bool) {
    var n := c as int;
    48 <= n < 48 + (if base < 10 then base else 10) || (upper && 65 <= n < 55 + base) || (!upper && 97 <= n < 87 + base)
  }

  lemma DigitOf(c: char, base: nat, upper: bool)
    requires base <= 16 && IsDigit(c, base, upper)
    ensures IsDigitOf(c, base, upper)
  {
    var d :| 0 <= d < base && c == Digit(d, upper);
    DigitsInOrder(d, upper);
  }

  // ---- Numbers ---------------------------------------------------------------------------

  /** `v` is what is left of `n` in a signed 32-bit, or with two `l` 64-bit, integer. */
  predicate SignedOf(n: int, v: int, long: nat) {
    if long == 2 then -0x8000_0000_0000_0000 <= v < 0x8000_0000_0000_0000 && (n - v) % 0x1_0000_0000_0000_0000 == 0
    else -0x8000_0000 <= v < 0x8000_0000 && (n - v) % 0x1_0000_0000 == 0
  }

  lemma SignedIs(n: int, v: int, long: nat)
    requires SignedOf(n, v, long)
    ensures Signed(n, if long == 2 then 64 else 32) == v
  {
  }

  /** `%d` and `%i`: stripped of blanks and read in base 10 the text is the number, unless it is negative and the
      precision is longer than its sign and digits. */
  lemma SignedConversion(d: Directive, n: int, rest: seq<Arg>, v: int)
    requires (d.spec == 'd' || d.spec == 'i') && SignedOf(n, v, d.long)
    ensures SignedValue(Strip(Piece(d, [Number(n)] + rest)), 10) == v <==>
      !(v < 0 && d.prec > 1 + |Numeral(-v, 10, false)|)
  {
    SignedNumber(d, n, rest, v);
    PieceReadsBack(d, [Number(n)] + rest);
  }

  lemma SignedNumber(d: Directive, n: int, rest: seq<Arg>, v: int)
    requires (d.spec == 'd' || d.spec == 'i') && SignedOf(n, v, d.long)
    ensures IsNumeric(d.spec) && IsSigned(d.spec) && Base(d.spec) == 10 && NumberOf(d, [Number(n)] + rest) == v
    ensures v < 0 ==> |NumberText(d, v)| == 1 + |Numeral(-v, 10, false)|
  {
    SignedIs(n, v, d.long);
  }

  /** The unsigned number a 32-bit, or with two `l` 64-bit, integer holds. */
  function UnsignedOf(n: int, long: nat): nat {
    if long == 2 then n % 0x1_0000_0000_0000_0000 else n % 0x1_0000_0000
  }

  /** `%u`, `%o`, `%x`, `%X`, `%b`: stripped of blanks and read in base 10, 8, 16, 16 or 2 the text is the number. */
  lemma UnsignedConversion(d: Directive, n: int, rest: seq<Arg>)
    ensures var text, u := Strip(Piece(d, [Number(n)] + rest)), UnsignedOf(n, d.long);
      && (d.spec == 'u' ==> SignedValue(text, 10) == u)
      && (d.spec == 'o' ==> SignedValue(text, 8) == u)
      && (d.spec == 'x' || d.spec == 'X' ==> SignedValue(text, 16) == u)
      && (d.spec == 'b' ==> SignedValue(text, 2) == u)
  {
    var args := [Number(n)] + rest;
    if d.spec in "uoxXb" {
      assert IsNumeric(d.spec) && !IsSigned(d.spec) && NumberOf(d, args) == UnsignedOf(n, d.long);
      PieceReadsBack(d, args);
    }
  }

  predicate AllDigits(s: string, base: nat, upper: bool) {
    forall i :: 0 <= i < |s| ==> IsDigitOf(s[i], base, upper)
  }

  lemma NumeralDigits(u: nat, base: nat, upper: bool)
    requires 2 <= base <= 16
    ensures AllDigits(Numeral(u, base, upper), base, upper)
  {
    var s := Numeral(u, base, upper);
    DigitsPlain(u, base, upper);
    if u > 0 {
      forall i | 0 <= i < |s|
        ensures IsDigitOf(s[i], base, upper)
      {
        DigitOf(s[i], base, upper);
      }
    }
  }

  lemma ZerosAreDigits(k: nat, s: string, base: nat, upper: bool)
    requires 2 <= base <= 16 && AllDigits(s, base, upper)
    ensures AllDigits(Repeat('0', k) + s, base, upper)
  {
    RepeatAll('0', k);
  }

  /** The digits of an unsigned number are those of its base, in the case the letter asks for. */
  lemma UnsignedDigits(d: Directive, n: int, rest: seq<Arg>)
    requires d.spec in "uoxXb"
    ensures var base := if d.spec == 'u' then 10 else if d.spec == 'o' then 8 else if d.spec == 'b' then 2 else 16;
      AllDigits(Strip(Piece(d, [Number(n)] + rest)), base, d.spec == 'X')
  {
    var u := NumberOf(d, [Number(n)] + rest);
    NonNegativeCore(d, u);
    StripPad(NumberField(d, u));
    UnsignedCore(d, u);
  }

  lemma UnsignedCore(d: Directive, u: nat)
    ensures AllDigits(Core(NumberField(d, u)), Base(d.spec), d.spec == 'X')
  {
    var f := NumberField(d, u);
    assert f.body == "" + NumberDigits(d, u) == NumberDigits(d, u);
    NumeralDigits(u, Base(d.spec), d.spec == 'X');
    ZerosAreDigits(Zeros(f), f.body, Base(d.spec), d.spec == 'X');
  }

  // ---- Texts and widths ------------------------------------------------------------------

  /** The piece is the text filled up to the width: with blanks behind it if it is to be left, else in front of it with
      blanks or zeros. */
  ghost predicate Filled(piece: string, text: string, width: nat, left: bool, zero: bool) {
    && |piece| == (if width > |text| then width else |text|)
    && var gap := |piece| - |text|;
       if left then piece[..|text|] == text && forall i :: |text| <= i < |piece| ==> piece[i] == ' '
       else piece[gap..] == text && forall i :: 0 <= i < gap ==> piece[i] == if zero then '0' else ' '
  }

  lemma PadFills(text: string, width: nat, left: bool, zero: bool, prec: int)
    requires prec < 0
    ensures Filled(Pad(Field(text, width, left, zero, prec)), text, width, left, zero)
  {
    var f := Field(text, width, left, zero, prec);
    RepeatAll('0', Zeros(f));
    RepeatAll(' ', Blanks(f));
    assert Core(f) == Repeat('0', Zeros(f)) + text;
  }

  /** The first `prec` characters, if a precision is given. */
  function Cut(t: string, prec: int): string {
    if 0 <= prec < |t| then t[..prec] else t
  }

  /** `%s`: the string, cut to the precision if there is one, or "(null)". */
  lemma StringConversion(d: Directive, t: CString, rest: seq<Arg>)
    requires d.spec == 's'
    ensures Filled(Piece(d, [Text(t)] + rest), Cut(t, d.prec), d.width, d.flags.left, d.flags.zero)
    ensures Filled(Piece(d, [Null] + rest), Cut("(null)", d.prec), d.width, d.flags.left, d.flags.zero)
  {
    TextFilled(d, [Text(t)] + rest, t);
    TextFilled(d, [Null] + rest, "(null)");
  }

  lemma TextBodyIs(d: Directive, args: seq<Arg>, t: string)
    requires d.spec == 's' && t == TextArg(args)
    ensures IsPadded(d.spec) && !IsNumeric(d.spec) && BodyOf(d, args) == Cut(t, d.prec)
  {
    assert Prefix(t, d.prec) == Cut(t, d.prec);
  }

  lemma TextFilled(d: Directive, args: seq<Arg>, t: string)
    requires d.spec == 's' && t == TextArg(args)
    ensures Filled(Piece(d, args), Cut(t, d.prec), d.width, d.flags.left, d.flags.zero)
  {
    TextBodyIs(d, args, t);
    BodyFilled(d, args, Cut(t, d.prec));
  }

  lemma BodyFilled(d: Directive, args: seq<Arg>, text: string)
    requires IsPadded(d.spec) && !IsNumeric(d.spec) && text == BodyOf(d, args)
    ensures Filled(Piece(d, args), text, d.width, d.flags.left, d.flags.zero)
  {
    PieceOfBody(d, args, text);
    PadFills(text, d.width, d.flags.left, d.flags.zero, -1);
  }

  /** `%c`: the character with the argument's low eight bits. */
  lemma CharConversion(d: Directive, n: int, rest: seq<Arg>)
    requires d.spec == 'c'
    ensures Filled(Piece(d, [Number(n)] + rest), [(n % 256) as char], d.width, d.flags.left, d.flags.zero)
  {
    PadFills([CharOf(n)], d.width, d.flags.left, d.flags.zero, -1);
  }

  /** `%p`: `0x` and at least eight lower-case hexadecimal digits of the address. */
  lemma AddressConversion(d: Directive, n: int, rest: seq<Arg>) returns (digits: string)
    requires d.spec == 'p'
    ensures Filled(Piece(d, [Number(n)] + rest), "0x" + digits, d.width, d.flags.left, d.flags.zero)
    ensures |digits| >= 8 && Value(digits, 16) == n % 0x1_0000_0000 && AllDigits(digits, 16, false)
  {
    digits := AddressDigits(n % 0x1_0000_0000);
    PadFills("0x" + digits, d.width, d.flags.left, d.flags.zero, -1);
    AddressPiece(d, n, rest);
  }

  lemma AddressPiece(d: Directive, n: int, rest: seq<Arg>)
    requires d.spec == 'p'
    ensures Piece(d, [Number(n)] + rest)
         == Pad(Field(AddressText(n % 0x1_0000_0000), d.width, d.flags.left, d.flags.zero, -1))
  {
    AddressBodyIs(d, n, rest);
    PieceOfBody(d, [Number(n)] + rest, BodyOf(d, [Number(n)] + rest));
  }

  lemma AddressBodyIs(d: Directive, n: int, rest: seq<Arg>)
    requires d.spec == 'p'
    ensures BodyOf(d, [Number(n)] + rest) == AddressText(n % 0x1_0000_0000)
  {
  }

  lemma PieceOfBody(d: Directive, args: seq<Arg>, text: string)
    requires IsPadded(d.spec) && !IsNumeric(d.spec) && text == BodyOf(d, args)
    ensures Piece(d, args) == Pad(Field(text, d.width, d.flags.left, d.flags.zero, -1))
  {
  }

  lemma AddressDigits(u: nat) returns (digits: string)
    ensures "0x" + digits == AddressText(u)
    ensures |digits| >= 8 && Value(digits, 16) == u && AllDigits(digits, 16, false)
  {
    var hex := Numeral(u, 16, false);
    var zeros := Missing(|hex|, 8);
    digits := Repeat('0', zeros) + hex;
    assert AddressText(u) == "0x" + Repeat('0', zeros) + hex;
    NumeralValue(u, 16, false);
    ZerosInFront(zeros, hex, 16);
    NumeralDigits(u, 16, false);
    ZerosAreDigits(zeros, hex, 16, false);
  }

  /** A percent sign, an unknown letter after one, and a format that ends within a directive. */
  lemma OtherConversions(d: Directive, args: seq<Arg>)
    requires d.spec !in "cspdiuoxXb"
    ensures Piece(d, args) == (if d.spec == '%' || d.spec == '\0' then "%" else ['%', d.spec])
    ensures ArgsAfter(d, args) == args
  {
  }

  /** Without a precision a number's text is filled like any other; zeros go between its sign and its digits. */
  lemma NumberFilled(d: Directive, args: seq<Arg>)
    requires d.spec in "diuoxXb" && d.prec < 0
    ensures var n := NumberOf(d, args); var text := NumberText(d, n);
      if n < 0 && d.flags.zero && !d.flags.left && d.width > |text| then
        && |Piece(d, args)| == d.width && Piece(d, args)[0] == '-'
        && Filled(Piece(d, args)[1..], text[1..], d.width - 1, false, true)
      else Filled(Piece(d, args), text, d.width, d.flags.left, d.flags.zero)
  {
    var n := NumberOf(d, args);
    if ZeroFilled(d, n) && d.width > |NumberText(d, n)| {
      SignThenZeros(d, n);
    } else {
      PadFills(NumberText(d, n), d.width, d.flags.left, d.flags.zero, d.prec);
      assert NumberField(d, n) == Field(NumberText(d, n), d.width, d.flags.left, d.flags.zero, d.prec) || ZeroFilled(d, n);
    }
  }

  lemma SignThenZeros(d: Directive, n: int)
    requires ZeroFilled(d, n) && d.width > |NumberText(d, n)|
    ensures var piece, text := Pad(NumberField(d, n)), NumberText(d, n);
      |piece| == d.width && piece[0] == '-' && Filled(piece[1..], text[1..], d.width - 1, false, true)
  {
    var text, digits := NumberText(d, n), NumberDigits(d, n);
    var zeros := Repeat('0', d.width - |text|);
    SignFirst(zeros, digits);
    NoGap("-" + zeros + digits, d.width);
    assert text[1..] == digits;
    ZerosFill(zeros, d.width - |text|, digits);
  }

  lemma ZerosFill(zeros: string, k: nat, digits: string)
    requires zeros == Repeat('0', k)
    ensures Filled(zeros + digits, digits, k + |digits|, false, true)
  {
    RepeatAll('0', k);
    assert (zeros + digits)[k..] == digits;
  }

  lemma NoGap(body: string, width: nat)
    requires width <= |body|
    ensures forall prec :: prec < 0 ==> Pad(Field(body, width, false, false, prec)) == body
  {
    assert "" + ("" + body) == body;
  }

  lemma SignFirst(a: string, b: string)
    ensures ("-" + a + b)[0] == '-' && ("-" + a + b)[1..] == a + b
  {
  }

  // ---- How directives are written --------------------------------------------------------

  /** A width or a precision: none, a number, or taken from the arguments. */
  datatype Amount = Without | Given(n: nat) | FromArgs

  ghost function AmountText(a: Amount): string {
    match a
    case Without => ""
    case Given(n) => Numeral(n, 10, false)
    case FromArgs => "*"
  }

  /** A directive after its percent sign. */
  ghost function DirectiveText(left: bool, zero: bool, width: Amount, prec: Amount, long: nat, spec: char): string {
    (if left then "-" else "") + ((if zero then "0" else "") + (AmountText(width) + (PrecisionText(prec) + (LengthText(long) + [spec]))))
  }

  ghost function PrecisionText(prec: Amount): string {
    if prec == Without then "" else "." + AmountText(prec)
  }

  function LengthText(long: nat): string {
    if long == 2 then "ll" else if long == 1 then "l" else ""
  }

  /** The letter of a conversion: none of the characters that have another meaning in a directive. */
  predicate IsLetter(c: char) {
    c != '-' && c != '*' && c != '.' && c != 'l' && c != 'h' && c != 'z' && c != '\0' && !IsDecimal(c)
  }

  /** What begins like neither a flag nor a number. */
  predicate NoAmount(s: string) {
    s != "" && s[0] != '-' && s[0] != '*' && !IsDecimal(s[0])
  }

  lemma FlagsRead(left: bool, zero: bool, s: string)
    requires s != "" && s[0] != '-' && s[0] != '0'
    ensures ScanFlags((if left then "-" else "") + ((if zero then "0" else "") + s), Flags(false, false)) == (Flags(left, zero), s)
  {
    var t := (if zero then "0" else "") + s;
    if zero { assert t[1..] == s; } else { assert t == s; }
    if left { assert ("-" + t)[1..] == t; } else { assert "" + t == t; }
    var f := Flags(left, false);
    assert ScanFlags(s, f.(zero := zero)) == (f.(zero := zero), s);
    assert ScanFlags(t, f) == (Flags(left, zero), s);
  }

  lemma NumberRead(n: nat, s: string)
    requires s != "" && !IsDecimal(s[0])
    ensures var text := Numeral(n, 10, false); var k := DigitRun(text + s);
      k == |text| && Value((text + s)[..k], 10) == n && (text + s)[k..] == s
  {
    ParseUndoesRender(n, s);
  }

  lemma GivenWidthRead(n: nat, f: Flags, s: string, args: seq<Arg>)
    requires NoAmount(s)
    ensures ScanWidth(Numeral(n, 10, false) + s, f, args) == (f, n, s, args)
  {
    NumberRead(n, s);
    DecimalNumeral(n);
    assert IsDecimal((Numeral(n, 10, false) + s)[0]) by { NumeralNotEmpty(n); }
  }

  lemma WidthRead(width: Amount, f: Flags, s: string, args: seq<Arg>)
    requires NoAmount(s)
    ensures var w := if width.Given? then width.n else if width == FromArgs then IntArg(args) else 0;
      ScanWidth(AmountText(width) + s, f, args) ==
        (if w < 0 then f.(left := true) else f, if w < 0 then -w else w, s, if width == FromArgs then Next(args) else args)
  {
    match width {
      case Without =>
        assert "" + s == s && s[0..] == s;
        assert DigitRun(s) == 0 && s[..0] == "";
      case Given(n) => GivenWidthRead(n, f, s, args);
      case FromArgs => assert ("*" + s)[1..] == s;
    }
  }

  lemma NumeralNotEmpty(n: nat)
    ensures Numeral(n, 10, false) != "" && (n > 0 ==> Numeral(n, 10, false)[0] != '0')
  {
    DigitsPlain(n, 10, false);
  }

  lemma PrecisionRead(prec: Amount, s: string, args: seq<Arg>)
    requires NoAmount(s) && s[0] != '.'
    ensures var p := if prec.Given? then prec.n else if prec == FromArgs && IntArg(args) >= 0 then IntArg(args) else -1;
      ScanPrecision(PrecisionText(prec) + s, args) == (p, s, if prec == FromArgs then Next(args) else args)
  {
    if prec == Without {
      assert "" + s == s;
    } else {
      var t := AmountText(prec) + s;
      assert (PrecisionText(prec) + s)[1..] == t;
      if prec.Given? {
        NumberRead(prec.n, s);
        DecimalNumeral(prec.n);
        assert IsDecimal(t[0]) by { NumeralNotEmpty(prec.n); }
      } else {
        assert t[1..] == s;
      }
    }
  }

  lemma LengthRead(long: nat, s: string)
    requires long <= 2 && s != "" && s[0] != 'l' && s[0] != 'h' && s[0] != 'z'
    ensures ScanLength(LengthText(long) + s) == (long, s)
  {
    var t := LengthText(long) + s;
    if long == 0 { assert t == s; } else { assert t[1..] == (if long == 2 then "l" else "") + s; }
    if long == 2 { assert t[2..] == s; }
    if long == 1 { assert t[1..] == s; }
  }

  /** `h`, `hh` and `z` are read over. */
  lemma OtherLengths(s: string)
    requires s != "" && s[0] != 'h'
    ensures ScanLength("h" + s) == (0, s) && ScanLength("hh" + s) == (0, s) && ScanLength("z" + s) == (0, s)
  {
    assert ("h" + s)[1..] == s && ("z" + s)[1..] == s;
    assert ("hh" + s)[1..][0] == 'h' && ("hh" + s)[2..] == s;
  }

  /** Reading a written directive: `-` is for left, `0` for zeros, then width, precision, length and letter. A `*` takes
      an argument, a negative width meaning left and a negative precision none. */
  lemma DirectiveRead(left: bool, zero: bool, width: Amount, prec: Amount, long: nat, spec: char, rest: string, args: seq<Arg>)
    requires long <= 2 && IsLetter(spec) && width != Given(0)
    ensures var w := if width.Given? then width.n else if width == FromArgs then IntArg(args) else 0;
      var args2 := if width == FromArgs then Next(args) else args;
      var p := if prec.Given? then prec.n else if prec == FromArgs && IntArg(args2) >= 0 then IntArg(args2) else -1;
      ParseDirective(DirectiveText(left, zero, width, prec, long, spec) + rest, args) ==
        Parsed(Directive(Flags(left || w < 0, zero), if w < 0 then -w else w, p, long, spec), rest,
               if prec == FromArgs then Next(args2) else args2)
  {
    var s4 := [spec] + rest;
    var s3 := LengthText(long) + s4;
    var s2 := PrecisionText(prec) + s3;
    var s1 := AmountText(width) + s2;
    var args2 := if width == FromArgs then Next(args) else args;
    var text := DirectiveText(left, zero, width, prec, long, spec) + rest;
    var w := if width.Given? then width.n else if width == FromArgs then IntArg(args) else 0;
    var f := Flags(left || w < 0, zero);
    var p := if prec.Given? then prec.n else if prec == FromArgs && IntArg(args2) >= 0 then IntArg(args2) else -1;
    var args3 := if prec == FromArgs then Next(args2) else args2;
    Heads(width, prec, long, spec, rest);
    assert ScanFlags(text, Flags(false, false)) == (Flags(left, zero), s1) by {
      DirectiveSplit(left, zero, width, prec, long, spec, rest);
      FlagsRead(left, zero, s1);
    }
    assert ScanWidth(s1, Flags(left, zero), args) == (f, if w < 0 then -w else w, s2, args2) by {
      WidthRead(width, Flags(left, zero), s2, args);
    }
    assert ScanPrecision(s2, args2) == (p, s3, args3) by { PrecisionRead(prec, s3, args2); }
    assert ScanLength(s3) == (long, s4) by { LengthRead(long, s4); }
    DirectiveParts(text, args, Flags(left, zero), s1, f, if w < 0 then -w else w, s2, args2, p, s3, args3, long, s4);
    assert s4[1..] == rest;
  }

  /** How what is left of a written directive begins, after each of its parts. */
  lemma Heads(width: Amount, prec: Amount, long: nat, spec: char, rest: string)
    requires long <= 2 && IsLetter(spec) && width != Given(0)
    ensures var s3 := LengthText(long) + ([spec] + rest);
      var s2 := PrecisionText(prec) + s3;
      var s1 := AmountText(width) + s2;
      NoAmount(s3) && s3[0] != '.' && NoAmount(s2) && s1 != "" && s1[0] != '-' && s1[0] != '0'
  {
    var s3 := LengthText(long) + ([spec] + rest);
    var s2 := PrecisionText(prec) + s3;
    assert s3[0] == if long == 0 then spec else 'l';
    assert s2[0] == if prec == Without then s3[0] else '.';
    if width.Given? {
      NumeralNotEmpty(width.n);
      DecimalNumeral(width.n);
    }
  }

  lemma DirectiveSplit(left: bool, zero: bool, width: Amount, prec: Amount, long: nat, spec: char, rest: string)
    ensures DirectiveText(left, zero, width, prec, long, spec) + rest ==
      (if left then "-" else "") + ((if zero then "0" else "") + (AmountText(width) + (PrecisionText(prec) + (LengthText(long) + ([spec] + rest)))))
  {
    var t4 := LengthText(long) + [spec];
    var t3 := PrecisionText(prec) + t4;
    var t2 := AmountText(width) + t3;
    var t1 := (if zero then "0" else "") + t2;
    Assoc(if left then "-" else "", t1, rest);
    Assoc(if zero then "0" else "", t2, rest);
    Assoc(AmountText(width), t3, rest);
    Assoc(PrecisionText(prec), t4, rest);
    Assoc(LengthText(long), [spec], rest);
  }

  /** An `int` argument is read as it is. */
  lemma IntArgIs(n: int, rest: seq<Arg>)
    requires -0x8000_0000 <= n < 0x8000_0000
    ensures IntArg([Number(n)] + rest) == n && Next([Number(n)] + rest) == rest
  {
  }

  /** A format is its plain characters and its directives, one after the other. */
  lemma FormatOfDirective(left: bool, zero: bool, width: Amount, prec: Amount, long: nat, spec: char, rest: string, args: seq<Arg>)
    requires long <= 2 && IsLetter(spec) && width != Given(0)
    ensures var text := DirectiveText(left, zero, width, prec, long, spec) + rest;
      var p := ParseDirective(text, args);
      Format("%" + text, args) == Piece(p.d, p.args) + Format(rest, ArgsAfter(p.d, p.args))
  {
    var text := DirectiveText(left, zero, width, prec, long, spec) + rest;
    DirectiveRead(left, zero, width, prec, long, spec, rest, args);
    assert ("%" + text)[1..] == text;
  }

  lemma PlainCharacter(c: char, rest: string, args: seq<Arg>)
    requires c != '%'
    ensures Format([c] + rest, args) == [c] + Format(rest, args) && Format("", args) == ""
  {
    assert ([c] + rest)[1..] == rest;
  }
}
