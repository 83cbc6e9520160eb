/** What a format string and its arguments print, as a text. */
module NeoFormat {
  import opened Bits
  import opened NeoNumbers

  /** A C string, without its terminating NUL. */
  type CString = s: string | '\0' !in s

  /** A variadic argument: an integer or an address, a string, or the null string. */
  datatype Arg = Number(n: int) | Text(s: CString) | Null

  /** `long` and addresses have 32 bits. */
  const LONG_BITS: nat := 32
  const ADDRESS_DIGITS: nat := 8

  function NumberArg(args: seq<Arg>): int {
    if args != [] && args[0].Number? then args[0].n else 0
  }

  function TextArg(args: seq<Arg>): CString {
    if args != [] && args[0].Text? then args[0].s else "(null)"
  }

  function Next(args: seq<Arg>): seq<Arg> {
    if args == [] then [] else args[1..]
  }

  /** An argument read as an unsigned or a signed integer of 32 or 64 bits. */
  function Unsigned(n: int, bits: nat): nat {
    if bits == 64 then n % TWO64 else n % TWO32
  }

  function Signed(n: int, bits: nat): int {
    var u := Unsigned(n, bits);
    if bits == 64 then (if u >= TWO64 / 2 then u - TWO64 else u)
    else if u >= TWO32 / 2 then u - TWO32 else u
  }

  function IntArg(args: seq<Arg>): int {
    Signed(NumberArg(args), 32)
  }

  // ---- Reading a directive ---------------------------------------------------------------

  datatype Flags = Flags(left: bool, zero: bool)

  /** `prec` is -1 when none is given, `long` counts the `l`s, `spec` is NUL when the format ends early. */
  datatype Directive = Directive(flags: Flags, width: nat, prec: int, long: nat, spec: char)

  datatype Parsed = Parsed(d: Directive, rest: string, args: seq<Arg>)

  function At(s: string): char {
    if s == "" then '\0' else s[0]
  }

  function ScanFlags(s: string, f: Flags): (r: (Flags, string))
    ensures |r.1| <= |s|
  {
    if At(s) == '-' then ScanFlags(s[1..], f.(left := true))
    else if At(s) == '0' then ScanFlags(s[1..], f.(zero := true))
    else (f, s)
  }

  function ScanWidth(s: string, f: Flags, args: seq<Arg>): (r: (Flags, nat, string, seq<Arg>))
    ensures |r.2| <= |s|
  {
    if At(s) == '*' then
      var w := IntArg(args);
      (if w < 0 then f.(left := true) else f, if w < 0 then -w else w, s[1..], Next(args))
    else
      (f, Value(s[..DigitRun(s)], 10), s[DigitRun(s)..], args)
  }

  function ScanPrecision(s: string, args: seq<Arg>): (r: (int, string, seq<Arg>))
    ensures |r.1| <= |s| && r.0 >= -1
  {
    if At(s) == '.' then ScanPrecisionValue(s[1..], args) else (-1, s, args)
  }

  function ScanPrecisionValue(s: string, args: seq<Arg>): (r: (int, string, seq<Arg>))
    ensures |r.1| <= |s| && r.0 >= -1
  {
    if At(s) == '*' then
      (if IntArg(args) < 0 then -1 else IntArg(args), s[1..], Next(args))
    else
      (Value(s[..DigitRun(s)], 10), s[DigitRun(s)..], args)
  }

  function ScanLength(s: string): (r: (nat, string))
    ensures |r.1| <= |s|
  {
    if At(s) == 'l' then
      if At(s[1..]) == 'l' then (2, s[2..]) else (1, s[1..])
    else if At(s) == 'h' then
      (0, if At(s[1..]) == 'h' then s[2..] else s[1..])
    else if At(s) == 'z' then (0, s[1..])
    else (0, s)
  }

  /** The directive after a `%`. */
  function ParseDirective(s: string, args: seq<Arg>): (p: Parsed)
    ensures |p.rest| <= |s| && p.d.prec >= -1
  {
    var (f0, s1) := ScanFlags(s, Flags(false, false));
    var (f, width, s2, args2) := ScanWidth(s1, f0, args);
    var (prec, s3, args3) := ScanPrecision(s2, args2);
    var (long, s4) := ScanLength(s3);
    Parsed(Directive(f, width, prec, long, At(s4)), if s4 == "" then "" else s4[1..], args3)
  }

  /** A directive is what its parts are scanned as. */
  lemma DirectiveParts(s: string, args: seq<Arg>, f0: Flags, s1: string, f: Flags, width: nat, s2: string, args2: seq<Arg>,
                       prec: int, s3: string, args3: seq<Arg>, long: nat, s4: string)
    requires ScanFlags(s, Flags(false, false)) == (f0, s1) && ScanWidth(s1, f0, args) == (f, width, s2, args2)
    requires ScanPrecision(s2, args2) == (prec, s3, args3) && ScanLength(s3) == (long, s4)
    ensures ParseDirective(s, args) == Parsed(Directive(f, width, prec, long, At(s4)), if s4 == "" then "" else s4[1..], args3)
  {
  }

  // ---- What a directive prints -----------------------------------------------------------

  /** A text to be padded: with zeros up to `prec` characters, then to `width`. */
  datatype Field = Field(body: string, width: nat, left: bool, zero: bool, prec: int)

  function Repeat(c: char, n: nat): (s: string)
    ensures |s| == n
  {
    if n == 0 then "" else Repeat(c, n - 1) + [c]
  }

  function Max(a: int, b: int): int {
    if a >= b then a else b
  }

  function Missing(have: nat, want: int): nat {
    if want > have then want - have else 0
  }

  /** A width is filled with zeros only on the left and without a precision. */
  predicate ZeroPadded(f: Field) {
    f.zero && !f.left && f.prec < 0
  }

  function Blanks(f: Field): nat {
    if ZeroPadded(f) then 0 else Missing(|f.body| + Missing(|f.body|, f.prec), f.width)
  }

  function Zeros(f: Field): nat {
    if ZeroPadded(f) then Missing(|f.body|, f.width) else Missing(|f.body|, f.prec)
  }

  /** The field without its blanks. */
  function Core(f: Field): string {
    Repeat('0', Zeros(f)) + f.body
  }

  function Pad(f: Field): string {
    if f.left then Core(f) + Repeat(' ', Blanks(f)) else Repeat(' ', Blanks(f)) + Core(f)
  }

  predicate IsNumeric(spec: char) {
    spec in "diuoxXb"
  }

  predicate IsSigned(spec: char) {
    spec in "di"
  }

  function Base(spec: char): (b: nat)
    ensures 2 <= b <= 16
  {
    if spec == 'o' then 8 else if spec in "xX" then 16 else if spec == 'b' then 2 else 10
  }

  function ArgBits(d: Directive): nat {
    if d.long == 2 then 64 else if d.long == 1 then LONG_BITS else 32
  }

  /** The number a numeric directive prints. */
  function NumberOf(d: Directive, args: seq<Arg>): int {
    if IsSigned(d.spec) then Signed(NumberArg(args), ArgBits(d)) else Unsigned(NumberArg(args), ArgBits(d))
  }

  function Abs(n: int): nat {
    if n < 0 then -n else n
  }

  /** The digits alone; a zero printed with precision zero has none. */
  ghost function NumberDigits(d: Directive, n: int): string {
    if d.prec == 0 && n == 0 then "" else Numeral(Abs(n), Base(d.spec), d.spec == 'X')
  }

  ghost function NumberText(d: Directive, n: int): string {
    (if n < 0 then "-" else "") + NumberDigits(d, n)
  }

  /** A negative number is to be filled up with zeros between its sign and its digits. */
  predicate ZeroFilled(d: Directive, n: int) {
    n < 0 && d.flags.zero && !d.flags.left && d.prec < 0
  }

  ghost function NumberField(d: Directive, n: int): Field {
    var text := NumberText(d, n);
    if ZeroFilled(d, n) && d.width > |text| then
      Field("-" + Repeat('0', d.width - |text|) + NumberDigits(d, n), d.width, false, false, d.prec)
    else
      Field(text, d.width, d.flags.left, d.flags.zero, d.prec)
  }

  ghost function AddressText(n: nat): string {
    var hex := Numeral(n, 16, false);
    "0x" + Repeat('0', Missing(|hex|, ADDRESS_DIGITS)) + hex
  }

  function CharOf(n: int): char {
    (n % 256) as char
  }

  function Prefix(s: string, prec: int): string {
    if 0 <= prec < |s| then s[..prec] else s
  }

  /** The text before padding. */
  ghost function BodyOf(d: Directive, args: seq<Arg>): string {
    if d.spec == 'c' then [CharOf(NumberArg(args))]
    else if d.spec == 's' then Prefix(TextArg(args), d.prec)
    else if d.spec == 'p' then AddressText(Unsigned(NumberArg(args), 32))
    else NumberText(d, NumberOf(d, args))
  }

  predicate IsPadded(spec: char) {
    spec in "csp" || IsNumeric(spec)
  }

  ghost function Piece(d: Directive, args: seq<Arg>): string {
    if IsNumeric(d.spec) then Pad(NumberField(d, NumberOf(d, args)))
    else if IsPadded(d.spec) then Pad(Field(BodyOf(d, args), d.width, d.flags.left, d.flags.zero, -1))
    else if d.spec == '%' || d.spec == '\0' then "%"
    else ['%', d.spec]
  }

  function ArgsAfter(d: Directive, args: seq<Arg>): seq<Arg> {
    if IsPadded(d.spec) then Next(args) else args
  }

  /** What a format prints. */
  ghost function Format(fmt: string, args: seq<Arg>): string
    decreases |fmt|
  {
    if fmt == "" then ""
    else if fmt[0] != '%' then [fmt[0]] + Format(fmt[1..], args)
    else
      var p := ParseDirective(fmt[1..], args);
      Piece(p.d, p.args) + Format(p.rest, ArgsAfter(p.d, p.args))
  }

  /** The zero-filled negative numbers fit the 70-character buffer they are composed in. */
  predicate Fits(fmt: string, args: seq<Arg>)
    decreases |fmt|
  {
    if fmt == "" then true
    else if fmt[0] != '%' then Fits(fmt[1..], args)
    else
      var p := ParseDirective(fmt[1..], args);
      PieceFits(p.d, p.args) && Fits(p.rest, ArgsAfter(p.d, p.args))
  }

  predicate PieceFits(d: Directive, args: seq<Arg>) {
    IsNumeric(d.spec) && ZeroFilled(d, NumberOf(d, args)) ==> d.width <= 70
  }

  // ---- Lengths ---------------------------------------------------------------------------

  lemma PadLength(f: Field)
    ensures |Pad(f)| == Max(f.width, |f.body| + Missing(|f.body|, f.prec))
  {
  }

  /** A padded directive prints its width, or its text filled up to the precision if that is longer. */
  lemma PieceLength(d: Directive, args: seq<Arg>)
    requires IsPadded(d.spec)
    ensures var have := |BodyOf(d, args)|;
      |Piece(d, args)| == Max(d.width, have + if IsNumeric(d.spec) then Missing(have, d.prec) else 0)
  {
    if IsNumeric(d.spec) {
      PadLength(NumberField(d, NumberOf(d, args)));
    } else {
      PadLength(Field(BodyOf(d, args), d.width, d.flags.left, d.flags.zero, -1));
    }
  }

  // ---- Values ----------------------------------------------------------------------------

  function StripLeft(s: string): string {
    if s != "" && s[0] == ' ' then StripLeft(s[1..]) else s
  }

  function StripRight(s: string): string {
    if s != "" && s[|s| - 1] == ' ' then StripRight(s[..|s| - 1]) else s
  }

  /** A field without the blanks around it. */
  function Strip(s: string): string {
    StripRight(StripLeft(s))
  }

  /** The number a text stands for, a minus sign in front counting. */
  function SignedValue(s: string, base: nat): int {
    if s != "" && s[0] == '-' then -(Value(s[1..], base) as int) else Value(s, base)
  }

  lemma {:induction false} ZerosInFront(k: nat, s: string, base: nat)
    ensures Value(Repeat('0', k) + s, base) == Value(s, base)
    decreases k + |s|
  {
    var z := Repeat('0', k);
    if s != "" {
      var front := s[..|s| - 1];
      assert (z + s)[..|z + s| - 1] == z + front;
      ZerosInFront(k, front, base);
    } else if k > 0 {
      var y := Repeat('0', k - 1);
      assert z + s == y + ['0'];
      assert y + "" == y;
      ZerosInFront(k - 1, "", base);
      Snoc(y, '0', base);
      TimesIsMul(base, 0);
    }
  }

  lemma {:induction false} RepeatAll(c: char, n: nat)
    ensures forall i :: 0 <= i < n ==> Repeat(c, n)[i] == c
  {
    if n > 0 { RepeatAll(c, n - 1); }
  }

  lemma RepeatTail(c: char, n: nat)
    requires n > 0
    ensures Repeat(c, n)[1..] == Repeat(c, n - 1) && Repeat(c, n)[0] == c
  {
    RepeatAll(c, n);
    RepeatAll(c, n - 1);
  }

  /** No blank at either end. */
  predicate Tight(s: string) {
    s == "" || (s[0] != ' ' && s[|s| - 1] != ' ')
  }

  lemma {:induction false} StripBefore(k: nat, s: string)
    requires s == "" || s[0] != ' '
    ensures StripLeft(Repeat(' ', k) + s) == s
  {
    if k == 0 {
      assert "" + s == s;
    } else {
      RepeatTail(' ', k);
      assert (Repeat(' ', k) + s)[1..] == Repeat(' ', k - 1) + s;
      StripBefore(k - 1, s);
    }
  }

  lemma {:induction false} StripAfter(s: string, k: nat)
    requires s == "" || s[|s| - 1] != ' '
    ensures StripRight(s + Repeat(' ', k)) == s
  {
    if k == 0 {
      assert s + "" == s;
    } else {
      assert (s + Repeat(' ', k))[..|s| + k - 1] == s + Repeat(' ', k - 1);
      StripAfter(s, k - 1);
    }
  }

  /** Blanks on one side are stripped off. */
  lemma StripPadding(s: string, k: nat)
    requires Tight(s)
    ensures Strip(Repeat(' ', k) + s) == s && Strip(s + Repeat(' ', k)) == s
  {
    StripBefore(k, s);
    StripAfter(s, 0);
    assert s + "" == s;
    StripAfter(s, k);
    if s == "" {
      StripBefore(k, "");
      assert Repeat(' ', k) + "" == Repeat(' ', k) == "" + Repeat(' ', k);
    }
  }

  lemma DigitChar(c: char, base: nat, upper: bool)
    requires base <= 16 && IsDigit(c, base, upper)
    ensures c != ' ' && c != '-'
  {
    var d :| 0 <= d < base && c == Digit(d, upper);
    assert c == if upper then "0123456789ABCDEF"[d] else "0123456789abcdef"[d];
  }

  lemma DigitsAreTight(v: nat, base: nat, upper: bool)
    requires 2 <= base <= 16
    ensures var s := Numeral(v, base, upper);
      s != "" && Tight(s) && s[0] != '-' && Value(s, base) == v
  {
    NumeralValue(v, base, upper);
    DigitsPlain(v, base, upper);
    if v > 0 {
      var s := Digits(v, base, upper);
      DigitChar(s[0], base, upper);
      DigitChar(s[|s| - 1], base, upper);
    }
  }

  /** Zeros in front of digits change neither the value nor the look at the ends. */
  lemma ZeroFill(k: nat, digits: string, base: nat)
    requires Tight(digits) && (digits != "" ==> digits[0] != '-')
    ensures var s := Repeat('0', k) + digits;
      Tight(s) && (s != "" ==> s[0] != '-') && Value(s, base) == Value(digits, base)
  {
    ZerosInFront(k, digits, base);
    if k > 0 {
      RepeatAll('0', k);
    }
  }

  lemma StripPad(f: Field)
    requires Tight(Core(f))
    ensures Strip(Pad(f)) == Core(f)
  {
    StripPadding(Core(f), Blanks(f));
  }

  lemma NumberDigitsAre(d: Directive, n: int)
    ensures var s := NumberDigits(d, n);
      Tight(s) && (s != "" ==> s[0] != '-') && Value(s, Base(d.spec)) == Abs(n)
  {
    DigitsAreTight(Abs(n), Base(d.spec), d.spec == 'X');
  }

  lemma FilledNonNegative(f: Field, base: nat)
    requires Tight(f.body) && (f.body != "" ==> f.body[0] != '-')
    ensures Tight(Core(f)) && SignedValue(Core(f), base) == Value(f.body, base)
  {
    ZeroFill(Zeros(f), f.body, base);
  }

  lemma MinusSign(k: nat, digits: string, base: nat)
    requires Tight(digits) && digits != ""
    ensures var s := "-" + Repeat('0', k) + digits;
      Tight(s) && SignedValue(s, base) == -(Value(digits, base) as int)
  {
    ZerosInFront(k, digits, base);
    AfterMinus(Repeat('0', k), digits);
  }

  lemma AfterMinus(a: string, b: string)
    ensures ("-" + a + b)[1..] == a + b
  {
  }

  /** Zeros go in front of a minus sign exactly when a precision asks for them. */
  lemma FilledNegative(f: Field, digits: string, base: nat)
    requires Tight(digits) && digits != "" && f.body == "-" + digits
    requires ZeroPadded(f) ==> f.width <= |f.body|
    ensures Tight(Core(f))
    ensures f.prec <= |f.body| ==> SignedValue(Core(f), base) == -(Value(digits, base) as int)
    ensures f.prec > |f.body| ==> SignedValue(Core(f), base) >= 0
  {
    if f.prec <= |f.body| {
      MinusSign(0, digits, base);
      assert Core(f) == "" + f.body == "-" + "" + digits;
    } else {
      RepeatAll('0', Zeros(f));
    }
  }

  /** Stripped of blanks, what a numeric directive prints reads back as its number; the one exception
      is a negative number with a precision longer than its text. */
  lemma PieceReadsBack(d: Directive, args: seq<Arg>)
    requires IsNumeric(d.spec)
    ensures var n := NumberOf(d, args);
      SignedValue(Strip(Piece(d, args)), Base(d.spec)) == n <==> !(n < 0 && d.prec > |BodyOf(d, args)|)
  {
    var n := NumberOf(d, args);
    if n >= 0 { NonNegativeCore(d, n); } else { NegativeCore(d, n); }
    StripPad(NumberField(d, n));
  }

  /** Such a number: -3 in "%.5d" comes out as "000-3". */
  lemma MisplacedSign()
    ensures Piece(Directive(Flags(false, false), 0, 5, 0, 'd'), [Number(-3)]) == "000-3"
  {
    var d := Directive(Flags(false, false), 0, 5, 0, 'd');
    assert NumberOf(d, [Number(-3)]) == -3;
    OneDigit(3);
    assert NumberText(d, -3) == "-3";
    var f := NumberField(d, -3);
    assert Repeat('0', 3) == "000" by { assert Repeat('0', 1) == "0"; assert Repeat('0', 2) == "00"; }
    assert Core(f) == "000" + "-3";
  }

  lemma OneDigit(v: nat)
    requires 0 < v < 10
    ensures Numeral(v, 10, false) == ["0123456789"[v]]
  {
    QuotRestUnique(v, 10, 0, v);
    assert Digits(0, 10, false) == "";
  }

  lemma NonNegativeCore(d: Directive, n: int)
    requires n >= 0
    ensures Tight(Core(NumberField(d, n))) && SignedValue(Core(NumberField(d, n)), Base(d.spec)) == n
  {
    NumberDigitsAre(d, n);
    assert NumberText(d, n) == NumberDigits(d, n);
    FilledNonNegative(NumberField(d, n), Base(d.spec));
  }

  lemma NegativeCore(d: Directive, n: int)
    requires n < 0
    ensures Tight(Core(NumberField(d, n)))
    ensures SignedValue(Core(NumberField(d, n)), Base(d.spec)) == n <==> d.prec <= |NumberText(d, n)|
  {
    var f, digits := NumberField(d, n), NumberDigits(d, n);
    NumberDigitsAre(d, n);
    if ZeroFilled(d, n) && d.width > |NumberText(d, n)| {
      BetweenSignAndDigits(f, d.width - |NumberText(d, n)|, digits, Base(d.spec));
    } else {
      FilledNegative(f, digits, Base(d.spec));
    }
  }

  lemma BetweenSignAndDigits(f: Field, k: nat, digits: string, base: nat)
    requires Tight(digits) && digits != "" && f.body == "-" + Repeat('0', k) + digits && !f.zero && f.prec < 0
    ensures Tight(Core(f)) && SignedValue(Core(f), base) == -(Value(digits, base) as int)
  {
    MinusSign(k, digits, base);
    assert Core(f) == "" + f.body == f.body;
  }

  // ---- One format after another ----------------------------------------------------------

  /** No directive is cut off by the end of the format. */
  predicate Whole(fmt: string, args: seq<Arg>)
    decreases |fmt|
  {
    if fmt == "" then true
    else if fmt[0] != '%' then Whole(fmt[1..], args)
    else
      var p := ParseDirective(fmt[1..], args);
      p.d.spec != '\0' && Whole(p.rest, ArgsAfter(p.d, p.args))
  }

  /** The arguments a format leaves. */
  function ArgsLeft(fmt: string, args: seq<Arg>): seq<Arg>
    decreases |fmt|
  {
    if fmt == "" then args
    else if fmt[0] != '%' then ArgsLeft(fmt[1..], args)
    else
      var p := ParseDirective(fmt[1..], args);
      ArgsLeft(p.rest, ArgsAfter(p.d, p.args))
  }

  lemma {:induction false} FlagsExtend(s: string, t: string, f: Flags)
    requires ScanFlags(s, f).1 != ""
    ensures ScanFlags(s + t, f) == (ScanFlags(s, f).0, ScanFlags(s, f).1 + t)
    decreases |s|
  {
    if s != "" {
      assert (s + t)[1..] == s[1..] + t;
      if s[0] == '-' { FlagsExtend(s[1..], t, f.(left := true)); }
      else if s[0] == '0' { FlagsExtend(s[1..], t, f.(zero := true)); }
    }
  }

  lemma RunExtends(s: string, t: string)
    requires DigitRun(s) < |s|
    ensures DigitRun(s + t) == DigitRun(s)
    ensures (s + t)[..DigitRun(s)] == s[..DigitRun(s)] && (s + t)[DigitRun(s)..] == s[DigitRun(s)..] + t
  {
    RunEnds(s + t, DigitRun(s));
  }

  lemma WidthExtends(s: string, t: string, f: Flags, args: seq<Arg>)
    requires ScanWidth(s, f, args).2 != ""
    ensures var r := ScanWidth(s, f, args);
      ScanWidth(s + t, f, args) == (r.0, r.1, r.2 + t, r.3)
  {
    if At(s) == '*' {
      assert (s + t)[1..] == s[1..] + t;
    } else {
      RunExtends(s, t);
    }
  }

  lemma PrecisionExtends(s: string, t: string, args: seq<Arg>)
    requires ScanPrecision(s, args).1 != ""
    ensures var r := ScanPrecision(s, args);
      ScanPrecision(s + t, args) == (r.0, r.1 + t, r.2)
  {
    if At(s) == '.' {
      assert (s + t)[1..] == s[1..] + t;
      if At(s[1..]) == '*' {
        assert (s + t)[1..][1..] == s[1..][1..] + t;
      } else {
        RunExtends(s[1..], t);
      }
    }
  }

  lemma LengthExtends(s: string, t: string)
    requires ScanLength(s).1 != ""
    ensures ScanLength(s + t) == (ScanLength(s).0, ScanLength(s).1 + t)
  {
    assert (s + t)[1..] == s[1..] + t;
    if |s| > 1 { assert (s + t)[2..] == s[2..] + t; }
  }

  lemma DirectiveExtends(s: string, t: string, args: seq<Arg>)
    requires ParseDirective(s, args).d.spec != '\0'
    ensures var p := ParseDirective(s, args);
      ParseDirective(s + t, args) == Parsed(p.d, p.rest + t, p.args)
  {
    var (f0, s1) := ScanFlags(s, Flags(false, false));
    var (f, width, s2, args2) := ScanWidth(s1, f0, args);
    var (prec, s3, args3) := ScanPrecision(s2, args2);
    var (long, s4) := ScanLength(s3);
    FlagsExtend(s, t, Flags(false, false));
    WidthExtends(s1, t, f0, args);
    PrecisionExtends(s2, t, args2);
    LengthExtends(s3, t);
    assert (s4 + t)[1..] == s4[1..] + t;
  }

  /** Printing two formats in one go is printing them one after the other, if the first is whole. */
  lemma {:induction false} FormatJoins(a: string, b: string, args: seq<Arg>)
    requires Whole(a, args)
    ensures Format(a + b, args) == Format(a, args) + Format(b, ArgsLeft(a, args))
    decreases |a|
  {
    if a == "" {
      assert a + b == b;
    } else {
      assert (a + b)[1..] == a[1..] + b;
      if a[0] != '%' {
        FormatJoins(a[1..], b, args);
      } else {
        var p := ParseDirective(a[1..], args);
        DirectiveExtends(a[1..], b, args);
        FormatJoins(p.rest, b, ArgsAfter(p.d, p.args));
      }
    }
  }
}
