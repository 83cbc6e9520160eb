/** The formatter and its two sinks, a bounded buffer and a backend that takes characters one by one. */
module NeoIo {
  import opened Basics
  import opened NeoNumbers
  import opened NeoFormat

  /** A backend: takes characters, in order. */
  class Backend {
    var log: string

    method Putc(c: char)
      modifies this
      ensures log == old(log) + [c]
    {
      log := log + [c];
    }
  }

  datatype Emitter = ToBuffer | ToBackend

  /** How much of a text of length `n` a buffer of capacity `cap` takes, keeping room for a NUL. */
  function Kept(n: nat, cap: nat): nat {
    if cap == 0 then 0 else if n < cap then n else cap - 1
  }

  /** The parts of a padded field in the order they are put. */
  lemma PadParts(start: string, f: Field, zeroWidth: nat, zeroPrec: nat)
    requires zeroPrec == Missing(|f.body|, f.prec)
    requires zeroWidth == if ZeroPadded(f) then Missing(|f.body|, f.width) else 0
    ensures var s := if f.left then start else start + Repeat(' ', Blanks(f));
      var t := s + Repeat('0', zeroWidth) + Repeat('0', zeroPrec) + f.body;
      (if f.left then t + Repeat(' ', Blanks(f)) else t) == start + Pad(f)
  {
    var blanks := Repeat(' ', Blanks(f));
    var s := if f.left then start else start + blanks;
    assert s + Repeat('0', zeroWidth) + Repeat('0', zeroPrec) == s + Repeat('0', Zeros(f)) by {
      if ZeroPadded(f) { assert s + Repeat('0', zeroWidth) + "" == s + Repeat('0', zeroWidth); }
      else { assert s + "" == s; }
    }
    Assoc(s, Repeat('0', Zeros(f)), f.body);
    if f.left { Assoc(start, Core(f), blanks); } else { Assoc(start, blanks, Core(f)); }
  }

  class Sink {
    const emit: Emitter
    const buf: array?<char>
    const cap: nat
    const out: Backend?
    var pos: nat
    var produced: nat
    /** All characters given to the sink, and what was in the buffer and the backend before. */
    ghost var emitted: string
    ghost const initial: string

    ghost predicate Valid()
      reads this, buf, out
    {
      && produced == |emitted|
      && match emit
         case ToBuffer =>
           if buf == null then pos == 0
           else
             && cap <= buf.Length == |initial| && pos == Kept(|emitted|, cap)
             && buf[..] == emitted[..pos] + initial[pos..]
         case ToBackend => out != null ==> out.log == initial + emitted
    }

    constructor Buffer(b: array?<char>, size: nat)
      requires b != null ==> size <= b.Length
      ensures Valid() && emitted == "" && emit == ToBuffer && buf == b && cap == size && out == null
      ensures b != null ==> initial == b[..]
    {
      emit, buf, cap, out, pos, produced, emitted := ToBuffer, b, size, null, 0, 0, "";
      initial := if b == null then "" else b[..];
    }

    constructor Stream(o: Backend?)
      ensures Valid() && emitted == "" && emit == ToBackend && buf == null && out == o
      ensures o != null ==> initial == o.log
    {
      emit, buf, cap, out, pos, produced, emitted := ToBackend, null, 0, o, 0, 0, "";
      initial := if o == null then "" else o.log;
    }

    method EmitBuf(c: char)
      requires Valid() && emit == ToBuffer
      modifies this, buf
      ensures Valid() && emitted == old(emitted) + [c]
    {
      if buf != null && pos + 1 < cap {
        buf[pos] := c;
        pos := pos + 1;
      }
      produced := produced + 1;
      emitted := emitted + [c];
    }

    method EmitOut(c: char)
      requires Valid() && emit == ToBackend
      modifies this, out
      ensures Valid() && emitted == old(emitted) + [c]
    {
      if out != null {
        out.Putc(c);
      }
      produced := produced + 1;
      emitted := emitted + [c];
    }

    method Put(c: char)
      requires Valid()
      modifies this, buf, out
      ensures Valid() && emitted == old(emitted) + [c]
    {
      match emit
      case ToBuffer => EmitBuf(c);
      case ToBackend => EmitOut(c);
    }

    method PutMany(c: char, n: int)
      requires Valid()
      modifies this, buf, out
      ensures Valid() && emitted == old(emitted) + Repeat(c, Missing(0, n))
    {
      var i := 0;
      while i < n
        invariant Valid() && 0 <= i <= Missing(0, n) && emitted == old(emitted) + Repeat(c, i)
      {
        Put(c);
        i := i + 1;
      }
    }

    method PutAll(s: string)
      requires Valid()
      modifies this, buf, out
      ensures Valid() && emitted == old(emitted) + s
    {
      var i := 0;
      while i < |s|
        invariant Valid() && i <= |s| && emitted == old(emitted) + s[..i]
      {
        Put(s[i]);
        i := i + 1;
      }
    }

    /** Pads a text with blanks or zeros to a width, and with zeros to a number of digits. */
    method EmitPadded(body: string, width: nat, flags: Flags, prec: int)
      requires Valid()
      modifies this, buf, out
      ensures Valid() && emitted == old(emitted) + Pad(Field(body, width, flags.left, flags.zero, prec))
    {
      ghost var f := Field(body, width, flags.left, flags.zero, prec);
      var padZero := if prec > |body| then prec - |body| else 0;
      var total := |body| + padZero;
      var padSpace := if width > total then width - total else 0;
      var zeroPadViaWidth := 0;
      if flags.zero && !flags.left && prec < 0 {
        zeroPadViaWidth, padSpace := padSpace, 0;
      }
      assert padSpace == Blanks(f);
      PadParts(emitted, f, zeroPadViaWidth, padZero);
      if !flags.left {
        PutMany(' ', padSpace);
      }
      PutMany('0', zeroPadViaWidth);
      PutMany('0', padZero);
      PutAll(body);
      if flags.left {
        PutMany(' ', padSpace);
      }
    }
  }

  // ---- Reading a directive ---------------------------------------------------------------

  /** The character at `p`, NUL at the end. */
  function CharAt(s: string, p: nat): (c: char)
    requires p <= |s|
    ensures c == At(s[p..])
  {
    if p == |s| then '\0' else s[p]
  }

  lemma Suffix(s: string, p: nat, k: nat)
    requires p + k <= |s|
    ensures s[p..][k..] == s[p + k..] && s[p..][..k] == s[p..p + k]
  {
  }

  method ReadFlags(fmt: CString, p: nat) returns (f: Flags, q: nat)
    requires p <= |fmt|
    ensures p <= q <= |fmt| && ScanFlags(fmt[p..], Flags(false, false)) == (f, fmt[q..])
  {
    f, q := Flags(false, false), p;
    while true
      invariant p <= q <= |fmt| && ScanFlags(fmt[p..], Flags(false, false)) == ScanFlags(fmt[q..], f)
      decreases |fmt| - q
    {
      if CharAt(fmt, q) == '-' {
        f, q := f.(left := true), q + 1;
      } else if CharAt(fmt, q) == '0' {
        f, q := f.(zero := true), q + 1;
      } else {
        break;
      }
    }
  }

  method ReadWidth(fmt: CString, p: nat, f0: Flags, args: seq<Arg>) returns (f: Flags, width: nat, q: nat, rest: seq<Arg>)
    requires p <= |fmt|
    ensures p <= q <= |fmt| && ScanWidth(fmt[p..], f0, args) == (f, width, fmt[q..], rest)
  {
    f, rest := f0, args;
    if CharAt(fmt, p) == '*' {
      var w := IntArg(rest);
      rest, q := Next(rest), p + 1;
      if w < 0 {
        f, w := f.(left := true), -w;
      }
      width := w;
    } else {
      width, q := ParseUint(fmt, p);
      Suffix(fmt, p, q - p);
    }
  }

  method ReadPrecision(fmt: CString, p: nat, args: seq<Arg>) returns (prec: int, q: nat, rest: seq<Arg>)
    requires p <= |fmt|
    ensures p <= q <= |fmt| && ScanPrecision(fmt[p..], args) == (prec, fmt[q..], rest)
  {
    prec, q, rest := -1, p, args;
    if CharAt(fmt, q) == '.' {
      Suffix(fmt, p, 1);
      prec, q, rest := ReadPrecisionValue(fmt, q + 1, args);
    }
  }

  method ReadPrecisionValue(fmt: CString, p: nat, args: seq<Arg>) returns (prec: int, q: nat, rest: seq<Arg>)
    requires p <= |fmt|
    ensures p <= q <= |fmt| && ScanPrecisionValue(fmt[p..], args) == (prec, fmt[q..], rest)
  {
    if CharAt(fmt, p) == '*' {
      prec, rest, q := IntArg(args), Next(args), p + 1;
      if prec < 0 {
        prec := -1;
      }
      Suffix(fmt, p, 1);
    } else {
      prec, q := ParseUint(fmt, p);
      rest := args;
      Suffix(fmt, p, q - p);
    }
  }

  method ReadLength(fmt: CString, p: nat) returns (long: nat, q: nat)
    requires p <= |fmt|
    ensures p <= q <= |fmt| && ScanLength(fmt[p..]) == (long, fmt[q..])
  {
    long, q := 0, p;
    if CharAt(fmt, q) == 'l' {
      long, q := 1, q + 1;
      if CharAt(fmt, q) == 'l' {
        long, q := 2, q + 1;
      }
    } else if CharAt(fmt, q) == 'h' {
      q := q + 1;
      if CharAt(fmt, q) == 'h' {
        q := q + 1;
      }
    } else if CharAt(fmt, q) == 'z' {
      q := q + 1;
    }
  }

  method ReadDirective(fmt: CString, p: nat, args: seq<Arg>) returns (d: Directive, q: nat, rest: seq<Arg>)
    requires p <= |fmt|
    ensures p <= q <= |fmt| && ParseDirective(fmt[p..], args) == Parsed(d, fmt[q..], rest)
  {
    var f0, q1 := ReadFlags(fmt, p);
    var f, width, q2, args2 := ReadWidth(fmt, q1, f0, args);
    var prec, q3, args3 := ReadPrecision(fmt, q2, args2);
    var long, q4 := ReadLength(fmt, q3);
    d, rest := Directive(f, width, prec, long, CharAt(fmt, q4)), args3;
    q := if q4 == |fmt| then q4 else q4 + 1;
    DirectiveParts(fmt[p..], args, f0, fmt[q1..], f, width, fmt[q2..], args2, prec, fmt[q3..], args3, long, fmt[q4..]);
  }

  // ---- Numbers ---------------------------------------------------------------------------

  /** Moves a slice up and fills the gap with zeros. */
  method OpenGap(a: array<char>, from: nat, to: nat, gap: nat)
    requires from <= to && to + gap <= a.Length
    modifies a
    ensures a[..] == old(a[..from]) + Repeat('0', gap) + old(a[from..to]) + old(a[to + gap..])
  {
    ghost var was := a[..];
    MoveUp(a, from, to, gap);
    FillZeros(a, from, gap);
    GapOpened(was, from, to, gap, Repeat('0', gap));
  }

  lemma GapOpened(was: string, from: nat, to: nat, gap: nat, zeros: string)
    requires from <= to && to + gap <= |was|
    ensures var moved := was[..from + gap] + was[from..to] + was[to + gap..];
      moved[..from] + zeros + moved[from + gap..] == was[..from] + zeros + was[from..to] + was[to + gap..]
  {
    var moved := was[..from + gap] + was[from..to] + was[to + gap..];
    assert moved[..from] == was[..from];
    assert moved[from + gap..] == was[from..to] + was[to + gap..];
    Assoc(was[..from] + zeros, was[from..to], was[to + gap..]);
  }

  method FillZeros(a: array<char>, from: nat, n: nat)
    requires from + n <= a.Length
    modifies a
    ensures a[..] == old(a[..from]) + Repeat('0', n) + old(a[from + n..])
  {
    ghost var was := a[..];
    var j := 0;
    while j < n
      invariant j <= n
      invariant forall k :: 0 <= k < a.Length ==> a[k] == if from <= k < from + j then '0' else was[k]
    {
      a[from + j] := '0';
      j := j + 1;
    }
    ZerosBetween(was, a[..], from, n);
  }

  lemma ZerosBetween(was: string, now: string, from: nat, n: nat)
    requires |now| == |was| && from + n <= |was|
    requires forall k :: 0 <= k < |was| ==> now[k] == if from <= k < from + n then '0' else was[k]
    ensures now == was[..from] + Repeat('0', n) + was[from + n..]
  {
    RepeatAll('0', n);
  }

  method MoveUp(a: array<char>, from: nat, to: nat, gap: nat)
    requires from <= to && to + gap <= a.Length
    modifies a
    ensures a[..] == old(a[..from + gap]) + old(a[from..to]) + old(a[to + gap..])
  {
    ghost var was := a[..];
    var i := to;
    while i > from
      invariant from <= i <= to && a[..] == was[..i + gap] + was[i..to] + was[to + gap..]
    {
      MovedOne(was, i - 1, to, gap);
      i := i - 1;
      a[i + gap] := a[i];
    }
  }

  lemma MovedOne(was: string, i: nat, to: nat, gap: nat)
    requires i < to && to + gap <= |was|
    ensures var moved := was[..i + 1 + gap] + was[i + 1..to] + was[to + gap..];
      moved[i] == was[i] && moved[i + gap := was[i]] == was[..i + gap] + was[i..to] + was[to + gap..]
  {
  }

  /** The sign, if any, and the digits. */
  method Compose(negative: bool, digits: array<char>, n: nat, a: array<char>) returns (pos: nat)
    requires n <= digits.Length && n + 1 <= a.Length && a != digits
    modifies a
    ensures pos <= n + 1 && a[..pos] == (if negative then "-" else "") + digits[..n]
  {
    pos := 0;
    if negative {
      a[0], pos := '-', 1;
    }
    ghost var sign := a[..pos];
    var i := 0;
    while i < n
      invariant i <= n && pos == |sign| + i && a[..pos] == sign + digits[..i]
    {
      a[pos] := digits[i];
      pos, i := pos + 1, i + 1;
    }
  }

  method DigitsInto(d: Directive, n: int, numbuf: array<char>) returns (len: nat)
    requires Abs(n) < TWO64 && numbuf.Length == 68
    modifies numbuf
    ensures len <= 64 && numbuf[..len] == NumberDigits(d, n)
  {
    len := U64ToStr(Abs(n), Base(d.spec), d.spec == 'X', numbuf, 0);
    assert numbuf[..len] == Numeral(Abs(n), Base(d.spec), d.spec == 'X');
    if d.prec == 0 && n == 0 {
      len := 0;
    }
  }

  /** Composes the text of a number, zeros between a minus sign and the digits included. */
  method NumberBody(d: Directive, n: int) returns (body: string, flags: Flags)
    requires IsNumeric(d.spec) && Abs(n) < TWO64 && d.prec >= -1 && (ZeroFilled(d, n) ==> d.width <= 70)
    ensures Field(body, d.width, flags.left, flags.zero, d.prec) == NumberField(d, n)
  {
    var numbuf := new char[68];
    var numbuf2 := new char[70];
    flags := d.flags;
    var len := DigitsInto(d, n, numbuf);
    var pos := Compose(n < 0, numbuf, len, numbuf2);
    assert numbuf2[..pos] == NumberText(d, n);
    if n < 0 && flags.zero && !flags.left && d.prec < 0 && d.width > pos {
      assert numbuf2[..1] == "-" && numbuf2[1..pos] == NumberDigits(d, n);
      OpenGap(numbuf2, 1, pos, d.width - pos);
      pos, flags := d.width, flags.(zero := false);
      assert numbuf2[..pos] == "-" + Repeat('0', d.width - |NumberText(d, n)|) + NumberDigits(d, n);
    }
    body := numbuf2[..pos];
  }

  /** The address in hexadecimal, filled up with zeros after the prefix. */
  method AddressBody(v: nat) returns (body: string)
    requires v < TWO64
    ensures body == AddressText(v)
  {
    var numbuf := new char[68];
    numbuf[0], numbuf[1] := '0', 'x';
    assert numbuf[..2] == "0x";
    var len := U64ToStr(v, 16, false, numbuf, 2);
    assert numbuf[..2] == "0x" && numbuf[2..2 + len] == Numeral(v, 16, false);
    if len < ADDRESS_DIGITS {
      OpenGap(numbuf, 2, 2 + len, ADDRESS_DIGITS - len);
      len := ADDRESS_DIGITS;
    }
    body := numbuf[..2 + len];
  }

  // ---- The formatter ---------------------------------------------------------------------

  method FormatString(s: Sink, d: Directive, args: seq<Arg>)
    requires s.Valid() && d.spec == 's'
    modifies s, s.buf, s.out
    ensures s.Valid() && s.emitted == old(s.emitted) + Piece(d, args)
  {
    var str := TextArg(args);
    var n := 0;
    while n < |str| && (d.prec < 0 || n < d.prec)
      invariant n <= |str| && (d.prec >= 0 ==> n <= d.prec)
    {
      n := n + 1;
    }
    assert str[..n] == Prefix(str, d.prec);
    s.EmitPadded(str[..n], d.width, d.flags, -1);
  }

  lemma NumberInRange(d: Directive, args: seq<Arg>)
    ensures Abs(NumberOf(d, args)) < TWO64
  {
  }

  method FormatDirective(s: Sink, d: Directive, args: seq<Arg>)
    requires s.Valid() && PieceFits(d, args) && d.prec >= -1
    modifies s, s.buf, s.out
    ensures s.Valid() && s.emitted == old(s.emitted) + Piece(d, args)
  {
    if d.spec == 'c' {
      s.EmitPadded([CharOf(NumberArg(args))], d.width, d.flags, -1);
    } else if d.spec == 's' {
      FormatString(s, d, args);
    } else if d.spec == '%' {
      s.Put('%');
    } else if IsNumeric(d.spec) {
      NumberInRange(d, args);
      var body, flags := NumberBody(d, NumberOf(d, args));
      s.EmitPadded(body, d.width, flags, d.prec);
    } else if d.spec == 'p' {
      var body := AddressBody(Unsigned(NumberArg(args), 32));
      s.EmitPadded(body, d.width, d.flags, -1);
    } else {
      s.Put('%');
      if d.spec != '\0' {
        s.Put(d.spec);
      }
    }
  }

  method FormatCore(s: Sink, fmt: CString, args: seq<Arg>) returns (n: nat)
    requires s.Valid() && Fits(fmt, args)
    modifies s, s.buf, s.out
    ensures s.Valid() && s.emitted == old(s.emitted) + Format(fmt, args) && n == |s.emitted|
  {
    var p, rest := 0, args;
    while p < |fmt|
      invariant s.Valid() && p <= |fmt| && Fits(fmt[p..], rest)
      invariant s.emitted + Format(fmt[p..], rest) == old(s.emitted) + Format(fmt, args)
    {
      p, rest := FormatOne(s, fmt, p, rest);
    }
    n := s.produced;
  }

  /** One plain character or one directive. */
  method FormatOne(s: Sink, fmt: CString, p: nat, args: seq<Arg>) returns (q: nat, rest: seq<Arg>)
    requires s.Valid() && p < |fmt| && Fits(fmt[p..], args)
    modifies s, s.buf, s.out
    ensures s.Valid() && p < q <= |fmt| && Fits(fmt[q..], rest)
    ensures s.emitted + Format(fmt[q..], rest) == old(s.emitted) + Format(fmt[p..], args)
  {
    Suffix(fmt, p, 1);
    var c := fmt[p];
    if c != '%' {
      Assoc(s.emitted, [c], Format(fmt[p + 1..], args));
      s.Put(c);
      q, rest := p + 1, args;
    } else {
      var d, r, left := ReadDirective(fmt, p + 1, args);
      Assoc(s.emitted, Piece(d, left), Format(fmt[r..], ArgsAfter(d, left)));
      FormatDirective(s, d, left);
      q, rest := r, ArgsAfter(d, left);
    }
  }

  /** Prints to a backend. */
  method VfPrintf(out: Backend?, fmt: CString, args: seq<Arg>) returns (n: nat)
    requires Fits(fmt, args)
    modifies out
    ensures out != null ==> out.log == old(out.log) + Format(fmt, args)
    ensures n == |Format(fmt, args)|
  {
    var s := new Sink.Stream(out);
    n := FormatCore(s, fmt, args);
    FromNothing(Format(fmt, args));
  }

  lemma FromNothing(text: string)
    ensures "" + text == text
  {
  }

  /** What a buffer of `size` characters holds after printing `text` into it. */
  function Truncated(text: string, size: nat, was: string): string
    requires size <= |was|
  {
    if size == 0 then was
    else
      var k := Kept(|text|, size);
      text[..k] + ['\0'] + was[k + 1..]
  }

  /** Prints into a buffer of `size` characters, or only measures if there is none. */
  method VsnPrintf(buf: array?<char>, size: nat, fmt: CString, args: seq<Arg>) returns (n: nat)
    requires Fits(fmt, args) && (buf != null ==> size <= buf.Length)
    modifies buf
    ensures buf != null ==> buf[..] == Truncated(Format(fmt, args), size, old(buf[..]))
    ensures n == |Format(fmt, args)|
  {
    var s := new Sink.Buffer(buf, size);
    ghost var text := Format(fmt, args);
    n := FormatCore(s, fmt, args);
    FromNothing(text);
    if buf != null && size > 0 {
      var end := if s.pos < size then s.pos else size - 1;
      Terminated(buf[..], text, size, s.initial);
      buf[end] := '\0';
    }
  }

  lemma Terminated(b: string, text: string, size: nat, was: string)
    requires 0 < size <= |was| && b == text[..Kept(|text|, size)] + was[Kept(|text|, size)..]
    ensures b[Kept(|text|, size) := '\0'] == Truncated(text, size, was)
  {
  }

  /** The string in a buffer: up to its first NUL. */
  function StringIn(b: string): string {
    if b == "" || b[0] == '\0' then "" else [b[0]] + StringIn(b[1..])
  }

  lemma {:induction false} StringBeforeNul(text: string, rest: string)
    requires '\0' !in text
    ensures StringIn(text + ['\0'] + rest) == text
  {
    var b := text + ['\0'] + rest;
    if text != "" {
      assert b[1..] == text[1..] + ['\0'] + rest;
      StringBeforeNul(text[1..], rest);
      assert b[0] == text[0];
    }
  }

  /** The buffer holds the first `size - 1` characters as a string: all of the text exactly if the returned length is below `size`. */
  lemma TruncationLaw(text: string, size: nat, was: string)
    requires 0 < size <= |was| && '\0' !in text
    ensures |Truncated(text, size, was)| == |was|
    ensures StringIn(Truncated(text, size, was)) == if |text| < size then text else text[..size - 1]
    ensures StringIn(Truncated(text, size, was)) == text <==> |text| < size
    ensures Truncated(text, size, was)[size..] == was[size..]
  {
    var k := Kept(|text|, size);
    StringBeforeNul(text[..k], was[k + 1..]);
  }
}
