/** Numbers as text: rendering in bases 2 to 16, and reading a decimal width or precision. */
module NeoNumbers {
  import opened Bits

  const TWO64: nat := 0x1_0000_0000_0000_0000

  const LOWER: string := "0123456789abcdef"
  const UPPER: string := "0123456789ABCDEF"

  function Digit(d: nat, upper: bool): char
    requires d < 16
  {
    if upper then UPPER[d] else LOWER[d]
  }

  /** The number a digit character stands for. */
  function DigitValue(c: char): nat {
    if '0' <= c <= '9' then c as nat - '0' as nat
    else if 'a' <= c <= 'f' then c as nat - 'a' as nat + 10
    else if 'A' <= c <= 'F' then c as nat - 'A' as nat + 10
    else 0
  }

  /** A digit of the base, in the given case. */
  predicate IsDigit(c: char, base: nat, upper: bool)
    requires base <= 16
  {
    exists d :: 0 <= d < base && c == Digit(d, upper)
  }

  lemma DigitBack(d: nat, upper: bool)
    requires d < 16
    ensures DigitValue(Digit(d, upper)) == d
  {
    if d < 10 {
      assert Digit(d, upper) == "0123456789"[d];
    }
  }

  /** The digits of `v`, most significant first; none for zero. */
  ghost function Digits(v: nat, base: nat, upper: bool): string
    requires 2 <= base <= 16
  {
    if v == 0 then ""
    else
      QuotRest(v, base);
      QuotShrinks(v, base);
      Digits(Quot(v, base), base, upper) + [Digit(Rest(v, base), upper)]
  }

  lemma QuotShrinks(v: nat, base: nat)
    requires v > 0 && base >= 2
    ensures Quot(v, base) < v
  {
    QuotIsDiv(v, base);
    QuotIsDiv(v, 2);
    HalfBound(v, base);
  }

  lemma {:induction false} HalfBound(v: nat, base: nat)
    requires base >= 2
    ensures Quot(v, base) <= v / 2
  {
    if v >= base { HalfBound(v - base, base); }
  }

  /** The text of a number. */
  ghost function Numeral(v: nat, base: nat, upper: bool): string
    requires 2 <= base <= 16
  {
    if v == 0 then "0" else Digits(v, base, upper)
  }

  /** Reading digits positionally. */
  function Value(s: string, base: nat): nat {
    if s == "" then 0 else Times(base, Value(s[..|s| - 1], base)) + DigitValue(s[|s| - 1])
  }

  lemma Snoc(s: string, c: char, base: nat)
    ensures Value(s + [c], base) == Times(base, Value(s, base)) + DigitValue(c)
  {
    assert (s + [c])[..|s|] == s;
  }

  /** The digits and their value in the usual operators. */
  lemma DigitsAre(v: nat, base: nat, upper: bool)
    requires 2 <= base <= 16 && v > 0
    ensures v / base < v && Digits(v, base, upper) == Digits(v / base, base, upper) + [Digit(v % base, upper)]
  {
    QuotRest(v, base);
    QuotShrinks(v, base);
    QuotIsDiv(v, base);
  }

  lemma ValueIs(s: string, c: char, base: nat)
    ensures Value(s + [c], base) == base * Value(s, base) + DigitValue(c)
  {
    Snoc(s, c, base);
    TimesIsMul(base, Value(s, base));
  }

  // ---- What the text says ----------------------------------------------------------------

  lemma {:induction false} DigitsValue(v: nat, base: nat, upper: bool)
    requires 2 <= base <= 16
    ensures Value(Digits(v, base, upper), base) == v
  {
    if v > 0 {
      QuotRest(v, base);
      QuotShrinks(v, base);
      DigitsValue(Quot(v, base), base, upper);
      Snoc(Digits(Quot(v, base), base, upper), Digit(Rest(v, base), upper), base);
      DigitBack(Rest(v, base), upper);
    }
  }

  /** Reading the text positionally gives the number back. */
  lemma NumeralValue(v: nat, base: nat, upper: bool)
    requires 2 <= base <= 16
    ensures Value(Numeral(v, base, upper), base) == v
  {
    DigitsValue(v, base, upper);
    if v == 0 { Snoc("", '0', base); assert "" + ['0'] == "0"; TimesIsMul(base, 0); }
  }

  /** Only digits, and no zero in front. */
  ghost predicate Plain(s: string, base: nat, upper: bool)
    requires base <= 16
  {
    && (forall i :: 0 <= i < |s| ==> IsDigit(s[i], base, upper))
    && (s != "" ==> s[0] != '0')
  }

  lemma {:induction false} DigitsPlain(v: nat, base: nat, upper: bool)
    requires 2 <= base <= 16
    ensures Plain(Digits(v, base, upper), base, upper)
    ensures Digits(v, base, upper) == "" <==> v == 0
  {
    if v > 0 {
      QuotRest(v, base);
      QuotShrinks(v, base);
      DigitsPlain(Quot(v, base), base, upper);
      assert IsDigit(Digit(Rest(v, base), upper), base, upper);
      if Quot(v, base) == 0 {
        TimesIsMul(base, 0);
        DigitBack(Rest(v, base), upper);
      }
    }
  }

  /** A text without leading zeros is determined by its value: it is what rendering gives. */
  lemma {:induction false} PlainIsDigits(s: string, base: nat, upper: bool)
    requires 2 <= base <= 16 && Plain(s, base, upper)
    ensures s == Digits(Value(s, base), base, upper)
    decreases |s|
  {
    if s != "" {
      var front, last := s[..|s| - 1], s[|s| - 1];
      assert s == front + [last];
      PlainIsDigits(front, base, upper);
      var d :| 0 <= d < base && last == Digit(d, upper);
      DigitBack(d, upper);
      QuotRestUnique(Value(s, base), base, Value(front, base), d);
      PositiveValue(s, base, upper);
    }
  }

  lemma {:induction false} PositiveValue(s: string, base: nat, upper: bool)
    requires 2 <= base <= 16 && Plain(s, base, upper) && s != ""
    ensures Value(s, base) > 0
    decreases |s|
  {
    var front, last := s[..|s| - 1], s[|s| - 1];
    assert s == front + [last];
    if front != "" {
      PositiveValue(front, base, upper);
    } else {
      var d :| 0 <= d < base && last == Digit(d, upper);
      DigitBack(d, upper);
    }
  }

  lemma {:induction false} DigitsLength(v: nat, base: nat, upper: bool, k: nat)
    requires 2 <= base <= 16 && v < Pow2(k)
    ensures |Digits(v, base, upper)| <= k
  {
    if v > 0 {
      QuotRest(v, base);
      QuotShrinks(v, base);
      HalfBound(v, base);
      DigitsLength(Quot(v, base), base, upper, k - 1);
    }
  }

  lemma TwoTo64()
    ensures Pow2(64) == TWO64
  {
    TwoTo32();
    assert Pow2(40) == 0x100 * TWO32;
    assert Pow2(48) == 0x1_0000 * TWO32;
    assert Pow2(56) == 0x100_0000 * TWO32;
  }

  /** A 64-bit number has 1 to 64 digits, and a zero in front only if it is "0". */
  lemma NumeralShape(v: nat, base: nat, upper: bool)
    requires 2 <= base <= 16 && v < TWO64
    ensures var s := Numeral(v, base, upper);
      1 <= |s| <= 64 && (forall i :: 0 <= i < |s| ==> IsDigit(s[i], base, upper)) && (s[0] == '0' ==> s == "0")
  {
    TwoTo64();
    DigitsLength(v, base, upper, 64);
    DigitsPlain(v, base, upper);
    assert IsDigit(Digit(0, upper), base, upper);
  }

  // ---- Rendering -------------------------------------------------------------------------

  function Reversed(s: string): string {
    if s == "" then "" else [s[|s| - 1]] + Reversed(s[..|s| - 1])
  }

  lemma ReversedSnoc(s: string, c: char)
    ensures Reversed(s + [c]) == [c] + Reversed(s)
  {
    assert (s + [c])[..|s|] == s;
  }

  lemma {:induction false} ReversedAt(s: string, i: nat)
    requires i < |s|
    ensures |Reversed(s)| == |s| && Reversed(s)[i] == s[|s| - 1 - i]
  {
    if i > 0 {
      ReversedAt(s[..|s| - 1], i - 1);
    } else if |s| > 1 {
      ReversedAt(s[..|s| - 1], 0);
    }
  }

  /** The lowest digit and what is left, by shift and mask where the base is a power of two. */
  method SplitDigit(v: nat, base: nat) returns (d: nat, rest: nat)
    requires 2 <= base <= 16
    ensures d == v % base && rest == v / base && d < base
  {
    QuotIsDiv(v, base);
    QuotRest(v, base);
    if base == 16 {
      LowMask(v, 4);
      d, rest := BitAnd(v, 0xF), v / 16;
    } else if base == 8 {
      LowMask(v, 3);
      d, rest := BitAnd(v, 0x7), v / 8;
    } else if base == 2 {
      LowMask(v, 1);
      d, rest := BitAnd(v, 0x1), v / 2;
    } else {
      d, rest := v % base, v / base;
    }
  }

  /** Writes the text of `v` at `at`, least significant digit first into a scratch buffer and then the other way round. */
  method U64ToStr(v: nat, base: nat, upper: bool, out: array<char>, at: nat) returns (n: nat)
    requires v < TWO64 && 2 <= base <= 16 && at + 64 <= out.Length
    modifies out
    ensures n == |Numeral(v, base, upper)| <= 64
    ensures out[..] == old(out[..at]) + Numeral(v, base, upper) + old(out[at + n..])
  {
    var tmp := new char[65];
    if v == 0 {
      tmp[0], n := '0', 1;
      assert tmp[..1] == "0";
    } else {
      n := PushDigits(v, base, upper, tmp);
    }
    CopyReversed(tmp, n, out, at);
    ReversedLength(tmp[..n]);
  }

  method PushDigits(v: nat, base: nat, upper: bool, tmp: array<char>) returns (n: nat)
    requires v < TWO64 && 2 <= base <= 16 && tmp.Length >= 64
    modifies tmp
    ensures n <= 64 && Reversed(tmp[..n]) == Digits(v, base, upper)
  {
    n := 0;
    var left: nat := v;
    TwoTo64();
    assert Digits(v, base, upper) == Digits(left, base, upper) + Reversed(tmp[..n]);
    while left != 0
      decreases left
      invariant n <= 64 && left < Pow2(64 - n)
      invariant Digits(v, base, upper) == Digits(left, base, upper) + Reversed(tmp[..n])
    {
      ghost var before, was := left, tmp[..n];
      HalfBelow(left, base, 64 - n);
      var d, rest := SplitDigit(left, base);
      QuotIsDiv(left, base);
      tmp[n] := Digit(d, upper);
      assert tmp[..n + 1] == was + [Digit(d, upper)];
      left, n := rest, n + 1;
      DigitMoves(before, base, upper, was);
    }
  }

  lemma HalfBelow(v: nat, base: nat, k: nat)
    requires 0 < v < Pow2(k) && base >= 2
    ensures k > 0 && Quot(v, base) < Pow2(k - 1) && Quot(v, base) < v
  {
    HalfBound(v, base);
  }

  /** The lowest digit moves from the number to the front of the text. */
  lemma DigitMoves(v: nat, base: nat, upper: bool, text: string)
    requires v > 0 && 2 <= base <= 16
    ensures Rest(v, base) < base
    ensures Digits(v, base, upper) + Reversed(text)
         == Digits(Quot(v, base), base, upper) + Reversed(text + [Digit(Rest(v, base), upper)])
  {
    QuotRest(v, base);
    ReversedSnoc(text, Digit(Rest(v, base), upper));
  }

  lemma ReversedLength(s: string)
    ensures |Reversed(s)| == |s|
  {
    if s != "" { ReversedAt(s, 0); }
  }

  method CopyReversed(tmp: array<char>, n: nat, out: array<char>, at: nat)
    requires n <= tmp.Length && at + n <= out.Length && tmp != out
    modifies out
    ensures out[..] == old(out[..at]) + Reversed(tmp[..n]) + old(out[at + n..])
  {
    ghost var text, was := Reversed(tmp[..n]), out[..];
    ReversedLength(tmp[..n]);
    var i := 0;
    while i < n
      invariant i <= n
      invariant forall k :: 0 <= k < out.Length ==> out[k] == if at <= k < at + i then text[k - at] else was[k]
    {
      ReversedAt(tmp[..n], i);
      out[at + i] := tmp[n - 1 - i];
      i := i + 1;
    }
    assert out[..] == was[..at] + text + was[at + n..];
  }

  // ---- Reading a decimal number ----------------------------------------------------------

  predicate IsDecimal(c: char) {
    '0' <= c <= '9'
  }

  /** How many decimal digits a text starts with. */
  function DigitRun(s: string): (n: nat)
    ensures n <= |s| && (forall i :: 0 <= i < n ==> IsDecimal(s[i])) && (n < |s| ==> !IsDecimal(s[n]))
  {
    if s != "" && IsDecimal(s[0]) then 1 + DigitRun(s[1..]) else 0
  }

  /** Reads the decimal digits at `p`: their value and the place after them. */
  method ParseUint(s: string, p: nat) returns (v: nat, q: nat)
    requires p <= |s|
    ensures q == p + DigitRun(s[p..]) && v == Value(s[p..q], 10)
  {
    v, q := 0, p;
    while q < |s| && IsDecimal(s[q])
      invariant p <= q <= |s| && v == Value(s[p..q], 10)
      invariant forall i :: p <= i < q ==> IsDecimal(s[i])
    {
      DigitRead(s, p, q, v);
      v := v * 10 + (s[q] as int - '0' as int);
      q := q + 1;
    }
    RunEnds(s[p..], q - p);
  }

  lemma DigitRead(s: string, p: nat, q: nat, v: nat)
    requires p <= q < |s| && IsDecimal(s[q]) && v == Value(s[p..q], 10)
    ensures Value(s[p..q + 1], 10) == v * 10 + (s[q] as int - '0' as int)
  {
    Snoc(s[p..q], s[q], 10);
    TimesIsMul(10, v);
    assert s[p..q + 1] == s[p..q] + [s[q]];
  }

  lemma {:induction false} RunEnds(s: string, n: nat)
    requires n <= |s| && (forall i :: 0 <= i < n ==> IsDecimal(s[i])) && (n < |s| ==> !IsDecimal(s[n]))
    ensures DigitRun(s) == n
  {
    if n > 0 {
      assert IsDecimal(s[0]);
      RunEnds(s[1..], n - 1);
    }
  }

  lemma DecimalDigit(c: char)
    requires IsDigit(c, 10, false)
    ensures IsDecimal(c)
  {
    var d :| 0 <= d < 10 && c == Digit(d, false);
    assert c == "0123456789"[d];
  }

  lemma DecimalNumeral(v: nat)
    ensures forall i :: 0 <= i < |Numeral(v, 10, false)| ==> IsDecimal(Numeral(v, 10, false)[i])
  {
    var s := Numeral(v, 10, false);
    DigitsPlain(v, 10, false);
    forall i | 0 <= i < |s|
      ensures IsDecimal(s[i])
    {
      if v > 0 { DecimalDigit(s[i]); }
    }
  }

  /** Reading undoes decimal rendering, whatever non-digit follows. */
  lemma ParseUndoesRender(v: nat, rest: string)
    requires rest == "" || !IsDecimal(rest[0])
    ensures var s := Numeral(v, 10, false);
      DigitRun(s + rest) == |s| && Value((s + rest)[..|s|], 10) == v
  {
    var s := Numeral(v, 10, false);
    NumeralValue(v, 10, false);
    DecimalNumeral(v);
    assert (s + rest)[..|s|] == s;
    RunEnds(s + rest, |s|);
  }
}
