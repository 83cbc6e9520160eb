/** The lines that are no bus transactions: what each says, by its text alone. */
module TwiSpecial {
  import opened Basics
  import opened TwiSyntax

  predicate Blank(s: string) {
    forall i :: 0 <= i < |s| ==> s[i] == ' ' || s[i] == '\t'
  }

  /** The line is the word with blanks around it at most. */
  ghost predicate Says(line: string, word: string) {
    exists before, after :: Blank(before) && Blank(after) && line == before + word + after
  }

  /** The eight bits of a byte, the highest first. */
  function Octet(v: Byte): string {
    [Bit(v, 128), Bit(v, 64), Bit(v, 32), Bit(v, 16), Bit(v, 8), Bit(v, 4), Bit(v, 2), Bit(v, 1)]
  }

  function Bit(v: Byte, weight: nat): char
    requires weight > 0
  {
    if v / weight % 2 == 1 then '1' else '0'
  }

  // ---- Blanks ----------------------------------------------------------------------------

  lemma {:induction false} BlanksSkipped(before: string, s: string)
    requires Blank(before) && (s == "" || (s[0] != ' ' && s[0] != '\t'))
    ensures SkipBlanks(before + s) == s
    decreases |before|
  {
    if before == "" {
      assert before + s == s;
    } else {
      assert (before + s)[1..] == before[1..] + s;
      BlanksSkipped(before[1..], s);
    }
  }

  /** The blanks in front of a text. */
  function Lead(s: string): (before: string)
    ensures Blank(before) && s == before + SkipBlanks(s)
  {
    if s != "" && (s[0] == ' ' || s[0] == '\t') then [s[0]] + Lead(s[1..]) else ""
  }

  lemma TailEmptyIs(s: string)
    ensures TailEmpty(s) <==> Blank(s)
  {
    if Blank(s) {
      BlanksSkipped(s, "");
      assert s + "" == s;
    }
    if TailEmpty(s) { assert Lead(s) + "" == Lead(s); }
  }

  // ---- Bits ------------------------------------------------------------------------------

  function Weigh(c: char): nat {
    if c == '1' then 1 else 0
  }

  /** The byte eight bits make. */
  function ByteOf(s: string): int
    requires |s| >= 8
  {
    128 * Weigh(s[0]) + 64 * Weigh(s[1]) + 32 * Weigh(s[2]) + 16 * Weigh(s[3])
      + 8 * Weigh(s[4]) + 4 * Weigh(s[5]) + 2 * Weigh(s[6]) + Weigh(s[7])
  }

  predicate AllBits(s: string) {
    |s| >= 8 && forall i :: 0 <= i < 8 ==> IsBin(s[i])
  }

  /** What the first `i` bits make. */
  function Sofar(s: string, i: nat): (v: nat)
    requires i <= 8 && i <= |s|
    ensures v < [1, 2, 4, 8, 16, 32, 64, 128, 256][i]
  {
    if i == 0 then 0 else 2 * Sofar(s, i - 1) + Weigh(s[i - 1])
  }

  lemma {:induction false} OutBitsGoOn(s: string, i: nat)
    requires i <= 8 && i <= |s|
    ensures OutBitsFrom(s, i, Sofar(s, i)).Ok? <==> |s| >= 8 && forall j :: i <= j < 8 ==> IsBin(s[j])
    ensures OutBitsFrom(s, i, Sofar(s, i)).Ok? ==> OutBitsFrom(s, i, Sofar(s, i)) == Ok(Sofar(s, 8), s[8..])
    decreases 8 - i
  {
    if i < 8 && IsBin(At(s, i)) {
      SofarStep(s, i);
      OutBitsStep(s, i, Sofar(s, i), Sofar(s, i + 1));
      OutBitsGoOn(s, i + 1);
    }
  }

  lemma SofarStep(s: string, i: nat)
    requires i < 8 && i < |s| && IsBin(s[i])
    ensures Sofar(s, i + 1) == ShiftIn(Sofar(s, i), s[i])
  {
    assert Sofar(s, i) < 128;
  }

  lemma OutBitsStep(s: string, i: nat, v: Byte, w: Byte)
    requires i < 8 && i < |s| && IsBin(s[i]) && w == ShiftIn(v, s[i])
    ensures OutBitsFrom(s, i, v) == OutBitsFrom(s, i + 1, w)
  {
  }

  lemma SofarIsByte(s: string)
    requires |s| >= 8
    ensures Sofar(s, 8) == ByteOf(s)
  {
    assert Sofar(s, 2) == 2 * Weigh(s[0]) + Weigh(s[1]);
    assert Sofar(s, 4) == 4 * Sofar(s, 2) + 2 * Weigh(s[2]) + Weigh(s[3]);
    assert Sofar(s, 6) == 4 * Sofar(s, 4) + 2 * Weigh(s[4]) + Weigh(s[5]);
    assert Sofar(s, 8) == 4 * Sofar(s, 6) + 2 * Weigh(s[6]) + Weigh(s[7]);
  }

  lemma OutBitsAre(s: string)
    ensures OutBitsFrom(s, 0, 0).Ok? <==> AllBits(s)
    ensures AllBits(s) ==> 0 <= ByteOf(s) < 256 && OutBitsFrom(s, 0, 0) == Ok(ByteOf(s), s[8..])
  {
    OutBitsGoOn(s, 0);
    if |s| >= 8 { SofarIsByte(s); }
  }

  lemma BitsOfByte(s: string)
    requires |s| == 8 && AllBits(s)
    ensures 0 <= ByteOf(s) < 256 && Octet(ByteOf(s)) == s
  {
    var v := ByteOf(s);
    assert v / 128 == Weigh(s[0]);
    assert v / 64 == 2 * (v / 128) + Weigh(s[1]);
    assert v / 32 == 2 * (v / 64) + Weigh(s[2]);
    assert v / 16 == 2 * (v / 32) + Weigh(s[3]);
    assert v / 8 == 2 * (v / 16) + Weigh(s[4]);
    assert v / 4 == 2 * (v / 8) + Weigh(s[5]);
    assert v / 2 == 2 * (v / 4) + Weigh(s[6]);
    assert v == 2 * (v / 2) + Weigh(s[7]);
  }

  lemma WeighBit(v: Byte, weight: nat)
    requires weight > 0
    ensures Weigh(Bit(v, weight)) == v / weight % 2
  {
  }

  lemma OctetIsBits(v: Byte)
    ensures AllBits(Octet(v))
  {
  }

  lemma ByteOfBits(v: Byte)
    ensures ByteOf(Octet(v)) == v
  {
    WeighBit(v, 128);
    WeighBit(v, 64);
    WeighBit(v, 32);
    WeighBit(v, 16);
    WeighBit(v, 8);
    WeighBit(v, 4);
    WeighBit(v, 2);
    WeighBit(v, 1);
    BinarySum(v);
  }

  lemma BinarySum(v: nat)
    requires v < 256
    ensures v == 128 * (v / 128 % 2) + 64 * (v / 64 % 2) + 32 * (v / 32 % 2) + 16 * (v / 16 % 2)
      + 8 * (v / 8 % 2) + 4 * (v / 4 % 2) + 2 * (v / 2 % 2) + v / 1 % 2
  {
    Halves(v, v / 2);
    Halves(v / 2, v / 4);
    Halves(v / 4, v / 8);
    Halves(v / 8, v / 16);
    Halves(v / 16, v / 32);
    Halves(v / 32, v / 64);
    Halves(v / 64, v / 128);
  }

  lemma Halves(a: nat, b: nat)
    requires b == a / 2
    ensures a == 2 * b + a % 2
  {
  }

  // ---- The special lines -----------------------------------------------------------------

  const OUT := "out_"

  /** The line is one of the four kinds of special lines. */
  ghost predicate IsSpecial(line: string) {
    || (exists v: Byte :: Says(line, OUT + Octet(v)))
    || Says(line, "inp") || Says(line, "help") || Says(line, "?")
  }

  lemma SaysIs(line: string, word: string)
    requires word != "" && word[0] != ' ' && word[0] != '\t'
    ensures Says(line, word) <==> word <= SkipBlanks(line) && Blank(SkipBlanks(line)[|word|..])
  {
    var s := SkipBlanks(line);
    if word <= s && Blank(s[|word|..]) {
      Assoc(Lead(line), word, s[|word|..]);
      assert word + s[|word|..] == s;
    }
    if Says(line, word) {
      var before, after :| Blank(before) && Blank(after) && line == before + word + after;
      Assoc(before, word, after);
      BlanksSkipped(before, word + after);
      Behind(word, after);
    }
  }

  lemma Behind(word: string, after: string)
    ensures word <= word + after && (word + after)[|word|..] == after
  {
  }

  lemma WordLine(s: string)
    requires s != "" && !(OUT <= s)
    ensures "inp" <= s && Blank(s[3..]) ==> Special(s) == Accepted(Txn([NO_CMD.(kind := GpioIn)], []))
    ensures ("help" <= s && Blank(s[4..])) || ("?" <= s && Blank(s[1..])) ==> Special(s) == Accepted(Txn([NO_CMD.(kind := Help)], []))
    ensures Special(s).Accepted? ==> ("inp" <= s && Blank(s[3..])) || ("help" <= s && Blank(s[4..])) || ("?" <= s && Blank(s[1..]))
  {
    TailEmptyIs(s[1..]);
    if |s| >= 3 { TailEmptyIs(s[3..]); }
    if |s| >= 4 { TailEmptyIs(s[4..]); }
  }

  lemma OutLine(s: string, v: Byte)
    requires OUT + Octet(v) <= s && Blank(s[12..])
    ensures Special(s) == Accepted(Txn([NO_CMD.(kind := GpioOut, gpio := v)], []))
  {
    var t := s[4..];
    assert t[..8] == Octet(v) && t[8..] == s[12..];
    OctetIsBits(v);
    ByteOfBits(v);
    assert forall i :: 0 <= i < 8 ==> t[i] == t[..8][i];
    OutBitsAre(t);
    TailEmptyIs(s[12..]);
  }

  lemma OutLineSays(line: string, s: string)
    requires s == SkipBlanks(line) && OUT <= s && Special(s).Accepted?
    ensures exists v: Byte :: Says(line, OUT + Octet(v))
  {
    var t := s[4..];
    OutBitsAre(t);
    var v: Byte := ByteOf(t);
    BitsOfByte(t[..8]);
    TailEmptyIs(t[8..]);
    assert OUT + Octet(v) == s[..12] && s[12..] == t[8..];
    SaysIs(line, OUT + Octet(v));
  }

  /** What a line says that is not a bus transaction, and that it is refused if it says nothing. */
  lemma SpecialLines(line: string)
    requires !AtCmdStart(SkipBlanks(line))
    ensures forall v: Byte :: Says(line, OUT + Octet(v)) ==> Parse(line) == Accepted(Txn([NO_CMD.(kind := GpioOut, gpio := v)], []))
    ensures Says(line, "inp") ==> Parse(line) == Accepted(Txn([NO_CMD.(kind := GpioIn)], []))
    ensures Says(line, "help") || Says(line, "?") ==> Parse(line) == Accepted(Txn([NO_CMD.(kind := Help)], []))
    ensures Parse(line).Accepted? ==> IsSpecial(line)
  {
    var s := SkipBlanks(line);
    SaysIs(line, "inp");
    SaysIs(line, "help");
    SaysIs(line, "?");
    forall v: Byte | Says(line, OUT + Octet(v))
      ensures Parse(line) == Accepted(Txn([NO_CMD.(kind := GpioOut, gpio := v)], []))
    {
      SaysIs(line, OUT + Octet(v));
      OutLine(s, v);
    }
    if s != "" {
      if OUT <= s {
        if Special(s).Accepted? { OutLineSays(line, s); }
      } else {
        WordLine(s);
      }
    }
  }

  // ---- Bus transactions ------------------------------------------------------------------

  /** After blanks the line starts like a command for one of the four control bytes. */
  ghost predicate StartsTransaction(line: string) {
    exists before, rest :: Blank(before) && line == before + rest && |rest| >= 3 && rest[..2] == "hA" && rest[2] in "0123"
  }

  lemma StartsTransactionIs(line: string)
    ensures StartsTransaction(line) <==> AtCmdStart(SkipBlanks(line))
  {
    var s := SkipBlanks(line);
    if AtCmdStart(s) { assert line == Lead(line) + s && s[..2] == "hA"; }
    if StartsTransaction(line) {
      var before, rest :| Blank(before) && line == before + rest && |rest| >= 3 && rest[..2] == "hA" && rest[2] in "0123";
      assert rest[0] == rest[..2][0] && rest[1] == rest[..2][1];
      BlanksSkipped(before, rest);
    }
  }

  /** A special line does not start a transaction. */
  lemma SpecialIsNoTransaction(line: string)
    requires IsSpecial(line)
    ensures !AtCmdStart(SkipBlanks(line))
  {
    SaysIs(line, "inp");
    SaysIs(line, "help");
    SaysIs(line, "?");
    if v: Byte :| Says(line, OUT + Octet(v)) { SaysIs(line, OUT + Octet(v)); }
  }
}
