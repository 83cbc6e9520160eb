/** The bits of a line, found by reading it from left to right once, without parsing it; and grouping all of them at will. */
module TwiScan {
  import opened Basics
  import opened TwiSyntax
  import opened TwiGrouping

  /** What the last selector letter announced: nothing of interest, an internal address to come, bits, letters, or one letter. */
  datatype Where = Outside | Address | InBits | InLetters | OneLetter

  /** Where the reader is after the first character of `s`. */
  function Next(s: string, w: Where): Where
    requires s != ""
  {
    match w
    case Address => if s[0] == 'h' then Outside else if s[0] == 'b' then InBits else if s[0] == 'a' then OneLetter else Address
    case OneLetter => Outside
    case InLetters => if s[0] == '_' then Outside else InLetters
    case _ =>
      if AtCmdStart(s) then Address
      else if s[0] == 'b' then InBits
      else if s[0] == 'a' then InLetters
      else if s[0] == '_' || IsBin(s[0]) then w
      else Outside
  }

  /** The positions right after a '0' or '1' that is a bit. */
  function Bits(s: string, w: Where): (marks: set<nat>)
    ensures forall m :: m in marks ==> m < |s|
    decreases |s|
  {
    if s == "" then {}
    else (if w == InBits && IsBin(s[0]) then {|s| - 1} else {}) + Bits(s[1..], Next(s, w))
  }

  // ---- Where bits cannot come next -------------------------------------------------------

  /** What follows after any '_' is not a bit. */
  predicate Settled(s: string) {
    !IsBin(At(SkipUnders(s), 0))
  }

  lemma {:induction false} LeavingBits(s: string)
    requires Settled(s)
    ensures Bits(s, InBits) == Bits(s, Outside)
    decreases |s|
  {
    if s != "" && s[0] == '_' { LeavingBits(s[1..]); }
  }

  lemma {:induction false} UndersAreNoBits(s: string, w: Where)
    requires w == Outside || w == Address
    ensures Bits(SkipUnders(s), w) == Bits(s, w)
    decreases |s|
  {
    if s != "" && s[0] == '_' { UndersAreNoBits(s[1..], w); }
  }

  lemma {:induction false} PayloadSettled(s: string, acc: seq<Byte>, base: nat)
    requires Payload(s, acc, base).Ok?
    ensures Settled(s)
    decreases |s|
  {
    if s != "" && s[0] == '_' { PayloadSettled(s[1..], acc, base); }
  }

  // ---- Byte by byte ----------------------------------------------------------------------

  lemma HexDigitIsNoBit(s: string)
    requires s != "" && IsHex(s[0])
    ensures Bits(s, Outside) == Bits(s[1..], Outside)
  {
  }

  lemma HexByteBits(s: string)
    requires HexByte(s).Ok?
    ensures Bits(s, Outside) == Bits(HexByte(s).rest, Outside)
  {
    HexDigitIsNoBit(s);
    HexDigitIsNoBit(s[1..]);
    assert s[1..][1..] == s[2..];
  }

  lemma {:induction false} BinByteBits(s: string, v: Byte, bits: nat)
    requires bits <= 8 && BinByte(s, v, bits).Ok?
    ensures Bits(s, InBits) == BinByteMarks(s, bits) + Bits(BinByte(s, v, bits).rest, InBits)
    decreases |s|
  {
    if bits < 8 {
      if s[0] == '_' { BinByteBits(s[1..], v, bits); }
      else { BinByteBits(s[1..], ShiftIn(v, s[0]), bits + 1); }
    }
  }

  lemma {:induction false} HexRunBits(s: string, acc: seq<Byte>, base: nat)
    requires HexRun(s, acc, base).Ok?
    ensures Bits(s, Outside) == Bits(HexRun(s, acc, base).rest, Outside)
    decreases |s|
  {
    if IsHex(At(s, 0)) {
      HexByteBits(s);
      HexRunBits(HexByte(s).rest, acc + [HexByte(s).value], base);
    }
  }

  lemma {:induction false} BinRunBits(s: string, acc: seq<Byte>, base: nat)
    requires BinRun(s, acc, base).Ok?
    ensures Bits(s, InBits) == BinRunMarks(s) + Bits(BinRun(s, acc, base).rest, Outside)
    decreases |s|
  {
    if IsBin(At(SkipUnders(s), 0)) {
      var b := BinByte(s, 0, 0);
      BinByteBits(s, 0, 0);
      BinRunBits(b.rest, acc + [b.value], base);
    } else {
      LeavingBits(s);
    }
  }

  lemma {:induction false} AsciiRunBits(s: string, acc: seq<Byte>, base: nat)
    requires AsciiRun(s, acc, base).Ok?
    ensures var r := AsciiRun(s, acc, base);
      Bits(s, InLetters) == Bits(r.rest, InLetters) && !IsAlnum(At(r.rest, 0))
    decreases |s|
  {
    if IsAlnum(At(s, 0)) { AsciiRunBits(s[1..], acc + [s[0] as int], base); }
  }

  // ---- Groups and commands ---------------------------------------------------------------

  lemma GroupBits(s: string, acc: seq<Byte>, base: nat)
    requires s != "" && IsSelector(s[0]) && !AtCmdStart(s) && Group(s, acc, base).Ok?
    ensures Bits(s, Outside) == (if s[0] == 'b' then BinRunMarks(s[1..]) else {}) + Bits(Group(s, acc, base).rest, Outside)
  {
    if s[0] == 'h' {
      HexRunBits(s[1..], acc, base);
    } else if s[0] == 'b' {
      BinRunBits(s[1..], acc, base);
    } else {
      AsciiRunBits(s[1..], acc, base);
    }
  }

  lemma {:induction false} PayloadBits(s: string, acc: seq<Byte>, base: nat)
    requires Payload(s, acc, base).Ok?
    ensures Bits(s, Outside) == PayloadMarks(s, acc, base) + Bits(Payload(s, acc, base).rest, Outside)
    decreases |s|
  {
    if s == "" || AtCmdStart(s) {
    } else if s[0] == '_' {
      PayloadBits(s[1..], acc, base);
    } else {
      var g := Group(s, acc, base);
      GroupBits(s, acc, base);
      PayloadBits(g.rest, g.value, base);
    }
  }

  lemma SlotScan(s: string)
    requires OneByteAny(s).Ok? && Settled(OneByteAny(s).rest)
    ensures Bits(s, Address) == SlotMarks(s) + Bits(OneByteAny(s).rest, Outside)
  {
    var t, rest := SkipUnders(s), OneByteAny(s).rest;
    UndersAreNoBits(s, Address);
    if t[0] == 'h' {
      HexByteBits(t[1..]);
    } else if t[0] == 'b' {
      BinByteBits(t[1..], 0, 0);
      LeavingBits(rest);
    } else {
      var u := t[1..];
      assert Bits(u, OneLetter) == Bits(u[1..], Outside);
    }
  }

  lemma {:induction false} CountBits(s: string, n: nat, digits: nat)
    ensures Bits(s, Outside) == Bits(Count(s, n, digits).2, Outside)
    decreases |s|
  {
    if digits < 3 && IsHex(At(s, 0)) {
      HexDigitIsNoBit(s);
      CountBits(s[1..], 16 * n + HexVal(s[0]), digits + 1);
    }
  }

  lemma ReadTailBits(s: string)
    requires ReadTail(s).Ok? && Settled(ReadTail(s).rest)
    ensures Settled(s) && Bits(s, Outside) == Bits(ReadTail(s).rest, Outside)
  {
    var t, rest := SkipUnders(s), ReadTail(s).rest;
    UndersAreNoBits(s, Outside);
    if t != "" && !AtCmdStart(t) {
      var u := Count(t[1..], 0, 0).2;
      CountBits(t[1..], 0, 0);
      FormatBits(u, rest);
    }
  }

  /** The display format and the closing '_' of a read. */
  lemma FormatBits(u: string, rest: string)
    requires Settled(rest) && u != ""
    requires if DisplayFormatOf(u[0]) == NoFormat then u[0] == '_' && rest == u[1..]
             else |u| > 1 && u[1] == '_' && rest == u[2..]
    ensures Bits(u, Outside) == Bits(rest, Outside)
  {
    if DisplayFormatOf(u[0]) != NoFormat {
      assert u[1..][1..] == rest;
      LeavingBits(rest);
    }
  }

  lemma CommandBits(s: string, base: nat)
    requires TwiCmd(s, base).Ok? && Settled(TwiCmd(s, base).rest)
    ensures Bits(s, Outside) == TwiCmdMarks(s, base) + Bits(TwiCmd(s, base).rest, Outside)
  {
    var s1 := HexByte(s[1..]).rest;
    var s2 := OneByteAny(s1).rest;
    CtrlIsNoBit(s);
    if IsRead(HexByte(s[1..]).value) {
      ReadTailBits(s2);
    } else {
      PayloadSettled(s2, [], base);
      PayloadBits(s2, [], base);
    }
    SlotScan(s1);
  }

  lemma CtrlIsNoBit(s: string)
    requires AtCmdStart(s)
    ensures Bits(s, Outside) == Bits(s[3..], Address)
  {
    assert s[1..][1..] == s[2..] && s[2..][1..] == s[3..];
    assert Bits(s[1..], Address) == Bits(s[2..], Address);
  }

  lemma {:induction false} ChainBits(s: string, sofar: Txn)
    requires Chain(s, sofar).Accepted?
    ensures Settled(s) && Bits(s, Outside) == ChainMarks(s, sofar)
    decreases |s|
  {
    var t := SkipUnders(s);
    UndersAreNoBits(s, Outside);
    if t != "" {
      var r := TwiCmd(t, |sofar.pool|);
      ChainBits(r.rest, Txn(sofar.cmds + [r.value.0], sofar.pool + r.value.1));
      CommandBits(t, |sofar.pool|);
    }
  }

  /** The marked positions of every accepted TWI line are those after its bits. */
  lemma MarksAreScanned(line: string)
    requires AtCmdStart(SkipBlanks(line)) && Parse(line).Accepted?
    ensures Marks(line) == Bits(SkipBlanks(line), Outside)
  {
    ChainBits(SkipBlanks(line), Txn([], []));
  }

  // ---- Many groupings at once ------------------------------------------------------------

  /** `s` with a '_' put in at each of the positions. */
  function WithUnders(s: string, ms: set<nat>): string {
    (if |s| in ms then "_" else "") + if s == "" then "" else [s[0]] + WithUnders(s[1..], ms)
  }

  lemma NoNewStart(s: string, m: nat)
    requires m < |s| && (AtCmdStart(s) ==> m + 3 <= |s|)
    ensures AtCmdStart(WithUnder(s, m)) == AtCmdStart(s)
  {
    if m + 3 <= |s| { CmdStartFrame(s, m); }
  }

  /** A position in front of the third character after a command's start is not one after a bit. */
  lemma BitsAfterStart(s: string, m: nat)
    requires AtCmdStart(s) && (m in Bits(s, Outside) || m in Bits(s, InBits))
    ensures m + 3 <= |s|
  {
    CtrlIsNoBit(s);
  }

  /** Grouping one bit leaves the positions after later bits where they are. */
  lemma {:induction false} LaterBitsStay(s: string, w: Where, m: nat, k: nat)
    requires m in Bits(s, w) && k in Bits(s, w) && k < m
    ensures k in Bits(WithUnder(s, m), w)
    decreases |s|
  {
    UnderHead(s, m);
    var u := WithUnder(s, m);
    if m == |s| - 1 && w == InBits && IsBin(s[0]) {
      UnderHere(s[1..]);
      assert k in Bits(s[1..], InBits);
      assert Bits(u[1..], InBits) == Bits(s[1..], InBits);
    } else {
      if w == Outside || w == InBits {
        if AtCmdStart(s) { BitsAfterStart(s, m); }
        NoNewStart(s, m);
      }
      assert k in Bits(s[1..], Next(s, w)) && m in Bits(s[1..], Next(s, w));
      LaterBitsStay(s[1..], Next(s, w), m, k);
    }
  }

  ghost function Largest(ms: set<nat>): (m: nat)
    requires ms != {}
    ensures m in ms && forall k :: k in ms ==> k <= m
  {
    var x :| x in ms;
    if ms == {x} then x
    else
      var y := Largest(ms - {x});
      assert ms == (ms - {x}) + {x};
      if x >= y then x else y
  }

  /** Only positions within the text matter. */
  lemma {:induction false} SamePositions(s: string, ms: set<nat>, ks: set<nat>)
    requires forall m: nat :: m <= |s| ==> (m in ms <==> m in ks)
    ensures WithUnders(s, ms) == WithUnders(s, ks)
    decreases |s|
  {
    if s != "" { SamePositions(s[1..], ms, ks); }
  }

  lemma {:induction false} NoPositions(s: string)
    ensures WithUnders(s, {}) == s
    decreases |s|
  {
    if s != "" { NoPositions(s[1..]); }
  }

  /** Grouping at the leftmost position first changes nothing. */
  lemma {:induction false} LeftmostFirst(s: string, ms: set<nat>, m: nat)
    requires m in ms && m <= |s| && forall k :: k in ms ==> k <= m
    ensures WithUnders(WithUnder(s, m), ms - {m}) == WithUnders(s, ms)
    decreases |s|
  {
    var u := WithUnder(s, m);
    if m == |s| {
      UnderHere(s);
      if s != "" { SamePositions(s[1..], ms - {m}, ms); }
    } else {
      UnderHead(s, m);
      LeftmostFirst(s[1..], ms, m);
    }
  }

  /** Grouping any bits of an accepted line with '_' leaves it accepted, with the same commands and payload bytes. */
  lemma {:induction false} AnyGroupingIsInvisible(line: string, ms: set<nat>)
    requires ms <= Marks(line) && Parse(line).Accepted?
    ensures Parse(WithUnders(line, ms)) == Parse(line)
    decreases |ms|
  {
    if ms == {} {
      NoPositions(line);
    } else {
      var m := Largest(ms);
      GroupingIsInvisible(line, m);
      OthersStay(line, ms, m);
      AnyGroupingIsInvisible(WithUnder(line, m), ms - {m});
      LeftmostFirst(line, ms, m);
    }
  }

  lemma OthersStay(line: string, ms: set<nat>, m: nat)
    requires ms <= Marks(line) && Parse(line).Accepted? && m in ms && forall k :: k in ms ==> k <= m
    ensures ms - {m} <= Marks(WithUnder(line, m))
  {
    forall k | k in ms - {m}
      ensures k in Marks(WithUnder(line, m))
    {
      LaterMarksStay(line, m, k);
    }
  }

  lemma LaterMarksStay(line: string, m: nat, k: nat)
    requires Parse(line).Accepted? && m in Marks(line) && k in Marks(line) && k < m
    ensures k in Marks(WithUnder(line, m))
  {
    var s := SkipBlanks(line);
    MarksAreScanned(line);
    SkipBlanksFrame(line, m);
    BitsAfterStart(s, m);
    CmdStartFrame(s, m);
    GroupingIsInvisible(line, m);
    MarksAreScanned(WithUnder(line, m));
    LaterBitsStay(s, Outside, m, k);
  }
}
