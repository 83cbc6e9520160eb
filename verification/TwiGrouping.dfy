/** Visual grouping: a '_' put after any bit of a binary group changes nothing in what a line means.
    Positions in a line are named by what remains: position `m` has `m` characters behind it. */
module TwiGrouping {
  import opened Basics
  import opened TwiSyntax

  /** `s` with a '_' put in at position `m`. */
  function WithUnder(s: string, m: nat): string
    requires m <= |s|
  {
    s[..|s| - m] + "_" + s[|s| - m..]
  }

  // ---- Positions right after a bit -------------------------------------------------------

  function BinByteMarks(s: string, bits: nat): (marks: set<nat>)
    requires bits <= 8
    ensures forall m :: m in marks ==> m < |s|
    decreases |s|
  {
    if bits == 8 || s == "" then {}
    else if s[0] == '_' then BinByteMarks(s[1..], bits)
    else if !IsBin(s[0]) then {}
    else {|s| - 1} + BinByteMarks(s[1..], bits + 1)
  }

  /** Of a byte written without grouping, every position right after one of its bits is marked. */
  lemma {:induction false} EveryBitIsMarked(bits: string, tail: string, before: nat)
    requires before + |bits| == 8 && forall i :: 0 <= i < |bits| ==> IsBin(bits[i])
    ensures forall m: nat :: m in BinByteMarks(bits + tail, before) <==> |tail| <= m < |tail| + |bits|
    decreases |bits|
  {
    if bits != "" {
      assert (bits + tail)[1..] == bits[1..] + tail;
      EveryBitIsMarked(bits[1..], tail, before + 1);
    }
  }

  function BinRunMarks(s: string): (marks: set<nat>)
    ensures forall m :: m in marks ==> m < |s|
    decreases |s|
  {
    var r := BinByte(s, 0, 0);
    if !IsBin(At(SkipUnders(s), 0)) || r.Err? then {}
    else BinByteMarks(s, 0) + BinRunMarks(r.rest)
  }

  function PayloadMarks(s: string, acc: seq<Byte>, base: nat): (marks: set<nat>)
    ensures forall m :: m in marks ==> m + 2 <= |s|
    decreases |s|
  {
    if s == "" || AtCmdStart(s) then {}
    else if s[0] == '_' then PayloadMarks(s[1..], acc, base)
    else if !IsSelector(s[0]) || Group(s, acc, base).Err? then {}
    else
      var r := Group(s, acc, base);
      (if s[0] == 'b' then BinRunMarks(s[1..]) else {}) + PayloadMarks(r.rest, r.value, base)
  }

  function SlotMarks(s: string): (marks: set<nat>)
    ensures forall m :: m in marks ==> m < |s|
  {
    var t := SkipUnders(s);
    if At(t, 0) == 'b' then BinByteMarks(t[1..], 0) else {}
  }

  function TwiCmdMarks(s: string, base: nat): (marks: set<nat>)
    ensures forall m :: m in marks ==> m + 3 < |s|
  {
    if !AtCmdStart(s) || HexByte(s[1..]).Err? then {}
    else
      var s1 := HexByte(s[1..]).rest;
      SlotMarks(s1) +
      (if OneByteAny(s1).Ok? && !IsRead(HexByte(s[1..]).value) then PayloadMarks(OneByteAny(s1).rest, [], base) else {})
  }

  function ChainMarks(s: string, sofar: Txn): (marks: set<nat>)
    ensures forall m :: m in marks ==> m + 3 < |s|
    decreases |s|
  {
    var t := SkipUnders(s);
    if t == "" || TwiCmd(t, |sofar.pool|).Err? then {}
    else
      var r := TwiCmd(t, |sofar.pool|);
      TwiCmdMarks(t, |sofar.pool|) + ChainMarks(r.rest, Txn(sofar.cmds + [r.value.0], sofar.pool + r.value.1))
  }

  /** The positions of a TWI line right after a bit of a binary group, in address slots and payloads. */
  function Marks(line: string): (marks: set<nat>)
    ensures forall m :: m in marks ==> m <= |line|
  {
    var s := SkipBlanks(line);
    if AtCmdStart(s) then ChainMarks(s, Txn([], [])) else {}
  }

  // ---- Far from the position nothing changes ---------------------------------------------

  lemma UnderHead(s: string, m: nat)
    requires m < |s|
    ensures var u := WithUnder(s, m); u != "" && u[0] == s[0] && u[1..] == WithUnder(s[1..], m)
  {
    var u := WithUnder(s, m);
    assert s[1..][..|s| - 1 - m] == s[1..|s| - m] && s[1..][|s| - 1 - m..] == s[|s| - m..];
  }

  lemma UnderHere(s: string)
    ensures var u := WithUnder(s, |s|); u == "_" + s && u[0] == '_' && u[1..] == s
  {
  }

  lemma UnderAt(s: string, m: nat, i: nat)
    requires m <= |s| && i < |s| - m
    ensures At(WithUnder(s, m), i) == s[i]
  {
  }

  lemma CmdStartFrame(s: string, m: nat)
    requires m + 3 <= |s|
    ensures AtCmdStart(WithUnder(s, m)) == AtCmdStart(s)
  {
    UnderAt(s, m, 0);
    UnderAt(s, m, 1);
    UnderAt(s, m, 2);
  }

  lemma {:induction false} SkipUndersFrame(s: string, m: nat)
    requires m <= |s|
    ensures m < |SkipUnders(s)| ==> SkipUnders(WithUnder(s, m)) == WithUnder(SkipUnders(s), m)
    ensures m >= |SkipUnders(s)| ==> SkipUnders(WithUnder(s, m)) == SkipUnders(s)
    decreases |s|
  {
    if m == |s| {
      UnderHere(s);
    } else {
      UnderHead(s, m);
      if s[0] == '_' { SkipUndersFrame(s[1..], m); }
    }
  }

  lemma {:induction false} SkipBlanksFrame(s: string, m: nat)
    requires m < |SkipBlanks(s)|
    ensures SkipBlanks(WithUnder(s, m)) == WithUnder(SkipBlanks(s), m)
    decreases |s|
  {
    UnderHead(s, m);
    if s[0] == ' ' || s[0] == '\t' { SkipBlanksFrame(s[1..], m); }
  }

  lemma HexByteFrame(s: string, m: nat)
    requires HexByte(s).Ok? && m <= |HexByte(s).rest|
    ensures HexByte(WithUnder(s, m)) == Ok(HexByte(s).value, WithUnder(HexByte(s).rest, m))
  {
    UnderHead(s, m);
    UnderHead(s[1..], m);
    assert s[1..][1..] == s[2..];
    assert WithUnder(s, m)[1..][1..] == WithUnder(s, m)[2..];
  }

  lemma {:induction false} BinByteFrame(s: string, v: Byte, bits: nat, m: nat)
    requires bits <= 8 && BinByte(s, v, bits).Ok? && m <= |BinByte(s, v, bits).rest|
    ensures BinByte(WithUnder(s, m), v, bits) == Ok(BinByte(s, v, bits).value, WithUnder(BinByte(s, v, bits).rest, m))
    decreases |s|
  {
    if bits < 8 {
      UnderHead(s, m);
      if s[0] == '_' {
        BinByteFrame(s[1..], v, bits, m);
      } else {
        BinByteFrame(s[1..], ShiftIn(v, s[0]), bits + 1, m);
      }
    }
  }

  lemma {:induction false} HexRunFrame(s: string, acc: seq<Byte>, base: nat, m: nat)
    requires var r := HexRun(s, acc, base); r.Ok? && m <= |r.rest|
    ensures var r := HexRun(s, acc, base); HexRun(WithUnder(s, m), acc, base) == Ok(r.value, WithUnder(r.rest, m))
    decreases |s|
  {
    if !IsHex(At(s, 0)) {
      if m == |s| { UnderHere(s); } else { UnderHead(s, m); }
    } else {
      var b := HexByte(s);
      HexByteFrame(s, m);
      HexRunFrame(b.rest, acc + [b.value], base, m);
      HexRunStep(WithUnder(s, m), b.value, WithUnder(b.rest, m), acc, base);
    }
  }

  lemma HexRunStep(s: string, b: Byte, rest: string, acc: seq<Byte>, base: nat)
    requires HexByte(s) == Ok(b, rest) && Room(acc, base).Ok?
    ensures HexRun(s, acc, base) == HexRun(rest, acc + [b], base)
  {
  }

  lemma {:induction false} AsciiRunFrame(s: string, acc: seq<Byte>, base: nat, m: nat)
    requires var r := AsciiRun(s, acc, base); r.Ok? && m <= |r.rest|
    ensures var r := AsciiRun(s, acc, base); AsciiRun(WithUnder(s, m), acc, base) == Ok(r.value, WithUnder(r.rest, m))
    decreases |s|
  {
    if !IsAlnum(At(s, 0)) {
      if m == |s| { UnderHere(s); } else { UnderHead(s, m); }
    } else {
      UnderHead(s, m);
      AsciiRunFrame(s[1..], acc + [s[0] as int], base, m);
    }
  }

  /** The look past '_' finds the same character. */
  lemma PeekFrame(s: string, m: nat)
    requires m <= |s|
    ensures At(SkipUnders(WithUnder(s, m)), 0) == At(SkipUnders(s), 0)
  {
    SkipUndersFrame(s, m);
    if m < |SkipUnders(s)| { UnderHead(SkipUnders(s), m); }
  }

  lemma {:induction false} BinRunFrame(s: string, acc: seq<Byte>, base: nat, m: nat)
    requires var r := BinRun(s, acc, base); r.Ok? && m <= |r.rest|
    ensures var r := BinRun(s, acc, base); BinRun(WithUnder(s, m), acc, base) == Ok(r.value, WithUnder(r.rest, m))
    decreases |s|
  {
    PeekFrame(s, m);
    if IsBin(At(SkipUnders(s), 0)) {
      var b := BinByte(s, 0, 0);
      BinByteFrame(s, 0, 0, m);
      BinRunFrame(b.rest, acc + [b.value], base, m);
    }
  }

  /** The rest of the line after a part still has room for the look-ahead for a command. */
  predicate Clear(rest: string, m: nat) {
    m <= |rest| && (AtCmdStart(rest) ==> m + 3 <= |rest|)
  }

  lemma AsciiCloseFrame(s: string, m: nat)
    requires AsciiClose(s).Ok? && Clear(AsciiClose(s).rest, m) && s != ""
    ensures AsciiClose(WithUnder(s, m)) == Ok((), WithUnder(AsciiClose(s).rest, m))
  {
    if s[0] == '_' {
      UnderHead(s, m);
    } else {
      CmdStartFrame(s, m);
      UnderHead(s, m);
    }
  }

  lemma GroupFrame(s: string, acc: seq<Byte>, base: nat, m: nat)
    requires IsSelector(At(s, 0)) && var r := Group(s, acc, base); r.Ok? && r.rest != "" && Clear(r.rest, m)
    ensures var r := Group(s, acc, base); Group(WithUnder(s, m), acc, base) == Ok(r.value, WithUnder(r.rest, m))
  {
    UnderHead(s, m);
    if s[0] == 'h' {
      HexRunFrame(s[1..], acc, base, m);
    } else if s[0] == 'b' {
      BinRunFrame(s[1..], acc, base, m);
    } else {
      AsciiRunFrame(s[1..], acc, base, m);
      AsciiCloseFrame(AsciiRun(s[1..], acc, base).rest, m);
    }
  }

  lemma {:induction false} PayloadFrame(s: string, acc: seq<Byte>, base: nat, m: nat)
    requires var r := Payload(s, acc, base); r.Ok? && m + 3 <= |r.rest|
    ensures var r := Payload(s, acc, base); Payload(WithUnder(s, m), acc, base) == Ok(r.value, WithUnder(r.rest, m))
    decreases |s|
  {
    CmdStartFrame(s, m);
    UnderHead(s, m);
    if AtCmdStart(s) {
    } else if s[0] == '_' {
      PayloadFrame(s[1..], acc, base, m);
    } else {
      var g := Group(s, acc, base);
      GroupFrame(s, acc, base, m);
      PayloadFrame(g.rest, g.value, base, m);
    }
  }

  lemma OneByteAnyFrame(s: string, m: nat)
    requires OneByteAny(s).Ok? && m < |OneByteAny(s).rest|
    ensures OneByteAny(WithUnder(s, m)) == Ok(OneByteAny(s).value, WithUnder(OneByteAny(s).rest, m))
  {
    var t := SkipUnders(s);
    SkipUndersFrame(s, m);
    UnderHead(t, m);
    if t[0] == 'h' {
      HexByteFrame(t[1..], m);
    } else if t[0] == 'b' {
      BinByteFrame(t[1..], 0, 0, m);
    } else {
      UnderHead(t[1..], m);
      UnderHead(t[1..][1..], m);
    }
  }

  lemma {:induction false} CountFrame(s: string, n: nat, digits: nat, m: nat)
    requires m < |Count(s, n, digits).2|
    ensures var r := Count(s, n, digits); Count(WithUnder(s, m), n, digits) == (r.0, r.1, WithUnder(r.2, m))
    decreases |s|
  {
    UnderHead(s, m);
    if digits < 3 && IsHex(At(s, 0)) { CountFrame(s[1..], 16 * n + HexVal(s[0]), digits + 1, m); }
  }

  lemma ReadTailFrame(s: string, m: nat)
    requires ReadTail(s).Ok? && m + 3 <= |ReadTail(s).rest|
    ensures ReadTail(WithUnder(s, m)) == Ok(ReadTail(s).value, WithUnder(ReadTail(s).rest, m))
  {
    var t := SkipUnders(s);
    SkipUndersFrame(s, m);
    CmdStartFrame(t, m);
    UnderHead(t, m);
    if !AtCmdStart(t) {
      var u := Count(t[1..], 0, 0).2;
      CountFrame(t[1..], 0, 0, m);
      UnderHead(u, m);
      if DisplayFormatOf(At(u, 0)) != NoFormat { UnderHead(u[1..], m); }
    }
  }

  lemma TwiCmdFrame(s: string, base: nat, m: nat)
    requires TwiCmd(s, base).Ok? && m + 3 <= |TwiCmd(s, base).rest|
    ensures TwiCmd(WithUnder(s, m), base) == Ok(TwiCmd(s, base).value, WithUnder(TwiCmd(s, base).rest, m))
  {
    CmdStartFrame(s, m);
    UnderHead(s, m);
    HexByteFrame(s[1..], m);
    var s1 := HexByte(s[1..]).rest;
    OneByteAnyFrame(s1, m);
    var s2 := OneByteAny(s1).rest;
    if IsRead(HexByte(s[1..]).value) {
      ReadTailFrame(s2, m);
    } else {
      PayloadFrame(s2, [], base, m);
    }
  }

  // ---- At the position the '_' is skipped ------------------------------------------------

  /** `t` is `rest`, possibly behind one more '_'. */
  predicate UpToUnder(t: string, rest: string) {
    t == rest || (t != "" && t[0] == '_' && t[1..] == rest)
  }

  lemma {:induction false} BinByteUnder(s: string, v: Byte, bits: nat, m: nat)
    requires bits <= 8 && m in BinByteMarks(s, bits) && BinByte(s, v, bits).Ok?
    ensures var r, r' := BinByte(s, v, bits), BinByte(WithUnder(s, m), v, bits);
      r'.Ok? && r'.value == r.value && UpToUnder(r'.rest, r.rest)
    decreases |s|
  {
    UnderHead(s, m);
    if s[0] == '_' {
      BinByteUnder(s[1..], v, bits, m);
    } else {
      var w := ShiftIn(v, s[0]);
      if m == |s| - 1 {
        UnderHere(s[1..]);
      } else {
        BinByteUnder(s[1..], w, bits + 1, m);
      }
    }
  }

  /** A '_' in front of a binary run is skipped, or stays where the run ends at once. */
  lemma BinRunLead(t: string, rest: string, acc: seq<Byte>, base: nat)
    requires UpToUnder(t, rest) && BinRun(rest, acc, base).Ok?
    ensures var r, r' := BinRun(rest, acc, base), BinRun(t, acc, base);
      r'.Ok? && r'.value == r.value && UpToUnder(r'.rest, r.rest)
  {
    if t != rest {
      assert SkipUnders(t) == SkipUnders(rest);
      assert BinByte(t, 0, 0) == BinByte(rest, 0, 0);
    }
  }

  lemma {:induction false} BinRunUnder(s: string, acc: seq<Byte>, base: nat, m: nat)
    requires m in BinRunMarks(s) && BinRun(s, acc, base).Ok?
    ensures var r, r' := BinRun(s, acc, base), BinRun(WithUnder(s, m), acc, base);
      r'.Ok? && r'.value == r.value && UpToUnder(r'.rest, r.rest)
    decreases |s|
  {
    PeekFrame(s, m);
    var b := BinByte(s, 0, 0);
    if m in BinByteMarks(s, 0) {
      BinByteUnder(s, 0, 0, m);
      BinRunLead(BinByte(WithUnder(s, m), 0, 0).rest, b.rest, acc + [b.value], base);
    } else {
      BinByteFrame(s, 0, 0, m);
      BinRunUnder(b.rest, acc + [b.value], base, m);
    }
  }

  lemma PayloadLead(t: string, rest: string, acc: seq<Byte>, base: nat)
    requires UpToUnder(t, rest)
    ensures Payload(t, acc, base) == Payload(rest, acc, base)
  {
  }

  lemma {:induction false} PayloadUnder(s: string, acc: seq<Byte>, base: nat, m: nat)
    requires m in PayloadMarks(s, acc, base) && Payload(s, acc, base).Ok?
    ensures Payload(WithUnder(s, m), acc, base) == Payload(s, acc, base)
    decreases |s|
  {
    UnderHead(s, m);
    if s[0] == '_' {
      PayloadUnder(s[1..], acc, base, m);
    } else {
      var g := Group(s, acc, base);
      if s[0] == 'b' && m in BinRunMarks(s[1..]) {
        BinRunUnder(s[1..], acc, base, m);
        PayloadLead(Group(WithUnder(s, m), acc, base).rest, g.rest, g.value, base);
      } else {
        if s[0] == 'h' { CmdStartFrame(s, m); }
        GroupFrame(s, acc, base, m);
        PayloadUnder(g.rest, g.value, base, m);
      }
    }
  }

  lemma SlotUnder(s: string, m: nat)
    requires m in SlotMarks(s) && OneByteAny(s).Ok?
    ensures var r, r' := OneByteAny(s), OneByteAny(WithUnder(s, m));
      r'.Ok? && r'.value == r.value && UpToUnder(r'.rest, r.rest)
  {
    var t := SkipUnders(s);
    SkipUndersFrame(s, m);
    UnderHead(t, m);
    BinByteUnder(t[1..], 0, 0, m);
  }

  lemma ReadTailLead(t: string, rest: string)
    requires UpToUnder(t, rest)
    ensures ReadTail(t) == ReadTail(rest)
  {
    assert SkipUnders(t) == SkipUnders(rest);
  }

  lemma TwiCmdUnder(s: string, base: nat, m: nat)
    requires m in TwiCmdMarks(s, base) && TwiCmd(s, base).Ok?
    ensures TwiCmd(WithUnder(s, m), base) == TwiCmd(s, base)
  {
    CmdStartFrame(s, m);
    UnderHead(s, m);
    HexByteFrame(s[1..], m);
    var s1 := HexByte(s[1..]).rest;
    var s2 := OneByteAny(s1).rest;
    if m in SlotMarks(s1) {
      SlotUnder(s1, m);
      var t := OneByteAny(WithUnder(s1, m)).rest;
      ReadTailLead(t, s2);
      PayloadLead(t, s2, [], base);
    } else {
      OneByteAnyFrame(s1, m);
      PayloadUnder(s2, [], base, m);
    }
  }

  lemma {:induction false} ChainUnder(s: string, sofar: Txn, m: nat)
    requires m in ChainMarks(s, sofar) && Chain(s, sofar).Accepted?
    ensures Chain(WithUnder(s, m), sofar) == Chain(s, sofar)
    decreases |s|
  {
    var t := SkipUnders(s);
    SkipUndersFrame(s, m);
    CmdStartFrame(t, m);
    var r := TwiCmd(t, |sofar.pool|);
    if m in TwiCmdMarks(t, |sofar.pool|) {
      TwiCmdUnder(t, |sofar.pool|, m);
    } else {
      TwiCmdFrame(t, |sofar.pool|, m);
      ChainUnder(r.rest, Txn(sofar.cmds + [r.value.0], sofar.pool + r.value.1), m);
    }
  }

  /** Grouping bits with '_' leaves an accepted TWI line accepted, with the same commands and payload bytes. */
  lemma GroupingIsInvisible(line: string, m: nat)
    requires m in Marks(line) && Parse(line).Accepted?
    ensures Parse(WithUnder(line, m)) == Parse(line)
  {
    var s := SkipBlanks(line);
    SkipBlanksFrame(line, m);
    CmdStartFrame(s, m);
    ChainUnder(s, Txn([], []), m);
  }
}
