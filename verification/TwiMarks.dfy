/** Which positions of a line come right after a bit, said of the commands a line was printed from. */
module TwiMarks {
  import opened Basics
  import opened TwiSyntax
  import opened TwiPrinter
  import opened TwiGrouping

  /** The positions with `n` up to `n + k - 1` characters behind them. */
  function Span(n: nat, k: nat): (span: set<nat>)
    ensures forall m :: m in span <==> n <= m < n + k
  {
    if k == 0 then {} else {n + k - 1} + Span(n, k - 1)
  }

  /** After each bit of the binary groups, when `n` characters follow the groups. */
  function GroupsBits(gs: seq<TwiPrinter.Group>, n: nat): set<nat> {
    if gs == [] then {}
    else
      (if gs[0].BinG? then Span(n + |GroupsText(gs[1..])|, 8 * |gs[0].bytes|) else {}) + GroupsBits(gs[1..], n)
  }

  /** After each bit of the internal address, when `n` characters follow it. */
  function SlotBits(slot: Format, n: nat): set<nat> {
    if slot == Bin then Span(n, 8) else {}
  }

  function CommandBits(c: Command, n: nat): set<nat>
    requires ValidCommand(c)
  {
    match c
    case Write(_, slot, _, groups) => SlotBits(slot, |GroupsText(groups)| + n) + GroupsBits(groups, n)
    case Read(_, slot, _, count, fmt) => SlotBits(slot, |"h" + CountText(count) + FormatText(fmt) + "_"| + n)
  }

  /** After each bit of each binary text in a printed line. */
  function ChainBits(cs: seq<Command>): set<nat>
    requires forall c :: c in cs ==> ValidCommand(c)
  {
    if cs == [] then {} else assert cs[0] in cs; CommandBits(cs[0], |ChainText(cs[1..])|) + ChainBits(cs[1..])
  }

  // ---- The marks of printed texts --------------------------------------------------------

  lemma {:induction false} LowBitsAreBits(b: Byte, k: nat)
    ensures forall i :: 0 <= i < k ==> IsBin(LowBits(b, k)[i])
  {
    if k > 0 { LowBitsAreBits(b, k - 1); }
  }

  lemma ByteMarks(b: Byte, tail: string)
    ensures BinByteMarks(BinText(b) + tail, 0) == Span(|tail|, 8)
  {
    LowBitsAreBits(b, 8);
    EveryBitIsMarked(BinText(b), tail, 0);
  }

  lemma {:induction false} BinRunLength(bytes: seq<Byte>)
    ensures |BinRunText(bytes)| == 8 * |bytes|
  {
    if bytes != [] { BinRunLength(bytes[1..]); }
  }

  lemma {:induction false} RunMarks(bytes: seq<Byte>, tail: string)
    requires Stops(tail)
    ensures BinRunMarks(BinRunText(bytes) + tail) == Span(|tail|, 8 * |bytes|)
    decreases |bytes|
  {
    var s := BinRunText(bytes) + tail;
    if bytes == [] {
      assert s == tail;
    } else {
      Assoc(BinText(bytes[0]), BinRunText(bytes[1..]), tail);
      FirstByteMarks(bytes[0], BinRunText(bytes[1..]) + tail);
      RunMarks(bytes[1..], tail);
      BinRunLength(bytes[1..]);
      SpanJoins(|tail|, 8 * |bytes[1..]|, 8);
    }
  }

  lemma FirstByteMarks(b: Byte, more: string)
    ensures BinRunMarks(BinText(b) + more) == Span(|more|, 8) + BinRunMarks(more)
  {
    LowBitsAreBits(b, 8);
    assert IsBin((BinText(b) + more)[0]);
    BinByteBack(b, more);
    ByteMarks(b, more);
  }

  lemma SpanJoins(n: nat, j: nat, k: nat)
    ensures Span(n + j, k) + Span(n, j) == Span(n, j + k)
  {
  }

  lemma {:induction false} GroupsMarks(gs: seq<TwiPrinter.Group>, tail: string, acc: seq<Byte>, base: nat)
    requires forall g :: g in gs ==> ValidGroup(g)
    requires tail == "" || AtCmdStart(tail)
    requires |acc| + |GroupsBytes(gs)| <= PAYLOAD_MAX && base + |acc| + |GroupsBytes(gs)| <= POOL_SIZE
    ensures PayloadMarks(GroupsText(gs) + tail, acc, base) == GroupsBits(gs, |tail|)
    decreases |gs|
  {
    if gs == [] {
      assert GroupsText(gs) + tail == tail;
    } else {
      assert gs[0] in gs;
      var g, more := gs[0], GroupsText(gs[1..]) + tail;
      Assoc(GroupText(g), GroupsText(gs[1..]), tail);
      GroupsStop(gs[1..], tail);
      FirstGroupMarks(g, more, acc, base);
      GroupsMarks(gs[1..], tail, acc + g.bytes, base);
    }
  }

  lemma FirstGroupMarks(g: TwiPrinter.Group, more: string, acc: seq<Byte>, base: nat)
    requires ValidGroup(g) && Stops(more)
    requires |acc| + |g.bytes| <= PAYLOAD_MAX && base + |acc| + |g.bytes| <= POOL_SIZE
    ensures PayloadMarks(GroupText(g) + more, acc, base)
         == (if g.BinG? then Span(|more|, 8 * |g.bytes|) else {}) + PayloadMarks(more, acc + g.bytes, base)
  {
    GroupBack(g, more, acc, base);
    GroupNoStart(g, more);
    GroupShape(g, more);
    if g.BinG? { RunMarks(g.bytes, more); }
  }

  lemma SlotIsMarked(slot: Format, b: Byte, tail: string)
    requires ValidSlot(slot, b)
    ensures SlotMarks(SlotText(slot, b) + tail) == SlotBits(slot, |tail|)
  {
    var s := SlotText(slot, b) + tail;
    assert SkipUnders(s) == s;
    if slot == Bin {
      assert s[1..] == BinText(b) + tail;
      ByteMarks(b, tail);
    }
  }

  lemma CommandMarks(c: Command, tail: string, base: nat)
    requires ValidCommand(c) && (tail == "" || AtCmdStart(tail)) && base + |PayloadOf(c)| <= POOL_SIZE
    ensures TwiCmdMarks(CommandText(c) + tail, base) == CommandBits(c, |tail|)
  {
    var after := if c.Write? then GroupsText(c.groups) else "h" + CountText(c.count) + FormatText(c.fmt) + "_";
    var body := after + tail;
    var s1 := SlotText(c.slot, c.iaddr) + body;
    CommandParts(c, after, tail);
    CtrlBack(c.ctrl, s1);
    SlotBack(c.slot, c.iaddr, body);
    SlotIsMarked(c.slot, c.iaddr, body);
    if c.Write? { GroupsMarks(c.groups, tail, [], base); }
  }

  lemma CommandParts(c: Command, after: string, tail: string)
    requires ValidCommand(c)
    requires after == if c.Write? then GroupsText(c.groups) else "h" + CountText(c.count) + FormatText(c.fmt) + "_"
    ensures CommandText(c) + tail == "h" + HexText(c.ctrl) + (SlotText(c.slot, c.iaddr) + (after + tail))
  {
    var head := "h" + HexText(c.ctrl);
    Assoc(SlotText(c.slot, c.iaddr), after, tail);
    Assoc(head, SlotText(c.slot, c.iaddr) + after, tail);
  }

  lemma {:induction false} ChainIsMarked(cs: seq<Command>, sofar: Txn)
    requires forall c :: c in cs ==> ValidCommand(c)
    requires |sofar.cmds| + |cs| <= MAX_CMDS && |sofar.pool| + TotalPayload(cs) <= POOL_SIZE
    ensures ChainMarks(ChainText(cs), sofar) == ChainBits(cs)
    decreases |cs|
  {
    if cs != [] {
      var c, base := cs[0], |sofar.pool|;
      assert c in cs;
      var next := Txn(sofar.cmds + [RecordOf(c, base)], sofar.pool + PayloadOf(c));
      ChainBack(cs[1..], next);
      FirstCommandMarks(c, ChainText(cs[1..]), sofar);
      ChainIsMarked(cs[1..], next);
    }
  }

  lemma FirstCommandMarks(c: Command, more: string, sofar: Txn)
    requires ValidCommand(c) && (more == "" || AtCmdStart(more)) && |sofar.pool| + |PayloadOf(c)| <= POOL_SIZE
    ensures ChainMarks(CommandText(c) + more, sofar)
         == CommandBits(c, |more|) + ChainMarks(more, Txn(sofar.cmds + [RecordOf(c, |sofar.pool|)], sofar.pool + PayloadOf(c)))
  {
    CommandBack(c, more, |sofar.pool|);
    CommandMarks(c, more, |sofar.pool|);
  }

  /** The marked positions of a printed line are exactly those after a bit of a binary text in it. */
  lemma MarksAreBits(cs: seq<Command>)
    requires cs != [] && forall c :: c in cs ==> ValidCommand(c)
    requires |cs| <= MAX_CMDS && TotalPayload(cs) <= POOL_SIZE
    ensures Marks(ChainText(cs)) == ChainBits(cs)
  {
    ChainBack(cs, Txn([], []));
    ChainIsMarked(cs, Txn([], []));
  }

  /** A '_' after any bit of any binary text of a printed line: the line still means the same commands and bytes. */
  lemma GroupedRoundTrip(cs: seq<Command>, m: nat)
    requires cs != [] && forall c :: c in cs ==> ValidCommand(c)
    requires |cs| <= MAX_CMDS && TotalPayload(cs) <= POOL_SIZE && m in ChainBits(cs)
    ensures m <= |ChainText(cs)| && Parse(WithUnder(ChainText(cs), m)) == Accepted(Meaning(cs, Txn([], [])))
  {
    MarksAreBits(cs);
    RoundTrip(cs);
    GroupingIsInvisible(ChainText(cs), m);
  }
}
