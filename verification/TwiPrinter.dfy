/** Printing transactions in the mixed formats of the language, and reading them back. */
module TwiPrinter {
  import opened Basics
  import opened TwiSyntax

  /** A stretch of payload in one format. */
  datatype Group = HexG(bytes: seq<Byte>) | BinG(bytes: seq<Byte>) | AsciiG(bytes: seq<Byte>)

  /** A command as its author thinks of it: what is transferred, and in which formats it is written down. */
  datatype Command =
    | Write(ctrl: Byte, slot: Format, iaddr: Byte, groups: seq<Group>)
    | Read(ctrl: Byte, slot: Format, iaddr: Byte, count: nat, fmt: Format)

  // ---- Rendering -------------------------------------------------------------------------

  function HexDigit(n: nat): (c: char)
    requires n < 16
    ensures IsHex(c) && HexVal(c) == n
  {
    if n < 10 then ('0' as int + n) as char else ('A' as int + (n - 10)) as char
  }

  function HexText(b: Byte): string {
    [HexDigit(b / 16), HexDigit(b % 16)]
  }

  /** `b` shifted right by `k`. */
  function Shr(b: Byte, k: nat): Byte {
    if k == 0 then b else Shr(b, k - 1) / 2
  }

  function BitChar(b: Byte, k: nat): (c: char)
    ensures IsBin(c)
  {
    if Shr(b, k) % 2 == 1 then '1' else '0'
  }

  /** The low `k` bits of `b`, the highest first. */
  function LowBits(b: Byte, k: nat): (t: string)
    ensures |t| == k
  {
    if k == 0 then "" else [BitChar(b, k - 1)] + LowBits(b, k - 1)
  }

  function BinText(b: Byte): (t: string)
    ensures |t| == 8
  {
    LowBits(b, 8)
  }

  function HexRunText(bytes: seq<Byte>): string {
    if bytes == [] then "" else HexText(bytes[0]) + HexRunText(bytes[1..])
  }

  function BinRunText(bytes: seq<Byte>): string {
    if bytes == [] then "" else BinText(bytes[0]) + BinRunText(bytes[1..])
  }

  predicate IsAlnumByte(b: Byte) {
    IsAlnum(b as char)
  }

  function AsciiRunText(bytes: seq<Byte>): string {
    if bytes == [] then "" else [bytes[0] as char] + AsciiRunText(bytes[1..])
  }

  function GroupText(g: Group): string {
    match g
    case HexG(bytes) => "h" + HexRunText(bytes)
    case BinG(bytes) => "b" + BinRunText(bytes)
    case AsciiG(bytes) => "a" + (AsciiRunText(bytes) + "_")
  }

  function GroupsText(gs: seq<Group>): string {
    if gs == [] then "" else GroupText(gs[0]) + GroupsText(gs[1..])
  }

  function SlotText(slot: Format, b: Byte): string {
    match slot
    case Bin => "b" + BinText(b)
    case Ascii => "a" + [b as char] + "_"
    case _ => "h" + HexText(b)
  }

  function FormatText(fmt: Format): string {
    match fmt
    case NoFormat => ""
    case Hex => "h"
    case Bin => "b"
    case Ascii => "a"
  }

  function CountText(n: nat): string
    requires n < 4096
  {
    [HexDigit(n / 256), HexDigit(n / 16 % 16), HexDigit(n % 16)]
  }

  function CommandText(c: Command): string
    requires ValidCommand(c)
  {
    match c
    case Write(ctrl, slot, iaddr, groups) => "h" + HexText(ctrl) + (SlotText(slot, iaddr) + GroupsText(groups))
    case Read(ctrl, slot, iaddr, n, fmt) => "h" + HexText(ctrl) + (SlotText(slot, iaddr) + ("h" + CountText(n) + FormatText(fmt) + "_"))
  }

  function ChainText(cs: seq<Command>): string
    requires forall c :: c in cs ==> ValidCommand(c)
  {
    if cs == [] then "" else assert cs[0] in cs; CommandText(cs[0]) + ChainText(cs[1..])
  }

  // ---- What may be rendered --------------------------------------------------------------

  /** Groups are not empty; a hex group must not look like the start of a command, and ASCII is letters and digits. */
  predicate ValidGroup(g: Group) {
    && g.bytes != []
    && (g.HexG? ==> !(0xA0 <= g.bytes[0] <= 0xA3))
    && (g.AsciiG? ==> forall b :: b in g.bytes ==> IsAlnumByte(b))
  }

  predicate ValidSlot(slot: Format, b: Byte) {
    slot != NoFormat && (slot == Ascii ==> IsAlnumByte(b))
  }

  predicate ValidCommand(c: Command) {
    && ValidSlot(c.slot, c.iaddr)
    && match c
       case Write(ctrl, _, _, groups) =>
         (ctrl == 0xA0 || ctrl == 0xA2) && (forall g :: g in groups ==> ValidGroup(g)) && |GroupsBytes(groups)| <= 1022
       case Read(ctrl, _, _, n, fmt) => IsRead(ctrl) && n <= 0x3FE && (fmt == NoFormat ==> n == 0)
  }

  function GroupsBytes(gs: seq<Group>): seq<Byte> {
    if gs == [] then [] else gs[0].bytes + GroupsBytes(gs[1..])
  }

  function PayloadOf(c: Command): seq<Byte> {
    if c.Write? then GroupsBytes(c.groups) else []
  }

  /** The command record a command stands for, its payload placed at `base`. */
  function RecordOf(c: Command, base: nat): Cmd {
    match c
    case Write(ctrl, _, iaddr, groups) => Cmd(TwiWrite, ctrl, iaddr, 0, NoFormat, base, |GroupsBytes(groups)|, 0)
    case Read(ctrl, _, iaddr, n, fmt) => Cmd(TwiRead, ctrl, iaddr, n, fmt, base, 0, 0)
  }

  /** The transaction a list of commands stands for: records in order, payloads one after the other. */
  function Meaning(cs: seq<Command>, sofar: Txn): Txn {
    if cs == [] then sofar
    else Meaning(cs[1..], Txn(sofar.cmds + [RecordOf(cs[0], |sofar.pool|)], sofar.pool + PayloadOf(cs[0])))
  }

  // ---- Reading back ----------------------------------------------------------------------

  lemma HexByteBack(b: Byte, tail: string)
    ensures HexByte(HexText(b) + tail) == Ok(b, tail)
  {
    var s := HexText(b) + tail;
    assert s[0] == HexDigit(b / 16) && s[1] == HexDigit(b % 16) && s[2..] == tail;
  }

  lemma BinByteStep(c: char, tail: string, v: Byte, bits: nat)
    requires bits < 8 && IsBin(c)
    ensures BinByte([c] + tail, v, bits) == BinByte(tail, ShiftIn(v, c), bits + 1)
  {
    assert ([c] + tail)[1..] == tail;
  }

  lemma {:induction false} ShrBound(b: Byte, k: nat, bound: nat)
    requires k <= 8 && bound == [256, 128, 64, 32, 16, 8, 4, 2, 1][k]
    ensures Shr(b, k) < bound
  {
    if k > 0 { ShrBound(b, k - 1, [256, 128, 64, 32, 16, 8, 4, 2, 1][k - 1]); }
  }

  /** Reading the low `k` bits when the others have been read. */
  lemma {:induction false} LowBitsBack(b: Byte, tail: string, k: nat)
    requires k <= 8
    ensures BinByte(LowBits(b, k) + tail, Shr(b, k), 8 - k) == Ok(b, tail)
    decreases k
  {
    if k == 0 {
      assert LowBits(b, 0) + tail == tail;
    } else {
      var bit, more := BitChar(b, k - 1), LowBits(b, k - 1);
      Assoc([bit], more, tail);
      BinByteStep(bit, more + tail, Shr(b, k), 8 - k);
      ShiftBack(b, k);
      LowBitsBack(b, tail, k - 1);
    }
  }

  lemma ShiftBack(b: Byte, k: nat)
    requires 0 < k <= 8
    ensures ShiftIn(Shr(b, k), BitChar(b, k - 1)) == Shr(b, k - 1)
  {
    ShrBound(b, k, [256, 128, 64, 32, 16, 8, 4, 2, 1][k]);
  }

  lemma BinByteBack(b: Byte, tail: string)
    ensures BinByte(BinText(b) + tail, 0, 0) == Ok(b, tail)
  {
    ShrBound(b, 8, 1);
    LowBitsBack(b, tail, 8);
  }

  /** A string the runs of a payload stop at: the end, a selector or another command. */
  predicate Stops(s: string) {
    s == "" || IsSelector(s[0])
  }

  lemma {:induction false} HexRunBack(bytes: seq<Byte>, tail: string, acc: seq<Byte>, base: nat)
    requires !IsHex(At(tail, 0)) && |acc| + |bytes| <= PAYLOAD_MAX && base + |acc| + |bytes| <= POOL_SIZE
    ensures HexRun(HexRunText(bytes) + tail, acc, base) == Ok(acc + bytes, tail)
    decreases |bytes|
  {
    if bytes == [] {
      assert HexRunText(bytes) + tail == tail && acc + bytes == acc;
    } else {
      var more := HexRunText(bytes[1..]) + tail;
      Assoc(HexText(bytes[0]), HexRunText(bytes[1..]), tail);
      Assoc(acc, [bytes[0]], bytes[1..]);
      HexByteBack(bytes[0], more);
      HexRunBack(bytes[1..], tail, acc + [bytes[0]], base);
      assert [bytes[0]] + bytes[1..] == bytes;
    }
  }

  lemma {:induction false} BinRunBack(bytes: seq<Byte>, tail: string, acc: seq<Byte>, base: nat)
    requires Stops(tail) && |acc| + |bytes| <= PAYLOAD_MAX && base + |acc| + |bytes| <= POOL_SIZE
    ensures BinRun(BinRunText(bytes) + tail, acc, base) == Ok(acc + bytes, tail)
    decreases |bytes|
  {
    if bytes == [] {
      assert BinRunText(bytes) + tail == tail && acc + bytes == acc;
    } else {
      var more := BinRunText(bytes[1..]) + tail;
      Assoc(BinText(bytes[0]), BinRunText(bytes[1..]), tail);
      Assoc(acc, [bytes[0]], bytes[1..]);
      assert (BinText(bytes[0]) + more)[0] == BitChar(bytes[0], 7);
      BinByteBack(bytes[0], more);
      BinRunBack(bytes[1..], tail, acc + [bytes[0]], base);
      assert [bytes[0]] + bytes[1..] == bytes;
    }
  }

  lemma {:induction false} AsciiRunBack(bytes: seq<Byte>, tail: string, acc: seq<Byte>, base: nat)
    requires forall b :: b in bytes ==> IsAlnumByte(b)
    requires !IsAlnum(At(tail, 0)) && |acc| + |bytes| <= PAYLOAD_MAX && base + |acc| + |bytes| <= POOL_SIZE
    ensures AsciiRun(AsciiRunText(bytes) + tail, acc, base) == Ok(acc + bytes, tail)
    decreases |bytes|
  {
    if bytes == [] {
      assert AsciiRunText(bytes) + tail == tail && acc + bytes == acc;
    } else {
      var more, c := AsciiRunText(bytes[1..]) + tail, bytes[0] as char;
      assert bytes[0] in bytes;
      Assoc([c], AsciiRunText(bytes[1..]), tail);
      Assoc(acc, [bytes[0]], bytes[1..]);
      assert ([c] + more)[1..] == more;
      AsciiRunBack(bytes[1..], tail, acc + [bytes[0]], base);
      assert [bytes[0]] + bytes[1..] == bytes;
    }
  }

  lemma HexGroupBack(s: string, bytes: seq<Byte>, tail: string, acc: seq<Byte>, base: nat)
    requires bytes != [] && Stops(tail) && At(s, 0) == 'h' && s[1..] == HexRunText(bytes) + tail
    requires |acc| + |bytes| <= PAYLOAD_MAX && base + |acc| + |bytes| <= POOL_SIZE
    ensures TwiSyntax.Group(s, acc, base) == Ok(acc + bytes, tail)
  {
    HexRunBack(bytes, tail, acc, base);
  }

  lemma BinGroupBack(s: string, bytes: seq<Byte>, tail: string, acc: seq<Byte>, base: nat)
    requires bytes != [] && Stops(tail) && At(s, 0) == 'b' && s[1..] == BinRunText(bytes) + tail
    requires |acc| + |bytes| <= PAYLOAD_MAX && base + |acc| + |bytes| <= POOL_SIZE
    ensures TwiSyntax.Group(s, acc, base) == Ok(acc + bytes, tail)
  {
    BinRunBack(bytes, tail, acc, base);
  }

  lemma AsciiGroupBack(s: string, bytes: seq<Byte>, tail: string, acc: seq<Byte>, base: nat)
    requires bytes != [] && (forall b :: b in bytes ==> IsAlnumByte(b))
    requires At(s, 0) == 'a' && s[1..] == AsciiRunText(bytes) + ("_" + tail)
    requires |acc| + |bytes| <= PAYLOAD_MAX && base + |acc| + |bytes| <= POOL_SIZE
    ensures TwiSyntax.Group(s, acc, base) == Ok(acc + bytes, tail)
  {
    AsciiRunBack(bytes, "_" + tail, acc, base);
    assert ("_" + tail)[1..] == tail;
  }

  lemma GroupBack(g: Group, tail: string, acc: seq<Byte>, base: nat)
    requires ValidGroup(g) && Stops(tail)
    requires |acc| + |g.bytes| <= PAYLOAD_MAX && base + |acc| + |g.bytes| <= POOL_SIZE
    ensures IsSelector(At(GroupText(g) + tail, 0))
    ensures TwiSyntax.Group(GroupText(g) + tail, acc, base) == Ok(acc + g.bytes, tail)
  {
    var s := GroupText(g) + tail;
    GroupShape(g, tail);
    if g.HexG? {
      HexGroupBack(s, g.bytes, tail, acc, base);
    } else if g.BinG? {
      BinGroupBack(s, g.bytes, tail, acc, base);
    } else {
      AsciiGroupBack(s, g.bytes, tail, acc, base);
    }
  }

  lemma GroupShape(g: Group, tail: string)
    ensures var s := GroupText(g) + tail;
      s != "" && match g
      case HexG(bytes) => s[0] == 'h' && s[1..] == HexRunText(bytes) + tail
      case BinG(bytes) => s[0] == 'b' && s[1..] == BinRunText(bytes) + tail
      case AsciiG(bytes) => s[0] == 'a' && s[1..] == AsciiRunText(bytes) + ("_" + tail)
  {
    match g {
      case HexG(bytes) => Front('h', HexRunText(bytes), tail);
      case BinG(bytes) => Front('b', BinRunText(bytes), tail);
      case AsciiG(bytes) =>
        Front('a', AsciiRunText(bytes) + "_", tail);
        Assoc(AsciiRunText(bytes), "_", tail);
    }
  }

  lemma Front(c: char, x: string, tail: string)
    ensures var s := [c] + x + tail; s != "" && s[0] == c && s[1..] == x + tail
  {
  }

  lemma GroupNoStart(g: Group, tail: string)
    requires ValidGroup(g)
    ensures GroupText(g) + tail != "" && !AtCmdStart(GroupText(g) + tail)
  {
    if g.HexG? {
      HexNoStart(g.bytes, tail, GroupText(g) + tail);
    }
  }

  /** A hex group whose first byte is none of A0..A3 is not mistaken for a command. */
  lemma HexNoStart(bytes: seq<Byte>, tail: string, s: string)
    requires bytes != [] && !(0xA0 <= bytes[0] <= 0xA3) && s == "h" + HexRunText(bytes) + tail
    ensures !AtCmdStart(s)
  {
    var b := bytes[0];
    assert s[1] == HexDigit(b / 16) && s[2] == HexDigit(b % 16);
    assert s[1] == 'A' ==> b / 16 == 10;
    assert '0' <= s[2] <= '3' ==> b % 16 <= 3;
  }

  /** The condition on hex groups is needed: any other hex group ends the payload as the start of a command. */
  lemma GroupTakenForCommand(g: Group, tail: string, acc: seq<Byte>, base: nat)
    requires g.bytes != []
    ensures AtCmdStart(GroupText(g) + tail) <==> g.HexG? && 0xA0 <= g.bytes[0] <= 0xA3
    ensures g.HexG? && 0xA0 <= g.bytes[0] <= 0xA3 ==>
      Payload(GroupText(g) + tail, acc, base) == Ok(acc, GroupText(g) + tail)
  {
    if g.HexG? {
      var s := GroupText(g) + tail;
      if 0xA0 <= g.bytes[0] <= 0xA3 {
        assert s[1] == HexDigit(g.bytes[0] / 16) && s[2] == HexDigit(g.bytes[0] % 16);
      } else {
        HexNoStart(g.bytes, tail, s);
      }
    }
  }

  lemma {:induction false} PayloadBack(gs: seq<Group>, tail: string, acc: seq<Byte>, base: nat)
    requires forall g :: g in gs ==> ValidGroup(g)
    requires tail == "" || AtCmdStart(tail)
    requires |acc| + |GroupsBytes(gs)| <= PAYLOAD_MAX && base + |acc| + |GroupsBytes(gs)| <= POOL_SIZE
    ensures Payload(GroupsText(gs) + tail, acc, base) == Ok(acc + GroupsBytes(gs), tail)
    decreases |gs|
  {
    if gs == [] {
      assert GroupsText(gs) + tail == tail && acc + GroupsBytes(gs) == acc;
    } else {
      assert gs[0] in gs;
      var g, more := gs[0], GroupsText(gs[1..]) + tail;
      Assoc(GroupText(g), GroupsText(gs[1..]), tail);
      Assoc(acc, g.bytes, GroupsBytes(gs[1..]));
      GroupsStop(gs[1..], tail);
      FirstGroupBack(g, more, acc, base);
      PayloadBack(gs[1..], tail, acc + g.bytes, base);
    }
  }

  lemma FirstGroupBack(g: Group, more: string, acc: seq<Byte>, base: nat)
    requires ValidGroup(g) && Stops(more)
    requires |acc| + |g.bytes| <= PAYLOAD_MAX && base + |acc| + |g.bytes| <= POOL_SIZE
    ensures Payload(GroupText(g) + more, acc, base) == Payload(more, acc + g.bytes, base)
  {
    GroupBack(g, more, acc, base);
    GroupNoStart(g, more);
    PayloadStep(GroupText(g) + more, acc, base, acc + g.bytes, more);
  }

  lemma PayloadStep(s: string, acc: seq<Byte>, base: nat, v: seq<Byte>, rest: string)
    requires s != "" && !AtCmdStart(s) && IsSelector(At(s, 0))
    requires TwiSyntax.Group(s, acc, base) == Ok(v, rest)
    ensures Payload(s, acc, base) == Payload(rest, v, base)
  {
  }

  lemma GroupsStop(gs: seq<Group>, tail: string)
    requires tail == "" || AtCmdStart(tail)
    ensures Stops(GroupsText(gs) + tail)
  {
    if gs != [] {
      assert (GroupsText(gs) + tail)[0] == GroupText(gs[0])[0];
    }
  }

  lemma SlotBack(slot: Format, b: Byte, tail: string)
    requires ValidSlot(slot, b)
    ensures OneByteAny(SlotText(slot, b) + tail) == Ok(b, tail)
  {
    match slot {
      case Hex => HexSlotBack(b, tail);
      case Bin => BinSlotBack(b, tail);
      case Ascii => AsciiSlotBack(b, tail);
    }
  }

  lemma HexSlotBack(b: Byte, tail: string)
    ensures OneByteAny("h" + HexText(b) + tail) == Ok(b, tail)
  {
    Front('h', HexText(b), tail);
    HexByteBack(b, tail);
  }

  lemma BinSlotBack(b: Byte, tail: string)
    ensures OneByteAny("b" + BinText(b) + tail) == Ok(b, tail)
  {
    Front('b', BinText(b), tail);
    BinByteBack(b, tail);
  }

  lemma AsciiSlotBack(b: Byte, tail: string)
    requires IsAlnumByte(b)
    ensures OneByteAny("a" + [b as char] + "_" + tail) == Ok(b, tail)
  {
    var s := "a" + [b as char] + "_" + tail;
    assert s[1..] == [b as char] + ("_" + tail);
    assert s[1..][1..] == "_" + tail;
    assert ("_" + tail)[1..] == tail;
  }

  lemma CountBack(n: nat, tail: string)
    requires n <= 0x3FE
    ensures Count(CountText(n) + tail, 0, 0) == (n, 3, tail)
    ensures At(CountText(n), 0) != 'A'
  {
    var s := CountText(n) + tail;
    var s1 := [HexDigit(n / 16 % 16), HexDigit(n % 16)] + tail;
    var s2 := [HexDigit(n % 16)] + tail;
    assert s[1..] == s1 && s1[1..] == s2 && s2[1..] == tail;
    assert Count(s, 0, 0) == Count(s1, n / 256, 1);
    assert Count(s1, n / 256, 1) == Count(s2, n / 16, 2);
    assert Count(s2, n / 16, 2) == Count(tail, n, 3);
    assert HexVal(s[0]) < 10;
  }

  lemma ReadTailBack(n: nat, fmt: Format, tail: string)
    requires n <= 0x3FE && (fmt == NoFormat ==> n == 0)
    ensures ReadTail("h" + CountText(n) + FormatText(fmt) + "_" + tail) == Ok((n, fmt), tail)
  {
    var s := "h" + CountText(n) + FormatText(fmt) + "_" + tail;
    var u := FormatText(fmt) + ("_" + tail);
    assert s[1..] == CountText(n) + u;
    CountBack(n, u);
    assert s[1] == CountText(n)[0];
    assert SkipUnders(s) == s && !AtCmdStart(s);
    var w := "_" + tail;
    assert fmt != NoFormat ==> u[1..] == w;
    assert fmt == NoFormat ==> u == w;
    assert w[1..] == tail;
  }

  lemma CtrlBack(ctrl: Byte, rest: string)
    requires 0xA0 <= ctrl <= 0xA3
    ensures AtCmdStart("h" + HexText(ctrl) + rest)
    ensures HexByte(("h" + HexText(ctrl) + rest)[1..]) == Ok(ctrl, rest)
  {
    var s := "h" + HexText(ctrl) + rest;
    assert s[1..] == HexText(ctrl) + rest;
    HexByteBack(ctrl, rest);
    assert s[1] == HexDigit(10) && s[2] == HexDigit(ctrl % 16);
  }

  lemma WriteBack(c: Command, tail: string, base: nat)
    requires ValidCommand(c) && c.Write? && (tail == "" || AtCmdStart(tail)) && base + |PayloadOf(c)| <= POOL_SIZE
    ensures AtCmdStart(CommandText(c) + tail)
    ensures TwiCmd(CommandText(c) + tail, base) == Ok((RecordOf(c, base), PayloadOf(c)), tail)
  {
    var body := GroupsText(c.groups) + tail;
    var s1 := SlotText(c.slot, c.iaddr) + body;
    WriteText(c, tail);
    CtrlBack(c.ctrl, s1);
    SlotBack(c.slot, c.iaddr, body);
    PayloadBack(c.groups, tail, [], base);
    assert [] + GroupsBytes(c.groups) == GroupsBytes(c.groups);
  }

  lemma WriteText(c: Command, tail: string)
    requires ValidCommand(c) && c.Write?
    ensures CommandText(c) + tail == "h" + HexText(c.ctrl) + (SlotText(c.slot, c.iaddr) + (GroupsText(c.groups) + tail))
  {
    var head := "h" + HexText(c.ctrl);
    Assoc(SlotText(c.slot, c.iaddr), GroupsText(c.groups), tail);
    Assoc(head, SlotText(c.slot, c.iaddr) + GroupsText(c.groups), tail);
  }

  lemma ReadBack(c: Command, tail: string, base: nat)
    requires ValidCommand(c) && c.Read?
    ensures AtCmdStart(CommandText(c) + tail)
    ensures TwiCmd(CommandText(c) + tail, base) == Ok((RecordOf(c, base), PayloadOf(c)), tail)
  {
    var body := "h" + CountText(c.count) + FormatText(c.fmt) + "_" + tail;
    var s1 := SlotText(c.slot, c.iaddr) + body;
    assert CommandText(c) + tail == "h" + HexText(c.ctrl) + s1;
    CtrlBack(c.ctrl, s1);
    SlotBack(c.slot, c.iaddr, body);
    ReadTailBack(c.count, c.fmt, tail);
  }

  lemma CommandBack(c: Command, tail: string, base: nat)
    requires ValidCommand(c) && (tail == "" || AtCmdStart(tail)) && base + |PayloadOf(c)| <= POOL_SIZE
    ensures AtCmdStart(CommandText(c) + tail)
    ensures TwiCmd(CommandText(c) + tail, base) == Ok((RecordOf(c, base), PayloadOf(c)), tail)
  {
    if c.Write? { WriteBack(c, tail, base); } else { ReadBack(c, tail, base); }
  }

  function TotalPayload(cs: seq<Command>): nat {
    if cs == [] then 0 else |PayloadOf(cs[0])| + TotalPayload(cs[1..])
  }

  lemma {:induction false} ChainBack(cs: seq<Command>, sofar: Txn)
    requires forall c :: c in cs ==> ValidCommand(c)
    requires |sofar.cmds| + |cs| <= MAX_CMDS && |sofar.pool| + TotalPayload(cs) <= POOL_SIZE
    ensures Chain(ChainText(cs), sofar) == Accepted(Meaning(cs, sofar))
    ensures cs != [] ==> AtCmdStart(ChainText(cs))
    decreases |cs|
  {
    if cs != [] {
      var c, base := cs[0], |sofar.pool|;
      assert c in cs;
      var next := Txn(sofar.cmds + [RecordOf(c, base)], sofar.pool + PayloadOf(c));
      ChainBack(cs[1..], next);
      CommandBack(c, ChainText(cs[1..]), base);
    }
  }

  /** Within the limits, a rendered list of commands parses back to exactly what it stands for. */
  lemma RoundTrip(cs: seq<Command>)
    requires cs != [] && forall c :: c in cs ==> ValidCommand(c)
    requires |cs| <= 160 && TotalPayload(cs) <= 2044
    ensures Parse(ChainText(cs)) == Accepted(Meaning(cs, Txn([], [])))
  {
    ChainBack(cs, Txn([], []));
  }
}
