/** Executing a transaction: what goes over the two-wire bus and the GPIO port, in order. */
module TwiExec {
  import opened Basics
  import opened TwiSyntax
  import opened TwiPrinter
  import opened TwiCanonical
  import opened TwiSpecial
  import TwiParser

  /** What the executor asks of the hardware. `Trans` carries the byte passed and the host's acknowledge. */
  datatype Event = Start | Stop | Trans(byte: Byte, hostAck: bool) | GpioWrite(byte: Byte) | GpioRead

  /** The hardware: it records what it is asked for; what it answers is anyone's guess. */
  class Hal {
    var trace: seq<Event>

    constructor ()
      ensures trace == []
    {
      trace := [];
    }

    method TwiStart()
      modifies this
      ensures trace == old(trace) + [Start]
    {
      trace := trace + [Start];
    }

    method TwiStop()
      modifies this
      ensures trace == old(trace) + [Stop]
    {
      trace := trace + [Stop];
    }

    method TwiTrans(b: Byte, hostAck: bool) returns (answer: Byte, nack: bool)
      modifies this
      ensures trace == old(trace) + [Trans(b, hostAck)]
    {
      trace := trace + [Trans(b, hostAck)];
      answer := *;
      nack := *;
    }

    method GpioWriteByte(v: Byte)
      modifies this
      ensures trace == old(trace) + [GpioWrite(v)]
    {
      trace := trace + [GpioWrite(v)];
    }

    method GpioReadByte() returns (v: Byte)
      modifies this
      ensures trace == old(trace) + [GpioRead]
    {
      trace := trace + [GpioRead];
      v := *;
    }
  }

  // ---- What a transaction asks for -------------------------------------------------------

  function Sent(bytes: seq<Byte>): seq<Event> {
    seq(|bytes|, i requires 0 <= i < |bytes| => Trans(bytes[i], false))
  }

  /** Reading `n` bytes: the host acknowledges every byte but the last. */
  function Received(n: nat): seq<Event> {
    seq(n, i requires 0 <= i < n => Trans(0xFF, i + 1 < n))
  }

  /** A bus transfer: control byte and internal address, then the data. */
  function Transfer(ctrl: Byte, iaddr: Byte, data: seq<Event>): seq<Event> {
    [Start, Trans(ctrl, false), Trans(iaddr, false)] + data + [Stop]
  }

  predicate InPool(c: Cmd, pool: seq<Byte>) {
    c.off + c.len <= |pool|
  }

  function CmdTrace(c: Cmd, pool: seq<Byte>): seq<Event>
    requires InPool(c, pool)
  {
    match c.kind
    case TwiWrite => Transfer(c.ctrl, c.iaddr, Sent(pool[c.off..c.off + c.len]))
    case TwiRead => Transfer(c.ctrl, c.iaddr, Received(c.rdLen))
    case GpioOut => [GpioWrite(c.gpio)]
    case GpioIn => [GpioRead]
    case _ => []
  }

  predicate AllInPool(txn: Txn) {
    forall i :: 0 <= i < |txn.cmds| ==> InPool(txn.cmds[i], txn.pool)
  }

  /** What the first `n` commands ask for. */
  function TraceUpTo(txn: Txn, n: nat): seq<Event>
    requires AllInPool(txn) && n <= |txn.cmds|
  {
    if n == 0 then [] else TraceUpTo(txn, n - 1) + CmdTrace(txn.cmds[n - 1], txn.pool)
  }

  function Trace(txn: Txn): seq<Event>
    requires AllInPool(txn)
  {
    TraceUpTo(txn, |txn.cmds|)
  }

  // ---- The executor ----------------------------------------------------------------------

  method ExecTwiByte(hal: Hal, v: Byte, hostAck: bool)
    modifies hal
    ensures hal.trace == old(hal.trace) + [Trans(v, hostAck)]
  {
    var b, nack := hal.TwiTrans(v, hostAck);
  }

  method ExecWrite(hal: Hal, c: Cmd, pool: seq<Byte>)
    requires InPool(c, pool) && c.kind == TwiWrite
    modifies hal
    ensures hal.trace == old(hal.trace) + CmdTrace(c, pool)
  {
    hal.TwiStart();
    ExecTwiByte(hal, c.ctrl, false);
    ExecTwiByte(hal, c.iaddr, false);
    ghost var head, data := hal.trace, Sent(pool[c.off..c.off + c.len]);
    var i := 0;
    while i < c.len
      invariant 0 <= i <= c.len && hal.trace == head + data[..i]
    {
      ExecTwiByte(hal, pool[c.off + i], false);
      assert data[..i + 1] == data[..i] + [data[i]];
      i := i + 1;
    }
    hal.TwiStop();
    assert data[..c.len] == data;
  }

  method ExecRead(hal: Hal, c: Cmd, ghost pool: seq<Byte>)
    requires InPool(c, pool) && c.kind == TwiRead
    modifies hal
    ensures hal.trace == old(hal.trace) + CmdTrace(c, pool)
  {
    hal.TwiStart();
    ExecTwiByte(hal, c.ctrl, false);
    ExecTwiByte(hal, c.iaddr, false);
    ghost var head, data := hal.trace, Received(c.rdLen);
    var i := 0;
    while i < c.rdLen
      invariant 0 <= i <= c.rdLen && hal.trace == head + data[..i]
    {
      var last := i + 1 == c.rdLen;
      var b, nack := hal.TwiTrans(0xFF, !last);
      assert data[..i + 1] == data[..i] + [data[i]];
      i := i + 1;
    }
    hal.TwiStop();
    assert data[..c.rdLen] == data;
  }

  /** Runs all commands of a transaction. */
  method Run(hal: Hal, txn: Txn)
    requires AllInPool(txn)
    modifies hal
    ensures hal.trace == old(hal.trace) + Trace(txn)
  {
    var i := 0;
    while i < |txn.cmds|
      invariant 0 <= i <= |txn.cmds| && hal.trace == old(hal.trace) + TraceUpTo(txn, i)
    {
      var c := txn.cmds[i];
      match c.kind {
        case TwiWrite => ExecWrite(hal, c, txn.pool);
        case TwiRead => ExecRead(hal, c, txn.pool);
        case GpioOut => hal.GpioWriteByte(c.gpio);
        case GpioIn => var v := hal.GpioReadByte();
        case _ =>
      }
      i := i + 1;
    }
  }

  // ---- From text to bus ------------------------------------------------------------------

  /** What a command as its author thinks of it must put on the bus. */
  function Bus(c: Command): seq<Event> {
    match c
    case Write(ctrl, _, iaddr, groups) => Transfer(ctrl, iaddr, Sent(GroupsBytes(groups)))
    case Read(ctrl, _, iaddr, n, _) => Transfer(ctrl, iaddr, Received(n))
  }

  function BusOf(cs: seq<Command>): seq<Event> {
    if cs == [] then [] else Bus(cs[0]) + BusOf(cs[1..])
  }

  /** More commands and more bytes in the pool do not change the trace of the commands before them. */
  lemma {:induction false} TraceOfPart(txn: Txn, all: Txn, n: nat)
    requires AllInPool(txn) && AllInPool(all) && txn.cmds <= all.cmds && txn.pool <= all.pool && n <= |txn.cmds|
    ensures TraceUpTo(all, n) == TraceUpTo(txn, n)
  {
    if n > 0 {
      TraceOfPart(txn, all, n - 1);
      var c := txn.cmds[n - 1];
      assert InPool(c, txn.pool);
      SameSlice(txn.pool, all.pool, c.off, c.off + c.len);
    }
  }

  lemma SameSlice(a: seq<Byte>, b: seq<Byte>, i: nat, j: nat)
    requires a <= b && i <= j <= |a|
    ensures b[i..j] == a[i..j]
  {
  }

  lemma RecordBus(c: Command, before: seq<Byte>)
    ensures var record, pool := RecordOf(c, |before|), before + PayloadOf(c);
      InPool(record, pool) && CmdTrace(record, pool) == Bus(c)
  {
    var pool := before + PayloadOf(c);
    assert pool[|before|..|before| + |PayloadOf(c)|] == PayloadOf(c);
  }

  lemma RecordTrace(c: Command, sofar: Txn)
    requires AllInPool(sofar)
    ensures var next := Txn(sofar.cmds + [RecordOf(c, |sofar.pool|)], sofar.pool + PayloadOf(c));
      AllInPool(next) && Trace(next) == Trace(sofar) + Bus(c)
  {
    var record, pool := RecordOf(c, |sofar.pool|), sofar.pool + PayloadOf(c);
    RecordBus(c, sofar.pool);
    OneCommandMore(sofar, record, pool);
  }

  lemma OneCommandMore(sofar: Txn, c: Cmd, pool: seq<Byte>)
    requires AllInPool(sofar) && sofar.pool <= pool && InPool(c, pool)
    ensures var next := Txn(sofar.cmds + [c], pool);
      AllInPool(next) && Trace(next) == Trace(sofar) + CmdTrace(c, pool)
  {
    var next := Txn(sofar.cmds + [c], pool);
    forall i | 0 <= i < |next.cmds|
      ensures InPool(next.cmds[i], pool)
    {
      if i < |sofar.cmds| { assert InPool(sofar.cmds[i], sofar.pool); }
    }
    TraceOfPart(sofar, next, |sofar.cmds|);
  }

  lemma {:induction false} MeaningTrace(cs: seq<Command>, sofar: Txn)
    requires AllInPool(sofar)
    ensures var txn := Meaning(cs, sofar); AllInPool(txn) && Trace(txn) == Trace(sofar) + BusOf(cs)
    decreases |cs|
  {
    if cs == [] {
      assert Trace(sofar) + [] == Trace(sofar);
    } else {
      var next := Txn(sofar.cmds + [RecordOf(cs[0], |sofar.pool|)], sofar.pool + PayloadOf(cs[0]));
      RecordTrace(cs[0], sofar);
      MeaningTrace(cs[1..], next);
      Assoc(Trace(sofar), Bus(cs[0]), BusOf(cs[1..]));
    }
  }

  /** From text to bus: parsing and running a rendered list of commands puts exactly these commands on the bus. */
  lemma TextToBus(cs: seq<Command>)
    requires cs != [] && forall c :: c in cs ==> ValidCommand(c)
    requires |cs| <= MAX_CMDS && TotalPayload(cs) <= POOL_SIZE
    ensures var r := Parse(ChainText(cs)); r.Accepted? && AllInPool(r.txn) && Trace(r.txn) == BusOf(cs)
  {
    RoundTrip(cs);
    MeaningTrace(cs, Txn([], []));
    assert [] + BusOf(cs) == BusOf(cs);
  }

  /** Every accepted TWI line puts on the bus what its canonical form says. */
  lemma AcceptedToBus(line: string)
    requires AtCmdStart(SkipBlanks(line)) && Parse(line).Accepted?
    ensures var txn := Parse(line).txn;
      && AllInPool(txn) && Tiled(txn.cmds, txn.pool, 0)
      && Trace(txn) == BusOf(Canonical(txn.cmds, txn.pool, 0))
  {
    var txn := Parse(line).txn;
    AcceptedShape(line);
    CanonicalMeans(txn.cmds, txn.pool, 0, []);
    assert [] + txn.cmds == txn.cmds && txn.pool[..0] == [];
    MeaningTrace(Canonical(txn.cmds, txn.pool, 0), Txn([], []));
    assert [] + BusOf(Canonical(txn.cmds, txn.pool, 0)) == BusOf(Canonical(txn.cmds, txn.pool, 0));
  }

  // ---- The events one by one -------------------------------------------------------------

  /** A write sends control byte, internal address and payload, and the host acknowledges nothing. */
  lemma WriteEvents(c: Cmd, pool: seq<Byte>)
    requires InPool(c, pool) && c.kind == TwiWrite
    ensures var events := CmdTrace(c, pool);
      && |events| == c.len + 4 && events[0] == Start && events[c.len + 3] == Stop
      && events[1] == Trans(c.ctrl, false) && events[2] == Trans(c.iaddr, false)
      && forall k :: 3 <= k < c.len + 3 ==> events[k] == Trans(pool[c.off + k - 3], false)
  {
    var events, data := CmdTrace(c, pool), Sent(pool[c.off..c.off + c.len]);
    forall k | 3 <= k < c.len + 3
      ensures events[k] == Trans(pool[c.off + k - 3], false)
    {
      assert events[k] == data[k - 3];
    }
  }

  /** A read sends control byte and internal address, then clocks 0xFF as often as asked; the host acknowledges the bytes
      read but the last. */
  lemma ReadEvents(c: Cmd, pool: seq<Byte>)
    requires InPool(c, pool) && c.kind == TwiRead
    ensures var events := CmdTrace(c, pool);
      && |events| == c.rdLen + 4 && events[0] == Start && events[c.rdLen + 3] == Stop
      && events[1] == Trans(c.ctrl, false) && events[2] == Trans(c.iaddr, false)
      && (forall k :: 3 <= k < c.rdLen + 2 ==> events[k] == Trans(0xFF, true))
      && (c.rdLen > 0 ==> events[c.rdLen + 2] == Trans(0xFF, false))
  {
    var events, data := CmdTrace(c, pool), Received(c.rdLen);
    forall k | 3 <= k < c.rdLen + 3
      ensures events[k] == Trans(0xFF, k < c.rdLen + 2)
    {
      assert events[k] == data[k - 3];
    }
  }

  /** The same of the commands of a printed text. */
  lemma PrintedEvents(c: Command)
    ensures var n := if c.Write? then |GroupsBytes(c.groups)| else c.count;
      var events := Bus(c);
      && |events| == n + 4 && events[0] == Start && events[n + 3] == Stop
      && events[1] == Trans(c.ctrl, false) && events[2] == Trans(c.iaddr, false)
      && forall k :: 3 <= k < n + 3 ==>
           events[k] == if c.Write? then Trans(GroupsBytes(c.groups)[k - 3], false) else Trans(0xFF, k != n + 2)
  {
    var n := if c.Write? then |GroupsBytes(c.groups)| else c.count;
    var events, data := Bus(c), if c.Write? then Sent(GroupsBytes(c.groups)) else Received(c.count);
    forall k | 3 <= k < n + 3
      ensures events[k] == data[k - 3]
    {
    }
  }

  /** A list of commands that can be written as one line. */
  ghost predicate Printable(cs: seq<Command>) {
    cs != [] && (forall c :: c in cs ==> ValidCommand(c)) && |cs| <= MAX_CMDS && TotalPayload(cs) <= POOL_SIZE
  }

  lemma AcceptedInPool(line: string)
    requires Parse(line).Accepted?
    ensures AllInPool(Parse(line).txn)
  {
    if AtCmdStart(SkipBlanks(line)) { AcceptedToBus(line); }
  }

  /** What a special line asks of the hardware. */
  lemma SpecialToBus(line: string)
    ensures forall v: Byte :: Says(line, OUT + Octet(v)) ==> Parse(line).Accepted? && AllInPool(Parse(line).txn) && Trace(Parse(line).txn) == [GpioWrite(v)]
    ensures Says(line, "inp") ==> Parse(line).Accepted? && AllInPool(Parse(line).txn) && Trace(Parse(line).txn) == [GpioRead]
    ensures Says(line, "help") || Says(line, "?") ==> Parse(line).Accepted? && AllInPool(Parse(line).txn) && Trace(Parse(line).txn) == []
    ensures !StartsTransaction(line) && Parse(line).Accepted? ==> IsSpecial(line)
  {
    StartsTransactionIs(line);
    if IsSpecial(line) { SpecialIsNoTransaction(line); }
    if !AtCmdStart(SkipBlanks(line)) {
      SpecialLines(line);
      forall v: Byte | Says(line, OUT + Octet(v))
        ensures Trace(Parse(line).txn) == [GpioWrite(v)]
      {
        OneCommand(NO_CMD.(kind := GpioOut, gpio := v));
      }
      OneCommand(NO_CMD.(kind := GpioIn));
      OneCommand(NO_CMD.(kind := Help));
    }
  }

  lemma OneCommand(c: Cmd)
    requires c.off == c.len == 0
    ensures AllInPool(Txn([c], [])) && Trace(Txn([c], [])) == CmdTrace(c, [])
  {
    assert TraceUpTo(Txn([c], []), 0) == [];
    assert Trace(Txn([c], [])) == [] + CmdTrace(c, []);
  }

  /** One round of the shell: parses the line and runs what it holds, or reports the error and leaves the hardware alone. */
  method RunLine(line: string, hal: Hal, ghost cs: seq<Command>) returns (rc: int)
    requires '\0' !in line
    modifies hal
    ensures match Parse(line)
      case Accepted(txn) => rc == 0 && AllInPool(txn) && hal.trace == old(hal.trace) + Trace(txn)
      case Rejected(_) => rc == -1 && hal.trace == old(hal.trace)
    ensures Printable(cs) && line == ChainText(cs) ==> rc == 0 && hal.trace == old(hal.trace) + BusOf(cs)
    ensures forall v: Byte :: Says(line, OUT + Octet(v)) ==> rc == 0 && hal.trace == old(hal.trace) + [GpioWrite(v)]
    ensures Says(line, "inp") ==> rc == 0 && hal.trace == old(hal.trace) + [GpioRead]
    ensures Says(line, "help") || Says(line, "?") ==> rc == 0 && hal.trace == old(hal.trace)
    ensures !StartsTransaction(line) && !IsSpecial(line) ==> rc == -1 && hal.trace == old(hal.trace)
  {
    SpecialToBus(line);
    var parser := new TwiParser.Parser(line);
    rc := parser.ParseTransaction();
    if rc == 0 {
      AcceptedInPool(line);
      Run(hal, Txn(parser.cmds[..parser.count], parser.pool[..parser.used]));
    }
    if Printable(cs) && line == ChainText(cs) { TextToBus(cs); }
  }
}
