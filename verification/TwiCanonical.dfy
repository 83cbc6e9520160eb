/** What every accepted line looks like after parsing, and its canonical form. */
module TwiCanonical {
  import opened Basics
  import opened TwiSyntax
  import opened TwiPrinter

  /** A command record as the parser leaves it. */
  predicate WellFormedCmd(c: Cmd) {
    && 0xA0 <= c.ctrl <= 0xA3 && c.gpio == 0
    && c.kind == (if IsRead(c.ctrl) then TwiRead else TwiWrite)
    && (c.kind == TwiRead ==> c.len == 0 && c.rdLen <= 0x3FE && (c.rdLen > 0 ==> c.rdFmt != NoFormat))
    && (c.kind == TwiWrite ==> c.rdLen == 0 && c.rdFmt == NoFormat && c.len <= 1022)
  }

  /** The payloads of the commands cover the pool from `used` on, one behind the other in order. */
  predicate Tiled(cmds: seq<Cmd>, pool: seq<Byte>, used: nat) {
    if cmds == [] then used == |pool|
    else cmds[0].off == used && used + cmds[0].len <= |pool| && Tiled(cmds[1..], pool, used + cmds[0].len)
  }

  // ---- Every accepted line ---------------------------------------------------------------

  /** The bytes of a command stay within its own limit and the pool. */
  predicate Within(acc: seq<Byte>, base: nat) {
    |acc| <= PAYLOAD_MAX && base + |acc| <= POOL_SIZE
  }

  lemma {:induction false} HexRunWithin(s: string, acc: seq<Byte>, base: nat)
    requires Within(acc, base)
    ensures var r := HexRun(s, acc, base); r.Ok? ==> Within(r.value, base)
    decreases |s|
  {
    if IsHex(At(s, 0)) && HexByte(s).Ok? && Room(acc, base).Ok? {
      HexRunWithin(HexByte(s).rest, acc + [HexByte(s).value], base);
    }
  }

  lemma {:induction false} BinRunWithin(s: string, acc: seq<Byte>, base: nat)
    requires Within(acc, base)
    ensures var r := BinRun(s, acc, base); r.Ok? ==> Within(r.value, base)
    decreases |s|
  {
    if IsBin(At(SkipUnders(s), 0)) && BinByte(s, 0, 0).Ok? && Room(acc, base).Ok? {
      BinRunWithin(BinByte(s, 0, 0).rest, acc + [BinByte(s, 0, 0).value], base);
    }
  }

  lemma {:induction false} AsciiRunWithin(s: string, acc: seq<Byte>, base: nat)
    requires Within(acc, base)
    ensures var r := AsciiRun(s, acc, base); r.Ok? ==> Within(r.value, base)
    decreases |s|
  {
    if IsAlnum(At(s, 0)) && Room(acc, base).Ok? {
      AsciiRunWithin(s[1..], acc + [s[0] as int], base);
    }
  }

  lemma GroupWithin(s: string, acc: seq<Byte>, base: nat)
    requires IsSelector(At(s, 0)) && Within(acc, base)
    ensures var r := TwiSyntax.Group(s, acc, base); r.Ok? ==> Within(r.value, base)
  {
    if s[0] == 'h' {
      HexRunWithin(s[1..], acc, base);
    } else if s[0] == 'b' {
      BinRunWithin(s[1..], acc, base);
    } else {
      AsciiRunWithin(s[1..], acc, base);
    }
  }

  lemma {:induction false} PayloadWithin(s: string, acc: seq<Byte>, base: nat)
    requires Within(acc, base)
    ensures var r := Payload(s, acc, base); r.Ok? ==> Within(r.value, base)
    decreases |s|
  {
    if s == "" || AtCmdStart(s) {
    } else if s[0] == '_' {
      PayloadWithin(s[1..], acc, base);
    } else if IsSelector(s[0]) {
      GroupWithin(s, acc, base);
      var r := TwiSyntax.Group(s, acc, base);
      if r.Ok? { PayloadWithin(r.rest, r.value, base); }
    }
  }

  lemma TwiCmdShape(s: string, base: nat)
    requires base <= POOL_SIZE
    ensures var r := TwiCmd(s, base);
      r.Ok? ==>
        && WellFormedCmd(r.value.0) && r.value.0.off == base
        && |r.value.1| == r.value.0.len && base + |r.value.1| <= POOL_SIZE
  {
    if AtCmdStart(s) {
      var ctrl := HexByte(s[1..]);
      assert ctrl.Ok? && 0xA0 <= ctrl.value <= 0xA3;
      var slot := OneByteAny(ctrl.rest);
      if slot.Ok? && !IsRead(ctrl.value) {
        PayloadWithin(slot.rest, [], base);
      }
    }
  }

  /** An accepted chain that is not at its end has a command in front and an accepted chain behind it. */
  lemma ChainStep(s: string, sofar: Txn) returns (c: Cmd, v: seq<Byte>, rest: string)
    requires Chain(s, sofar).Accepted? && SkipUnders(s) != "" && |sofar.pool| <= POOL_SIZE
    ensures |sofar.cmds| < MAX_CMDS && |rest| < |s|
    ensures WellFormedCmd(c) && c.off == |sofar.pool| && |v| == c.len && |sofar.pool| + c.len <= POOL_SIZE
    ensures Chain(s, sofar) == Chain(rest, Txn(sofar.cmds + [c], sofar.pool + v))
  {
    var t := SkipUnders(s);
    var r := TwiCmd(t, |sofar.pool|);
    TwiCmdShape(t, |sofar.pool|);
    c, v, rest := r.value.0, r.value.1, r.rest;
  }

  /** A command that comes next after `sofar`, with its bytes. */
  ghost predicate Fits(sofar: Txn, c: Cmd, v: seq<Byte>) {
    && |sofar.cmds| < MAX_CMDS && WellFormedCmd(c)
    && c.off == |sofar.pool| && |v| == c.len && |sofar.pool| + c.len <= POOL_SIZE
  }

  /** `txn` is `sofar` with the commands of `steps`, each with its bytes, coming after it. */
  ghost predicate Extends(sofar: Txn, steps: seq<(Cmd, seq<Byte>)>, txn: Txn)
    decreases |steps|
  {
    if steps == [] then txn == sofar
    else
      var (c, v) := steps[0];
      Fits(sofar, c, v) && Extends(Txn(sofar.cmds + [c], sofar.pool + v), steps[1..], txn)
  }

  /** Every accepted chain is built command by command. */
  lemma {:induction false} ChainSteps(s: string, sofar: Txn, txn: Txn) returns (steps: seq<(Cmd, seq<Byte>)>)
    requires |sofar.pool| <= POOL_SIZE && Chain(s, sofar) == Accepted(txn)
    ensures Extends(sofar, steps, txn) && (AtCmdStart(s) ==> steps != [])
    decreases |s|
  {
    steps := [];
    if SkipUnders(s) != "" {
      var c, v, rest := ChainStep(s, sofar);
      var tail := ChainSteps(rest, Txn(sofar.cmds + [c], sofar.pool + v), txn);
      steps := [(c, v)] + tail;
      assert steps[1..] == tail;
    }
  }

  /** What is built that way: its records are well formed, and their payloads tile the pool in order. */
  lemma {:induction false} StepsShape(sofar: Txn, steps: seq<(Cmd, seq<Byte>)>, txn: Txn) returns (more: seq<Cmd>)
    requires |sofar.cmds| <= MAX_CMDS && |sofar.pool| <= POOL_SIZE && Extends(sofar, steps, txn)
    ensures txn.cmds == sofar.cmds + more && |txn.cmds| <= MAX_CMDS && |txn.pool| <= POOL_SIZE
    ensures |sofar.pool| <= |txn.pool| && Tiled(more, txn.pool, |sofar.pool|)
    ensures forall c :: c in more ==> WellFormedCmd(c)
    ensures |more| == |steps|
    decreases |steps|
  {
    more := [];
    if steps != [] {
      var (c, v) := steps[0];
      var tail := StepsShape(Txn(sofar.cmds + [c], sofar.pool + v), steps[1..], txn);
      more := [c] + tail;
      Assoc(sofar.cmds, [c], tail);
      TiledFront(c, tail, txn.pool, |sofar.pool|);
      WellFormedFront(c, tail);
    }
  }

  /** Every accepted chain: its records are well formed, and their payloads tile the pool in order. */
  lemma ChainShape(s: string, sofar: Txn, txn: Txn) returns (more: seq<Cmd>)
    requires |sofar.cmds| <= MAX_CMDS && |sofar.pool| <= POOL_SIZE && Chain(s, sofar) == Accepted(txn)
    ensures txn.cmds == sofar.cmds + more && |txn.cmds| <= MAX_CMDS && |txn.pool| <= POOL_SIZE
    ensures |sofar.pool| <= |txn.pool| && Tiled(more, txn.pool, |sofar.pool|)
    ensures forall c :: c in more ==> WellFormedCmd(c)
    ensures AtCmdStart(s) ==> more != []
  {
    var steps := ChainSteps(s, sofar, txn);
    more := StepsShape(sofar, steps, txn);
  }

  lemma WellFormedFront(c: Cmd, tail: seq<Cmd>)
    requires WellFormedCmd(c) && forall x :: x in tail ==> WellFormedCmd(x)
    ensures forall x :: x in [c] + tail ==> WellFormedCmd(x)
  {
  }

  lemma TiledFront(c: Cmd, tail: seq<Cmd>, pool: seq<Byte>, used: nat)
    requires c.off == used && used + c.len <= |pool| && Tiled(tail, pool, used + c.len)
    ensures Tiled([c] + tail, pool, used)
  {
    assert ([c] + tail)[1..] == tail;
  }

  /** What holds of the transaction of every accepted TWI line. */
  lemma AcceptedShape(line: string)
    requires AtCmdStart(SkipBlanks(line)) && Parse(line).Accepted?
    ensures var txn := Parse(line).txn;
      && 0 < |txn.cmds| <= 160 && |txn.pool| <= 2044
      && Tiled(txn.cmds, txn.pool, 0)
      && forall c :: c in txn.cmds ==> WellFormedCmd(c)
  {
    var more := ChainShape(SkipBlanks(line), Txn([], []), Parse(line).txn);
    assert [] + more == more;
  }

  // ---- The canonical form ----------------------------------------------------------------

  /** A record written down anew: internal address and payload in binary, the count in three hex digits. */
  function Rewritten(c: Cmd, bytes: seq<Byte>): Command {
    if IsRead(c.ctrl) then Read(c.ctrl, Bin, c.iaddr, c.rdLen, c.rdFmt)
    else Write(c.ctrl, Bin, c.iaddr, if bytes == [] then [] else [BinG(bytes)])
  }

  function Canonical(cmds: seq<Cmd>, pool: seq<Byte>, used: nat): seq<Command>
    requires Tiled(cmds, pool, used)
  {
    if cmds == [] then []
    else [Rewritten(cmds[0], pool[used..used + cmds[0].len])] + Canonical(cmds[1..], pool, used + cmds[0].len)
  }

  lemma RewrittenBytes(c: Cmd, bytes: seq<Byte>)
    requires WellFormedCmd(c) && |bytes| == c.len
    ensures var w := Rewritten(c, bytes); ValidCommand(w) && PayloadOf(w) == bytes && RecordOf(w, c.off) == c
  {
    var w := Rewritten(c, bytes);
    if c.kind == TwiWrite && bytes != [] {
      assert GroupsBytes(w.groups) == bytes + GroupsBytes([]);
      assert bytes + [] == bytes;
    }
  }

  lemma {:induction false} CanonicalValid(cmds: seq<Cmd>, pool: seq<Byte>, used: nat)
    requires Tiled(cmds, pool, used) && forall c :: c in cmds ==> WellFormedCmd(c)
    ensures var cs := Canonical(cmds, pool, used); |cs| == |cmds| && forall c :: c in cs ==> ValidCommand(c)
    decreases |cmds|
  {
    if cmds != [] {
      var c := cmds[0];
      assert c in cmds;
      RewrittenBytes(c, pool[used..used + c.len]);
      CanonicalValid(cmds[1..], pool, used + c.len);
    }
  }

  lemma {:induction false} CanonicalTotal(cmds: seq<Cmd>, pool: seq<Byte>, used: nat)
    requires used <= |pool| && Tiled(cmds, pool, used) && forall c :: c in cmds ==> WellFormedCmd(c)
    ensures TotalPayload(Canonical(cmds, pool, used)) == |pool| - used
    decreases |cmds|
  {
    if cmds != [] {
      var c, end := cmds[0], used + cmds[0].len;
      assert c in cmds;
      CanonicalTotal(cmds[1..], pool, end);
      RewrittenBytes(c, pool[used..end]);
    }
  }

  lemma {:induction false} CanonicalMeans(cmds: seq<Cmd>, pool: seq<Byte>, used: nat, before: seq<Cmd>)
    requires used <= |pool| && Tiled(cmds, pool, used) && forall c :: c in cmds ==> WellFormedCmd(c)
    ensures Meaning(Canonical(cmds, pool, used), Txn(before, pool[..used])) == Txn(before + cmds, pool)
    decreases |cmds|
  {
    if cmds == [] {
      assert before + cmds == before && pool[..used] == pool;
    } else {
      var c, end := cmds[0], used + cmds[0].len;
      assert c in cmds;
      CanonicalMeans(cmds[1..], pool, end, before + [c]);
      MeaningFront(c, pool, used, before, Canonical(cmds[1..], pool, end));
      FrontMoves(before, cmds);
    }
  }

  lemma FrontMoves(before: seq<Cmd>, cmds: seq<Cmd>)
    requires cmds != []
    ensures before + [cmds[0]] + cmds[1..] == before + cmds
  {
  }

  lemma MeaningFront(c: Cmd, pool: seq<Byte>, used: nat, before: seq<Cmd>, tail: seq<Command>)
    requires WellFormedCmd(c) && c.off == used && used + c.len <= |pool|
    ensures var w := Rewritten(c, pool[used..used + c.len]);
      Meaning([w] + tail, Txn(before, pool[..used])) == Meaning(tail, Txn(before + [c], pool[..used + c.len]))
  {
    var bytes := pool[used..used + c.len];
    var w := Rewritten(c, bytes);
    RewrittenBytes(c, bytes);
    assert ([w] + tail)[1..] == tail;
    assert pool[..used] + bytes == pool[..used + c.len];
  }

  /** Printing the transaction of an accepted line in canonical form and parsing that gives the same transaction. */
  lemma Reparse(line: string)
    requires AtCmdStart(SkipBlanks(line)) && Parse(line).Accepted?
    ensures var txn := Parse(line).txn;
      && Tiled(txn.cmds, txn.pool, 0)
      && var cs := Canonical(txn.cmds, txn.pool, 0);
         (forall c :: c in cs ==> ValidCommand(c)) && Parse(ChainText(cs)) == Accepted(txn)
  {
    AcceptedShape(line);
    var txn := Parse(line).txn;
    CanonicalValid(txn.cmds, txn.pool, 0);
    CanonicalTotal(txn.cmds, txn.pool, 0);
    CanonicalMeans(txn.cmds, txn.pool, 0, []);
    assert [] + txn.cmds == txn.cmds && txn.pool[..0] == [];
    RoundTrip(Canonical(txn.cmds, txn.pool, 0));
  }
}
