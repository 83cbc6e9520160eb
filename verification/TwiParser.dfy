/** The parser: a cursor over the line, a table of command records and a shared payload pool, filled in place. */
module TwiParser {
  import opened Basics
  import opened TwiSyntax

  datatype Failure = NoError | Failed(error: Error)

  class Parser {
    const line: string
    const cmds: array<Cmd>
    const pool: array<Byte>
    var p: nat
    var count: nat
    var used: nat
    var failure: Failure

    ghost predicate Valid()
      reads `p, `count, `used
    {
      && '\0' !in line && p <= |line|
      && cmds.Length == MAX_CMDS && pool.Length == POOL_SIZE && count <= MAX_CMDS && used <= POOL_SIZE
    }

    /** What is left of the line. */
    ghost function Rest(): string
      requires Valid()
      reads `p, `count, `used
    {
      line[p..]
    }

    /** The commands and payload bytes stored so far; nothing has gone wrong. */
    ghost predicate Stored(done: Txn)
      requires Valid()
      reads this, cmds, pool
    {
      && count == |done.cmds| && cmds[..count] == done.cmds
      && used == |done.pool| && pool[..used] == done.pool && failure == NoError
    }

    /** A command is being stored after `done`: its record is `c` but for the length, its payload so far is `acc`. */
    ghost predicate Open(done: Txn, c: Cmd, acc: seq<Byte>)
      requires Valid()
      reads this, cmds, pool
    {
      && count == |done.cmds| < MAX_CMDS && cmds[..count] == done.cmds
      && used == |done.pool| + |acc| && pool[..used] == done.pool + acc
      && cmds[count] == c.(len := |acc|) && c.off == |done.pool| && failure == NoError
    }

    /** A part of the parser did what the parsing function says: value and rest, or the error. */
    ghost predicate Did<T>(r: Parsed<T>, ok: bool, value: T)
      requires Valid()
      reads `p, `count, `used, `failure
    {
      match r
      case Ok(v, rest) => ok && value == v && Rest() == rest && failure == NoError
      case Err(e) => !ok && failure == Failed(e)
    }

    constructor (line: string)
      requires '\0' !in line
      ensures this.line == line && Valid() && p == 0 && Stored(Txn([], [])) && failure == NoError
      ensures fresh(cmds) && fresh(pool)
    {
      this.line := line;
      cmds := new Cmd[MAX_CMDS](_ => NO_CMD);
      pool := new Byte[POOL_SIZE](_ => 0);
      p, count, used, failure := 0, 0, 0, NoError;
    }

    // ---- Cursor --------------------------------------------------------------------------

    function Char(i: nat): (c: char)
      requires p <= |line|
      reads `p
      ensures c == At(line[p..], i)
    {
      if p + i < |line| then line[p + i] else '\0'
    }

    function Eos(): bool
      requires p <= |line|
      reads `p
    {
      Char(0) == '\0'
    }

    lemma EosIsEnd()
      requires Valid()
      ensures Eos() <==> Rest() == ""
    {
    }

    function CmdStart(): (b: bool)
      requires p <= |line|
      reads `p
      ensures b == AtCmdStart(line[p..])
    {
      Char(0) == 'h' && Char(1) == 'A' && '0' <= Char(2) <= '3'
    }

    method Advance()
      requires Valid() && p < |line|
      modifies `p
      ensures Valid() && p == old(p) + 1 && Rest() == old(Rest())[1..]
    {
      p := p + 1;
    }

    method Fail(e: Error)
      modifies `failure
      ensures failure == Failed(e)
    {
      failure := Failed(e);
    }

    method SkipUnderscores()
      requires Valid()
      modifies `p
      ensures Valid() && Rest() == SkipUnders(old(Rest()))
    {
      while Char(0) == '_'
        invariant Valid() && SkipUnders(Rest()) == SkipUnders(old(Rest()))
        decreases |line| - p
      {
        Advance();
      }
    }

    method SkipSpaces()
      requires Valid()
      modifies `p
      ensures Valid() && Rest() == SkipBlanks(old(Rest()))
    {
      while Char(0) == ' ' || Char(0) == '\t'
        invariant Valid() && SkipBlanks(Rest()) == SkipBlanks(old(Rest()))
        decreases |line| - p
      {
        Advance();
      }
    }

    // ---- Bytes ---------------------------------------------------------------------------

    method DecodeHexByte() returns (ok: bool, b: Byte)
      requires Valid() && failure == NoError
      modifies `p, `failure
      ensures Valid() && Did(HexByte(old(Rest())), ok, b)
    {
      b := 0;
      if !IsHex(Char(0)) || !IsHex(Char(1)) {
        Fail(HexDigits);
        return false, b;
      }
      b := 16 * HexVal(Char(0)) + HexVal(Char(1));
      p := p + 2;
      ok := true;
    }

    method DecodeBinByte() returns (ok: bool, v: Byte)
      requires Valid() && failure == NoError
      modifies `p, `failure
      ensures Valid() && Did(BinByte(old(Rest()), 0, 0), ok, v)
    {
      v := 0;
      var bits := 0;
      while bits < 8
        invariant Valid() && failure == NoError && 0 <= bits <= 8 && BinByte(Rest(), v, bits) == BinByte(old(Rest()), 0, 0)
        decreases |line| - p
      {
        var ch := Char(0);
        if ch == '_' {
          Advance();
          continue;
        }
        if !IsBin(ch) {
          Fail(EightBits);
          return false, v;
        }
        v := ShiftIn(v, ch);
        Advance();
        bits := bits + 1;
      }
      ok := true;
    }

    method DecodeAsciiByte() returns (ok: bool, b: Byte)
      requires Valid() && failure == NoError
      modifies `p, `failure
      ensures Valid() && Did(AsciiByte(old(Rest())), ok, b)
    {
      b := 0;
      if !IsAlnum(Char(0)) {
        Fail(LetterOrDigit);
        return false, b;
      }
      b := Char(0) as int;
      Advance();
      ok := true;
    }

    // ---- Payloads ------------------------------------------------------------------------

    method PushPayload(b: Byte, ghost done: Txn, ghost c: Cmd, ghost acc: seq<Byte>) returns (ok: bool)
      requires Valid() && Open(done, c, acc)
      modifies `used, `failure, cmds, pool
      ensures Valid()
      ensures match Room(acc, |done.pool|)
        case Ok(_, _) => ok && Open(done, c, acc + [b])
        case Err(e) => !ok && failure == Failed(e)
    {
      var len := cmds[count].len;
      if len >= PAYLOAD_MAX {
        Fail(PayloadTooLong);
        return false;
      }
      if used >= POOL_SIZE {
        Fail(PoolExhausted);
        return false;
      }
      pool[used] := b;
      used := used + 1;
      cmds[count] := cmds[count].(len := len + 1);
      assert pool[..used] == old(pool[..used]) + [b];
      Snoc(done.pool, acc, b);
      ok := true;
    }

    method HexGroup(ghost done: Txn, ghost c: Cmd, ghost acc: seq<Byte>) returns (ok: bool, ghost v: seq<Byte>)
      requires Valid() && Open(done, c, acc)
      modifies `p, `used, `failure, cmds, pool
      ensures Valid() && Did(HexRun(old(Rest()), acc, |done.pool|), ok, v) && (ok ==> Open(done, c, v))
    {
      v := acc;
      while IsHex(Char(0))
        invariant Valid() && Open(done, c, v)
        invariant HexRun(Rest(), v, |done.pool|) == HexRun(old(Rest()), acc, |done.pool|)
        decreases |line| - p
      {
        var b;
        ok, b := DecodeHexByte();
        if !ok {
          return;
        }
        ok := PushPayload(b, done, c, v);
        if !ok {
          return;
        }
        v := v + [b];
      }
      ok := true;
    }

    /** Does a bit follow after any '_'? */
    method PeekBit() returns (more: bool)
      requires Valid()
      ensures more <==> IsBin(At(SkipUnders(Rest()), 0))
    {
      var peek := p;
      while peek < |line| && line[peek] == '_'
        invariant p <= peek <= |line| && SkipUnders(line[peek..]) == SkipUnders(Rest())
      {
        assert line[peek..][1..] == line[peek + 1..];
        peek := peek + 1;
      }
      more := peek < |line| && IsBin(line[peek]);
    }

    method BinGroup(ghost done: Txn, ghost c: Cmd, ghost acc: seq<Byte>) returns (ok: bool, ghost v: seq<Byte>)
      requires Valid() && Open(done, c, acc)
      modifies `p, `used, `failure, cmds, pool
      ensures Valid() && Did(BinRun(old(Rest()), acc, |done.pool|), ok, v) && (ok ==> Open(done, c, v))
    {
      v := acc;
      while IsBin(Char(0)) || Char(0) == '_'
        invariant Valid() && Open(done, c, v)
        invariant BinRun(Rest(), v, |done.pool|) == BinRun(old(Rest()), acc, |done.pool|)
        decreases |line| - p
      {
        var more := PeekBit();
        if !more {
          break;
        }
        var b;
        ok, b := DecodeBinByte();
        if !ok {
          return;
        }
        ok := PushPayload(b, done, c, v);
        if !ok {
          return;
        }
        v := v + [b];
      }
      ok := true;
    }

    method AsciiGroup(ghost done: Txn, ghost c: Cmd, ghost acc: seq<Byte>) returns (ok: bool, ghost v: seq<Byte>)
      requires Valid() && Open(done, c, acc)
      modifies `p, `used, `failure, cmds, pool
      ensures Valid() && Did(AsciiRun(old(Rest()), acc, |done.pool|), ok, v) && (ok ==> Open(done, c, v))
    {
      v := acc;
      while IsAlnum(Char(0))
        invariant Valid() && Open(done, c, v)
        invariant AsciiRun(Rest(), v, |done.pool|) == AsciiRun(old(Rest()), acc, |done.pool|)
        decreases |line| - p
      {
        var b;
        ok, b := DecodeAsciiByte();
        if !ok {
          return;
        }
        ok := PushPayload(b, done, c, v);
        if !ok {
          return;
        }
        v := v + [b];
      }
      ok := true;
    }

    method CloseAscii() returns (ok: bool)
      requires Valid() && failure == NoError
      modifies `p, `failure
      ensures Valid() && Did(AsciiClose(old(Rest())), ok, ())
    {
      EosIsEnd();
      if Char(0) == '_' {
        Advance();
      } else if Eos() || CmdStart() {
      } else {
        Fail(AsciiEnd);
        return false;
      }
      ok := true;
    }

    method ParseGroup(fc: char, ghost done: Txn, ghost c: Cmd, ghost acc: seq<Byte>) returns (ok: bool, ghost v: seq<Byte>)
      requires Valid() && Open(done, c, acc) && p < |line| && fc == line[p] && IsSelector(fc)
      modifies `p, `used, `failure, cmds, pool
      ensures Valid() && Did(Group(old(Rest()), acc, |done.pool|), ok, v) && (ok ==> Open(done, c, v))
    {
      Advance();
      var before := cmds[count].len;
      if fc == 'h' {
        ok, v := HexGroup(done, c, acc);
        if ok && cmds[count].len == before {
          Fail(EmptyHex);
          ok := false;
        }
      } else if fc == 'b' {
        ok, v := BinGroup(done, c, acc);
        if ok && cmds[count].len == before {
          Fail(EmptyBin);
          ok := false;
        }
      } else {
        ok, v := AsciiGroup(done, c, acc);
        if ok {
          if cmds[count].len == before {
            Fail(EmptyAscii);
            return false, v;
          }
          ok := CloseAscii();
        }
      }
    }

    method ParseWritePayload(ghost done: Txn, ghost c: Cmd) returns (ok: bool, ghost v: seq<Byte>)
      requires Valid() && Open(done, c, [])
      modifies `p, `used, `failure, cmds, pool
      ensures Valid() && Did(Payload(old(Rest()), [], |done.pool|), ok, v) && (ok ==> Open(done, c, v))
    {
      v := [];
      EosIsEnd();
      while !Eos()
        invariant Valid() && Open(done, c, v) && (Eos() <==> Rest() == "")
        invariant Payload(Rest(), v, |done.pool|) == Payload(old(Rest()), [], |done.pool|)
        decreases |line| - p
      {
        if CmdStart() {
          return true, v;
        }
        var fc := Char(0);
        if fc == '_' {
          Advance();
        } else {
          if !IsSelector(fc) {
            Fail(Selector);
            return false, v;
          }
          ok, v := ParseGroup(fc, done, c, v);
          if !ok {
            return;
          }
        }
        EosIsEnd();
      }
      ok := true;
    }

    // ---- Commands ------------------------------------------------------------------------

    method ParseOneByteAny() returns (ok: bool, b: Byte)
      requires Valid() && failure == NoError
      modifies `p, `failure
      ensures Valid() && Did(OneByteAny(old(Rest())), ok, b)
    {
      b := 0;
      SkipUnderscores();
      var fc := Char(0);
      if !IsSelector(fc) {
        Fail(AddressSelector);
        return false, b;
      }
      Advance();
      if fc == 'h' {
        ok, b := DecodeHexByte();
      } else if fc == 'b' {
        ok, b := DecodeBinByte();
      } else {
        ok, b := DecodeAsciiByte();
      }
      if !ok {
        return;
      }
      if fc == 'a' && Char(0) == '_' {
        Advance();
      }
    }

    method ParseCount() returns (n: nat, digits: nat)
      requires Valid()
      modifies `p
      ensures Valid() && (n, digits, Rest()) == Count(old(Rest()), 0, 0)
    {
      n, digits := 0, 0;
      while IsHex(Char(0)) && digits < 3
        invariant Valid() && Count(Rest(), n, digits) == Count(old(Rest()), 0, 0)
        decreases |line| - p
      {
        n := 16 * n + HexVal(Char(0));
        Advance();
        digits := digits + 1;
      }
    }

    method ParseReadTail() returns (ok: bool, tail: (nat, Format))
      requires Valid() && failure == NoError
      modifies `p, `failure
      ensures Valid() && Did(ReadTail(old(Rest())), ok, tail)
    {
      tail := (0, NoFormat);
      SkipUnderscores();
      EosIsEnd();
      if Eos() || CmdStart() {
        return true, tail;
      }
      if Char(0) != 'h' {
        Fail(CountOrEnd);
        return false, tail;
      }
      Advance();
      ok, tail := ParseReadCount();
    }

    /** Count, display format and closing '_' of a read. */
    method ParseReadCount() returns (ok: bool, tail: (nat, Format))
      requires Valid() && failure == NoError
      modifies `p, `failure
      ensures Valid() && Did(ReadCount(old(Rest())), ok, tail)
    {
      tail := (0, NoFormat);
      var n, digits := ParseCount();
      if digits == 0 {
        Fail(CountDigits);
        return false, tail;
      }
      if n > 0x3FE {
        Fail(CountTooLarge);
        return false, tail;
      }
      var ff := Char(0);
      if !IsSelector(ff) {
        if n != 0 {
          Fail(DisplayFormat);
          return false, tail;
        }
        tail := (n, NoFormat);
      } else {
        tail := (n, DisplayFormatOf(ff));
        Advance();
      }
      if Char(0) != '_' {
        Fail(ReadEnd);
        return false, tail;
      }
      Advance();
      ok := true;
    }

    /** Stores the record of a new command, its payload still empty. */
    method BeginCommand(c: Cmd, ghost done: Txn)
      requires Valid() && Stored(done) && count < MAX_CMDS && c.off == used && c.len == 0
      modifies cmds
      ensures Valid() && Open(done, c, [])
    {
      cmds[count] := c;
      assert done.pool + [] == done.pool;
    }

    /** The record under construction becomes the next command of the transaction. */
    method EndCommand(ghost done: Txn, ghost c: Cmd, ghost acc: seq<Byte>)
      requires Valid() && Open(done, c, acc)
      modifies `count
      ensures Valid() && Stored(Txn(done.cmds + [c.(len := |acc|)], done.pool + acc))
      ensures Rest() == old(Rest())
    {
      count := count + 1;
      assert cmds[..count] == old(cmds[..count]) + [cmds[count - 1]];
    }

    /** The part of a command after its control byte. */
    method ParseBody(ctrl: Byte, ghost done: Txn) returns (ok: bool, ghost c: Cmd, ghost v: seq<Byte>)
      requires Valid() && Stored(done) && count < MAX_CMDS
      modifies this, cmds, pool
      ensures Valid() && Did(Body(old(Rest()), ctrl, |done.pool|), ok, (c, v))
      ensures ok ==> Stored(Txn(done.cmds + [c], done.pool + v))
    {
      var off := used;
      c, v := NO_CMD, [];
      var iaddr;
      ok, iaddr := ParseOneByteAny();
      if !ok {
        return;
      }
      if IsRead(ctrl) {
        var tail;
        ok, tail := ParseReadTail();
        if !ok {
          return;
        }
        var record := Cmd(TwiRead, ctrl, iaddr, tail.0, tail.1, off, 0, 0);
        BeginCommand(record, done);
        EndCommand(done, record, []);
        c := record;
      } else {
        var record := Cmd(TwiWrite, ctrl, iaddr, 0, NoFormat, off, 0, 0);
        BeginCommand(record, done);
        ok, v := ParseWritePayload(done, record);
        if !ok {
          return;
        }
        EndCommand(done, record, v);
        c := record.(len := |v|);
      }
    }

    method ParseOneTwiCmd(ghost done: Txn) returns (ok: bool, ghost c: Cmd, ghost v: seq<Byte>)
      requires Valid() && Stored(done)
      modifies this, cmds, pool
      ensures Valid()
      ensures old(count) >= MAX_CMDS ==> !ok && failure == Failed(TooManyCmds)
      ensures old(count) < MAX_CMDS ==> Did(TwiCmd(old(Rest()), |done.pool|), ok, (c, v))
      ensures ok ==> Stored(Txn(done.cmds + [c], done.pool + v))
    {
      c, v := NO_CMD, [];
      if count >= MAX_CMDS {
        Fail(TooManyCmds);
        return false, c, v;
      }
      if !CmdStart() {
        Fail(Error.CmdStart);
        return false, c, v;
      }
      Advance();
      var ctrl;
      ok, ctrl := DecodeHexByte();
      if !ok {
        return;
      }
      ok, c, v := ParseBody(ctrl, done);
    }

    // ---- Transactions --------------------------------------------------------------------

    method ParseChain() returns (rc: int)
      requires Valid() && Stored(Txn([], []))
      modifies this, cmds, pool
      ensures Valid() && Finished(Chain(old(Rest()), Txn([], [])), rc)
    {
      ghost var done := Txn([], []);
      EosIsEnd();
      while !Eos()
        invariant Valid() && Stored(done) && (Eos() <==> Rest() == "")
        invariant Chain(Rest(), done) == Chain(old(Rest()), Txn([], []))
        decreases |line| - p
      {
        ghost var s := Rest();
        SkipUnderscores();
        EosIsEnd();
        if Eos() {
          break;
        }
        if !CmdStart() {
          Fail(Garbage);
          return -1;
        }
        ghost var c, v;
        var ok;
        ok, c, v := ParseOneTwiCmd(done);
        if !ok {
          return -1;
        }
        done := Txn(done.cmds + [c], done.pool + v);
        EosIsEnd();
      }
      rc := 0;
    }

    /** Return code and stored transaction without an error, or the error, as the result says. */
    ghost predicate Finished(r: Result, rc: int)
      requires Valid()
      reads this, cmds, pool
    {
      match r
      case Accepted(txn) => rc == 0 && Stored(txn) && failure == NoError
      case Rejected(e) => rc == -1 && failure == Failed(e)
    }

    function Follows(prefix: string): bool
      requires p <= |line|
      reads `p
    {
      prefix <= line[p..]
    }

    method ParseSpecial() returns (rc: int)
      requires Valid() && Stored(Txn([], [])) && Rest() != ""
      modifies this, cmds, pool
      ensures Valid() && Finished(Special(old(Rest())), rc)
    {
      ghost var s := Rest();
      if Follows("out_") {
        p := p + 4;
        var ok, v := ParseOutBits();
        if !ok {
          return -1;
        }
        SkipSpaces();
        EosIsEnd();
        if !Eos() {
          Fail(OutExtra);
          return -1;
        }
        StoreSpecial(NO_CMD.(kind := GpioOut, gpio := v));
        return 0;
      }
      if Follows("inp") && TailEmpty(line[p + 3..]) {
        StoreSpecial(NO_CMD.(kind := GpioIn));
        return 0;
      }
      if (Follows("help") && TailEmpty(line[p + 4..])) || (Char(0) == '?' && TailEmpty(line[p + 1..])) {
        StoreSpecial(NO_CMD.(kind := Help));
        return 0;
      }
      Fail(Unknown);
      rc := -1;
    }

    method ParseOutBits() returns (ok: bool, v: Byte)
      requires Valid() && failure == NoError
      modifies `p, `failure
      ensures Valid() && Did(OutBitsFrom(old(Rest()), 0, 0), ok, v)
    {
      v := 0;
      var i := 0;
      while i < 8
        invariant 0 <= i <= 8 && p == old(p) && failure == NoError && (forall j :: 0 <= j < i ==> Char(j) != '\0')
        invariant OutBitsFrom(Rest(), i, v) == OutBitsFrom(Rest(), 0, 0)
      {
        if !IsBin(Char(i)) {
          Fail(OutBits);
          return false, v;
        }
        v := ShiftIn(v, Char(i));
        i := i + 1;
      }
      assert Char(7) != '\0';
      p := p + 8;
      ok := true;
    }

    method StoreSpecial(c: Cmd)
      requires Valid() && Stored(Txn([], []))
      modifies `count, cmds
      ensures Valid() && Stored(Txn([c], []))
    {
      cmds[count] := c;
      count := count + 1;
    }

    /** Parses the line. */
    method ParseTransaction() returns (rc: int)
      requires Valid() && p == 0 && Stored(Txn([], []))
      modifies this, cmds, pool
      ensures Valid() && Finished(Parse(line), rc)
    {
      assert line[0..] == line;
      SkipSpaces();
      EosIsEnd();
      if Eos() {
        Fail(Empty);
        return -1;
      }
      if CmdStart() {
        rc := ParseChain();
      } else {
        rc := ParseSpecial();
      }
    }
  }

  lemma Snoc(a: seq<Byte>, b: seq<Byte>, x: Byte)
    ensures a + (b + [x]) == a + b + [x]
  {
  }
}
