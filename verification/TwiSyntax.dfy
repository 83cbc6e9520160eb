/** The transaction language as a parsing function over the rest of the line: what the parser accepts, what it
    makes of it and how it fails. */
module TwiSyntax {
  import opened Basics

  const PAYLOAD_MAX := 1022
  const POOL_SIZE := 2044
  const MAX_CMDS := 160

  datatype Format = NoFormat | Hex | Bin | Ascii

  datatype Kind = CmdNone | TwiWrite | TwiRead | GpioOut | GpioIn | Help

  datatype Cmd = Cmd(kind: Kind, ctrl: Byte, iaddr: Byte, rdLen: nat, rdFmt: Format, off: nat, len: nat, gpio: Byte)

  const NO_CMD := Cmd(CmdNone, 0, 0, 0, NoFormat, 0, 0, 0)

  datatype Error =
    | HexDigits | EightBits | LetterOrDigit | PayloadTooLong | PoolExhausted | Selector | EmptyHex | EmptyBin | EmptyAscii
    | AsciiEnd | AddressSelector | CountOrEnd | CountDigits | CountTooLarge | DisplayFormat | ReadEnd | TooManyCmds | CmdStart
    | OutBits | OutExtra | Unknown | Empty | Garbage

  /** What a part of the parser returns: a value and the rest of the line, or an error. */
  datatype Parsed<T> = Ok(value: T, rest: string) | Err(error: Error)

  // ---- Characters ------------------------------------------------------------------------

  /** The character at `i`, the terminating NUL from the end on. */
  function At(s: string, i: nat): char {
    if i < |s| then s[i] else '\0'
  }

  predicate IsHex(c: char) {
    '0' <= c <= '9' || 'A' <= c <= 'F'
  }

  function HexVal(c: char): (v: nat)
    requires IsHex(c)
    ensures v < 16
  {
    if c <= '9' then c as int - '0' as int else c as int - 'A' as int + 10
  }

  predicate IsBin(c: char) {
    c == '0' || c == '1'
  }

  predicate IsAlnum(c: char) {
    '0' <= c <= '9' || 'a' <= c <= 'z' || 'A' <= c <= 'Z'
  }

  predicate IsSelector(c: char) {
    c == 'h' || c == 'b' || c == 'a'
  }

  predicate AtCmdStart(s: string) {
    At(s, 0) == 'h' && At(s, 1) == 'A' && '0' <= At(s, 2) <= '3'
  }

  function SkipUnders(s: string): (r: string)
    ensures |r| <= |s| && At(r, 0) != '_'
  {
    if At(s, 0) == '_' then SkipUnders(s[1..]) else s
  }

  function SkipBlanks(s: string): (r: string)
    ensures |r| <= |s| && At(r, 0) != ' ' && At(r, 0) != '\t'
  {
    if At(s, 0) == ' ' || At(s, 0) == '\t' then SkipBlanks(s[1..]) else s
  }

  // ---- Bytes -----------------------------------------------------------------------------

  function HexByte(s: string): (r: Parsed<Byte>)
    ensures r.Ok? ==> |r.rest| + 2 == |s|
  {
    if !IsHex(At(s, 0)) || !IsHex(At(s, 1)) then Err(HexDigits)
    else Ok(16 * HexVal(s[0]) + HexVal(s[1]), s[2..])
  }

  /** The rest of a binary byte of which `bits` bits have given `v`. */
  function BinByte(s: string, v: Byte, bits: nat): (r: Parsed<Byte>)
    requires bits <= 8
    ensures r.Ok? ==> |r.rest| + (8 - bits) <= |s|
    decreases |s|
  {
    if bits == 8 then Ok(v, s)
    else if At(s, 0) == '_' then BinByte(s[1..], v, bits)
    else if !IsBin(At(s, 0)) then Err(EightBits)
    else BinByte(s[1..], ShiftIn(v, s[0]), bits + 1)
  }

  function ShiftIn(v: Byte, bit: char): Byte
    requires IsBin(bit)
  {
    (2 * v + (if bit == '1' then 1 else 0)) % 256
  }

  function AsciiByte(s: string): (r: Parsed<Byte>)
    ensures r.Ok? ==> |r.rest| + 1 == |s|
  {
    if !IsAlnum(At(s, 0)) then Err(LetterOrDigit) else Ok(s[0] as int, s[1..])
  }

  // ---- Write payloads --------------------------------------------------------------------

  /** Whether a byte can be appended to the `acc` of a command whose bytes start at `base` in the pool. */
  function Room(acc: seq<Byte>, base: nat): Parsed<()> {
    if |acc| >= PAYLOAD_MAX then Err(PayloadTooLong)
    else if base + |acc| >= POOL_SIZE then Err(PoolExhausted)
    else Ok((), "")
  }

  function HexRun(s: string, acc: seq<Byte>, base: nat): (r: Parsed<seq<Byte>>)
    ensures r.Ok? ==> acc <= r.value && |r.rest| <= |s| && (|r.value| > |acc| ==> |r.rest| < |s|)
    decreases |s|
  {
    if !IsHex(At(s, 0)) then Ok(acc, s)
    else
      match HexByte(s)
      case Err(e) => Err(e)
      case Ok(b, rest) =>
        match Room(acc, base)
        case Err(e) => Err(e)
        case Ok(_, _) => HexRun(rest, acc + [b], base)
  }

  function BinRun(s: string, acc: seq<Byte>, base: nat): (r: Parsed<seq<Byte>>)
    ensures r.Ok? ==> acc <= r.value && |r.rest| <= |s|
    decreases |s|
  {
    if !IsBin(At(SkipUnders(s), 0)) then Ok(acc, s)
    else
      match BinByte(s, 0, 0)
      case Err(e) => Err(e)
      case Ok(b, rest) =>
        match Room(acc, base)
        case Err(e) => Err(e)
        case Ok(_, _) => BinRun(rest, acc + [b], base)
  }

  function AsciiRun(s: string, acc: seq<Byte>, base: nat): (r: Parsed<seq<Byte>>)
    ensures r.Ok? ==> acc <= r.value && |r.rest| <= |s|
    decreases |s|
  {
    if !IsAlnum(At(s, 0)) then Ok(acc, s)
    else
      match Room(acc, base)
      case Err(e) => Err(e)
      case Ok(_, _) => AsciiRun(s[1..], acc + [s[0] as int], base)
  }

  /** What must follow an ASCII group: a '_', which is taken, or the end of the command. */
  function AsciiClose(s: string): (r: Parsed<()>)
    ensures r.Ok? ==> |r.rest| <= |s|
  {
    if At(s, 0) == '_' then Ok((), s[1..])
    else if s == "" || AtCmdStart(s) then Ok((), s)
    else Err(AsciiEnd)
  }

  /** One format group, the selector at its front included. */
  function Group(s: string, acc: seq<Byte>, base: nat): (r: Parsed<seq<Byte>>)
    requires IsSelector(At(s, 0))
    ensures r.Ok? ==> acc <= r.value && |r.rest| < |s|
  {
    if s[0] == 'h' then
      match HexRun(s[1..], acc, base)
      case Err(e) => Err(e)
      case Ok(v, rest) => if |v| == |acc| then Err(EmptyHex) else Ok(v, rest)
    else if s[0] == 'b' then
      match BinRun(s[1..], acc, base)
      case Err(e) => Err(e)
      case Ok(v, rest) => if |v| == |acc| then Err(EmptyBin) else Ok(v, rest)
    else
      match AsciiRun(s[1..], acc, base)
      case Err(e) => Err(e)
      case Ok(v, rest) =>
        if |v| == |acc| then Err(EmptyAscii)
        else
          match AsciiClose(rest)
          case Err(e) => Err(e)
          case Ok(_, end) => Ok(v, end)
  }

  /** The payload of a write command, up to the end of the line or the next command. */
  function Payload(s: string, acc: seq<Byte>, base: nat): (r: Parsed<seq<Byte>>)
    ensures r.Ok? ==> acc <= r.value && |r.rest| <= |s| && (r.rest == "" || AtCmdStart(r.rest))
    decreases |s|
  {
    if s == "" || AtCmdStart(s) then Ok(acc, s)
    else if s[0] == '_' then Payload(s[1..], acc, base)
    else if !IsSelector(s[0]) then Err(Selector)
    else
      match Group(s, acc, base)
      case Err(e) => Err(e)
      case Ok(v, rest) => Payload(rest, v, base)
  }

  // ---- Commands --------------------------------------------------------------------------

  /** The byte of an internal-address slot, after any '_'. */
  function OneByteAny(s: string): (r: Parsed<Byte>)
    ensures r.Ok? ==> |r.rest| < |s|
  {
    var t := SkipUnders(s);
    if !IsSelector(At(t, 0)) then Err(AddressSelector)
    else if t[0] == 'h' then HexByte(t[1..])
    else if t[0] == 'b' then BinByte(t[1..], 0, 0)
    else
      match AsciiByte(t[1..])
      case Err(e) => Err(e)
      case Ok(b, rest) => Ok(b, if At(rest, 0) == '_' then rest[1..] else rest)
  }

  /** Up to three hex digits of a read count of which `digits` have given `n`. */
  function Count(s: string, n: nat, digits: nat): (r: (nat, nat, string))
    ensures digits <= r.1 && |r.2| + (r.1 - digits) == |s|
    decreases |s|
  {
    if digits < 3 && IsHex(At(s, 0)) then Count(s[1..], 16 * n + HexVal(s[0]), digits + 1) else (n, digits, s)
  }

  function DisplayFormatOf(c: char): Format {
    if c == 'h' then Hex else if c == 'b' then Bin else if c == 'a' then Ascii else NoFormat
  }

  /** What follows the internal address of a read command. */
  function ReadTail(s: string): (r: Parsed<(nat, Format)>)
    ensures r.Ok? ==> |r.rest| <= |s|
  {
    var t := SkipUnders(s);
    if t == "" || AtCmdStart(t) then Ok((0, NoFormat), t)
    else if t[0] != 'h' then Err(CountOrEnd)
    else ReadCount(t[1..])
  }

  /** Count, display format and closing '_' of a read command. */
  function ReadCount(s: string): (r: Parsed<(nat, Format)>)
    ensures r.Ok? ==> |r.rest| <= |s|
  {
    var (n, digits, u) := Count(s, 0, 0);
    if digits == 0 then Err(CountDigits)
    else if n > 0x3FE then Err(CountTooLarge)
    else
      var fmt := DisplayFormatOf(At(u, 0));
      if fmt == NoFormat && n != 0 then Err(DisplayFormat)
      else
        var w := if fmt == NoFormat then u else u[1..];
        if At(w, 0) != '_' then Err(ReadEnd) else Ok((n, fmt), w[1..])
  }

  predicate IsRead(ctrl: Byte) {
    ctrl == 0xA1 || ctrl == 0xA3
  }

  /** What follows the control byte of a command, its payload going to the pool from `base` on. */
  function Body(s: string, ctrl: Byte, base: nat): (r: Parsed<(Cmd, seq<Byte>)>)
    ensures r.Ok? ==> |r.rest| < |s|
  {
    match OneByteAny(s)
    case Err(e) => Err(e)
    case Ok(iaddr, s2) =>
      if IsRead(ctrl) then
        match ReadTail(s2)
        case Err(e) => Err(e)
        case Ok(tail, s3) => Ok((Cmd(TwiRead, ctrl, iaddr, tail.0, tail.1, base, 0, 0), []), s3)
      else
        match Payload(s2, [], base)
        case Err(e) => Err(e)
        case Ok(bytes, s3) => Ok((Cmd(TwiWrite, ctrl, iaddr, 0, NoFormat, base, |bytes|, 0), bytes), s3)
  }

  /** One command. */
  function TwiCmd(s: string, base: nat): (r: Parsed<(Cmd, seq<Byte>)>)
    ensures r.Ok? ==> |r.rest| < |s|
  {
    if !AtCmdStart(s) then Err(CmdStart)
    else
      match HexByte(s[1..])
      case Err(e) => Err(e)
      case Ok(ctrl, s1) => Body(s1, ctrl, base)
  }

  // ---- Transactions ----------------------------------------------------------------------

  datatype Txn = Txn(cmds: seq<Cmd>, pool: seq<Byte>)

  datatype Result = Accepted(txn: Txn) | Rejected(error: Error)

  /** A chain of commands, those before having given `sofar`. */
  function Chain(s: string, sofar: Txn): Result
    decreases |s|
  {
    var t := SkipUnders(s);
    if t == "" then Accepted(sofar)
    else if !AtCmdStart(t) then Rejected(Garbage)
    else if |sofar.cmds| >= MAX_CMDS then Rejected(TooManyCmds)
    else
      match TwiCmd(t, |sofar.pool|)
      case Err(e) => Rejected(e)
      case Ok(c, rest) => Chain(rest, Txn(sofar.cmds + [c.0], sofar.pool + c.1))
  }

  predicate HasPrefix(s: string, prefix: string) {
    prefix <= s
  }

  predicate TailEmpty(s: string) {
    SkipBlanks(s) == ""
  }

  /** The eight digits after `out_`. */
  function OutBitsFrom(s: string, i: nat, v: Byte): Parsed<Byte>
    requires i <= 8
    decreases 8 - i
  {
    if i == 8 then Ok(v, if 8 <= |s| then s[8..] else "")
    else if !IsBin(At(s, i)) then Err(OutBits)
    else OutBitsFrom(s, i + 1, ShiftIn(v, At(s, i)))
  }

  function Special(s: string): Result {
    if HasPrefix(s, "out_") then
      match OutBitsFrom(s[4..], 0, 0)
      case Err(e) => Rejected(e)
      case Ok(v, rest) =>
        if !TailEmpty(rest) then Rejected(OutExtra)
        else Accepted(Txn([NO_CMD.(kind := GpioOut, gpio := v)], []))
    else if HasPrefix(s, "inp") && TailEmpty(s[3..]) then Accepted(Txn([NO_CMD.(kind := GpioIn)], []))
    else if (HasPrefix(s, "help") && TailEmpty(s[4..])) || (At(s, 0) == '?' && TailEmpty(s[1..])) then
      Accepted(Txn([NO_CMD.(kind := Help)], []))
    else Rejected(Unknown)
  }

  /** What a transaction line means. */
  function Parse(line: string): Result {
    var s := SkipBlanks(line);
    if s == "" then Rejected(Empty)
    else if AtCmdStart(s) then Chain(s, Txn([], []))
    else Special(s)
  }
}
