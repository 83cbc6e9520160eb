/** The transaction language as a grammar: the lines that hold a transaction, with all the freedom their writer has, and what
    they mean. The parser accepts these lines and no others. */
module TwiGrammar {
  import opened Basics
  import opened Bits
  import opened TwiSyntax
  import opened TwiPrinter
  import TwiCanonical
  import TwiSpecial

  // ---- The grammar -----------------------------------------------------------------------

  /** A text of underscores. */
  predicate Gaps(t: string) {
    forall i :: 0 <= i < |t| ==> t[i] == '_'
  }

  /** A text without its underscores. */
  function Bare(t: string): string {
    if t == "" then "" else (if t[0] == '_' then "" else [t[0]]) + Bare(t[1..])
  }

  /** A byte in binary: its eight bits, with underscores before any of them. */
  datatype BinPart = BinPart(text: string, b: Byte)

  predicate ValidPart(p: BinPart) {
    p.text != "" && p.text[|p.text| - 1] != '_' && Bare(p.text) == BinText(p.b)
  }

  function PartsText(ps: seq<BinPart>): string {
    if ps == [] then "" else ps[0].text + PartsText(ps[1..])
  }

  function PartsBytes(ps: seq<BinPart>): seq<Byte> {
    if ps == [] then [] else [ps[0].b] + PartsBytes(ps[1..])
  }

  /** A payload is made of groups, each with its selector in front, and underscores. */
  datatype Piece = Gap | HexP(bytes: seq<Byte>) | BinP(parts: seq<BinPart>) | AsciiP(bytes: seq<Byte>)

  function PieceText(p: Piece): string {
    match p
    case Gap => "_"
    case HexP(bytes) => "h" + HexRunText(bytes)
    case BinP(parts) => "b" + PartsText(parts)
    case AsciiP(bytes) => "a" + AsciiRunText(bytes)
  }

  function PieceBytes(p: Piece): seq<Byte> {
    match p
    case Gap => []
    case HexP(bytes) => bytes
    case BinP(parts) => PartsBytes(parts)
    case AsciiP(bytes) => bytes
  }

  predicate LetterOrDigit(b: Byte) {
    48 <= b <= 57 || 65 <= b <= 90 || 97 <= b <= 122
  }

  /** No group is empty, and a hex group does not start as a command does. */
  predicate ValidPiece(p: Piece) {
    match p
    case Gap => true
    case HexP(bytes) => bytes != [] && !(0xA0 <= bytes[0] <= 0xA3)
    case BinP(parts) => parts != [] && forall q :: q in parts ==> ValidPart(q)
    case AsciiP(bytes) => bytes != [] && forall b :: b in bytes ==> LetterOrDigit(b)
  }

  /** An underscore follows every ASCII group, unless the line ends there. */
  predicate ValidPieces(ps: seq<Piece>, last: bool) {
    ps == [] ||
    (ValidPiece(ps[0]) && (ps[0].AsciiP? ==> if |ps| > 1 then ps[1].Gap? else last) && ValidPieces(ps[1..], last))
  }

  function PiecesText(ps: seq<Piece>): string {
    if ps == [] then "" else PieceText(ps[0]) + PiecesText(ps[1..])
  }

  function PiecesBytes(ps: seq<Piece>): seq<Byte> {
    if ps == [] then [] else PieceBytes(ps[0]) + PiecesBytes(ps[1..])
  }

  /** The internal address, in any format. */
  datatype Slot = HexS(b: Byte) | BinS(part: BinPart) | AsciiS(b: Byte)

  function SlotForm(s: Slot): string {
    match s
    case HexS(b) => "h" + HexText(b)
    case BinS(part) => "b" + part.text
    case AsciiS(b) => "a" + [b as char]
  }

  function SlotByte(s: Slot): Byte {
    match s
    case HexS(b) => b
    case BinS(part) => part.b
    case AsciiS(b) => b
  }

  predicate ValidSlotForm(s: Slot) {
    match s
    case HexS(_) => true
    case BinS(part) => ValidPart(part)
    case AsciiS(b) => LetterOrDigit(b)
  }

  /** What a read asks for: nothing, or as many bytes as one to three hex digits say, to be shown in a format. */
  datatype Tail = NoTail | Tail(digits: string, fmt: Format)

  function CountOf(digits: string): nat
    requires 1 <= |digits| <= 3 && forall i :: 0 <= i < |digits| ==> IsHex(digits[i])
  {
    if |digits| == 1 then HexVal(digits[0])
    else if |digits| == 2 then 16 * HexVal(digits[0]) + HexVal(digits[1])
    else 256 * HexVal(digits[0]) + 16 * HexVal(digits[1]) + HexVal(digits[2])
  }

  /** The digits do not start as a command does, the count is at most 0x3FE, and only 0 goes without a format. */
  predicate ValidTail(t: Tail) {
    match t
    case NoTail => true
    case Tail(digits, fmt) =>
      && 1 <= |digits| <= 3 && (forall i :: 0 <= i < |digits| ==> IsHex(digits[i]))
      && !(digits[0] == 'A' && |digits| > 1 && '0' <= digits[1] <= '3')
      && CountOf(digits) <= 0x3FE && (fmt == NoFormat ==> CountOf(digits) == 0)
  }

  function TailText(t: Tail): string {
    match t
    case NoTail => ""
    case Tail(digits, fmt) => "h" + (digits + (FormatText(fmt) + "_"))
  }

  /** A command: control byte, internal address, and payload or count, with underscores between them. */
  datatype Form =
    | WriteF(ctrl: Byte, gap: string, slot: Slot, pieces: seq<Piece>)
    | ReadF(ctrl: Byte, gap: string, slot: Slot, before: string, tail: Tail, after: string)

  predicate ValidForm(c: Form, last: bool) {
    && Gaps(c.gap) && ValidSlotForm(c.slot)
    && match c
       case WriteF(ctrl, _, _, pieces) =>
         (ctrl == 0xA0 || ctrl == 0xA2) && ValidPieces(pieces, last) && |PiecesBytes(pieces)| <= 1022
       case ReadF(ctrl, _, _, before, tail, after) =>
         (ctrl == 0xA1 || ctrl == 0xA3) && Gaps(before) && ValidTail(tail) && Gaps(after) && (tail.NoTail? ==> after == "")
  }

  function FormRest(c: Form): string {
    match c
    case WriteF(_, _, _, pieces) => PiecesText(pieces)
    case ReadF(_, _, _, before, tail, after) => before + (TailText(tail) + after)
  }

  function FormText(c: Form): string {
    "h" + HexText(c.ctrl) + (c.gap + (SlotForm(c.slot) + FormRest(c)))
  }

  function FormBytes(c: Form): seq<Byte> {
    if c.WriteF? then PiecesBytes(c.pieces) else []
  }

  function FormRecord(c: Form, base: nat): Cmd
    requires c.ReadF? ==> ValidTail(c.tail)
  {
    match c
    case WriteF(ctrl, _, slot, pieces) => Cmd(TwiWrite, ctrl, SlotByte(slot), 0, NoFormat, base, |PiecesBytes(pieces)|, 0)
    case ReadF(ctrl, _, slot, _, NoTail, _) => Cmd(TwiRead, ctrl, SlotByte(slot), 0, NoFormat, base, 0, 0)
    case ReadF(ctrl, _, slot, _, Tail(digits, fmt), _) =>
      Cmd(TwiRead, ctrl, SlotByte(slot), CountOf(digits), fmt, base, 0, 0)
  }

  predicate ValidForms(cs: seq<Form>) {
    cs == [] || (ValidForm(cs[0], |cs| == 1) && ValidForms(cs[1..]))
  }

  function FormsText(cs: seq<Form>): string {
    if cs == [] then "" else FormText(cs[0]) + FormsText(cs[1..])
  }

  function FormsBytes(cs: seq<Form>): seq<Byte> {
    if cs == [] then [] else FormBytes(cs[0]) + FormsBytes(cs[1..])
  }

  function FormsRecords(cs: seq<Form>, base: nat): seq<Cmd>
    requires ValidForms(cs)
  {
    if cs == [] then [] else [FormRecord(cs[0], base)] + FormsRecords(cs[1..], base + |FormBytes(cs[0])|)
  }

  /** A line that holds a transaction within the limits: blanks, and one command or more. */
  predicate ValidLine(cs: seq<Form>) {
    cs != [] && ValidForms(cs) && |cs| <= 160 && |FormsBytes(cs)| <= 2044
  }

  // ---- Every such line is accepted -------------------------------------------------------

  lemma {:induction false} NothingBare(t: string)
    requires t != "" && Bare(t) == ""
    ensures t[|t| - 1] == '_'
  {
    if |t| > 1 { NothingBare(t[1..]); }
  }

  /** Reading the low `k` bits, underscores before any of them, when the others have been read. */
  lemma {:induction false} BitsAccepted(t: string, b: Byte, tail: string, k: nat)
    requires k <= 8 && Bare(t) == LowBits(b, k) && (if k == 0 then t == "" else t != "" && t[|t| - 1] != '_')
    ensures BinByte(t + tail, Shr(b, k), 8 - k) == Ok(b, tail)
    decreases |t|
  {
    if k == 0 {
      assert t + tail == tail;
    } else {
      assert (t + tail)[1..] == t[1..] + tail;
      if t[0] == '_' {
        BitsAccepted(t[1..], b, tail, k);
      } else {
        FirstBit(t, b, k);
        ShiftBack(b, k);
        BitsAccepted(t[1..], b, tail, k - 1);
      }
    }
  }

  lemma {:induction false} FirstBit(t: string, b: Byte, k: nat)
    requires k > 0 && t != "" && t[0] != '_' && t[|t| - 1] != '_' && Bare(t) == LowBits(b, k)
    ensures t[0] == BitChar(b, k - 1) && Bare(t[1..]) == LowBits(b, k - 1) && (k == 1 ==> t[1..] == "")
    ensures k > 1 ==> t[1..] != "" && t[1..][|t[1..]| - 1] != '_'
  {
    assert Bare(t)[0] == t[0] && Bare(t)[1..] == Bare(t[1..]);
    assert LowBits(b, k)[1..] == LowBits(b, k - 1);
    if k == 1 && t[1..] != "" { NothingBare(t[1..]); }
  }

  lemma {:induction false} PartAccepted(p: BinPart, tail: string)
    requires ValidPart(p)
    ensures BinByte(p.text + tail, 0, 0) == Ok(p.b, tail)
  {
    ShrBound(p.b, 8, 1);
    BitsAccepted(p.text, p.b, tail, 8);
  }

  lemma {:induction false} BareStarts(t: string, tail: string)
    requires Bare(t) != ""
    ensures At(SkipUnders(t + tail), 0) == Bare(t)[0]
  {
    if t[0] == '_' {
      assert (t + tail)[1..] == t[1..] + tail;
      BareStarts(t[1..], tail);
    }
  }

  lemma {:induction false} PartsAccepted(ps: seq<BinPart>, tail: string, acc: seq<Byte>, base: nat)
    requires (forall q :: q in ps ==> ValidPart(q)) && !IsBin(At(SkipUnders(tail), 0))
    requires |acc| + |PartsBytes(ps)| <= PAYLOAD_MAX && base + |acc| + |PartsBytes(ps)| <= POOL_SIZE
    ensures BinRun(PartsText(ps) + tail, acc, base) == Ok(acc + PartsBytes(ps), tail)
    decreases |ps|
  {
    if ps == [] {
      assert PartsText(ps) + tail == tail && acc + PartsBytes(ps) == acc;
    } else {
      var p, more := ps[0], PartsText(ps[1..]) + tail;
      assert p in ps;
      Assoc(p.text, PartsText(ps[1..]), tail);
      Assoc(acc, [p.b], PartsBytes(ps[1..]));
      BareStarts(p.text, more);
      PartAccepted(p, more);
      PartsAccepted(ps[1..], tail, acc + [p.b], base);
    }
  }

  /** What can follow a group is neither a hex digit nor, after underscores, a bit. */
  lemma {:induction false} PiecesFollow(ps: seq<Piece>, tail: string)
    requires tail == "" || AtCmdStart(tail)
    ensures var s := PiecesText(ps) + tail;
      !IsHex(At(s, 0)) && !IsBin(At(SkipUnders(s), 0))
  {
    var s := PiecesText(ps) + tail;
    if ps == [] {
      assert s == tail;
    } else {
      Assoc(PieceText(ps[0]), PiecesText(ps[1..]), tail);
      assert s[0] == PieceText(ps[0])[0];
      if ps[0].Gap? {
        assert s[1..] == PiecesText(ps[1..]) + tail;
        PiecesFollow(ps[1..], tail);
      }
    }
  }

  lemma {:induction false} HexAccepted(s: string, bytes: seq<Byte>, more: string, acc: seq<Byte>, base: nat)
    requires s == "h" + HexRunText(bytes) + more && ValidPiece(HexP(bytes)) && !IsHex(At(more, 0))
    requires |acc| + |bytes| <= PAYLOAD_MAX && base + |acc| + |bytes| <= POOL_SIZE
    ensures Payload(s, acc, base) == Payload(more, acc + bytes, base)
  {
    Front('h', HexRunText(bytes), more);
    HexNoStart(bytes, more, s);
    HexRunBack(bytes, more, acc, base);
    PayloadStep(s, acc, base, acc + bytes, more);
  }

  lemma {:induction false} BinAccepted(s: string, parts: seq<BinPart>, more: string, acc: seq<Byte>, base: nat)
    requires s == "b" + PartsText(parts) + more && ValidPiece(BinP(parts)) && !IsBin(At(SkipUnders(more), 0))
    requires |acc| + |PartsBytes(parts)| <= PAYLOAD_MAX && base + |acc| + |PartsBytes(parts)| <= POOL_SIZE
    ensures Payload(s, acc, base) == Payload(more, acc + PartsBytes(parts), base)
  {
    Front('b', PartsText(parts), more);
    PartsAccepted(parts, more, acc, base);
    assert PartsBytes(parts) != [];
    PayloadStep(s, acc, base, acc + PartsBytes(parts), more);
  }

  lemma {:induction false} AsciiAccepted(s: string, bytes: seq<Byte>, more: string, acc: seq<Byte>, base: nat)
    requires s == "a" + AsciiRunText(bytes) + more && ValidPiece(AsciiP(bytes)) && (more == "" || more[0] == '_')
    requires |acc| + |bytes| <= PAYLOAD_MAX && base + |acc| + |bytes| <= POOL_SIZE
    ensures Payload(s, acc, base) == Payload(more, acc + bytes, base)
  {
    Front('a', AsciiRunText(bytes), more);
    forall b | b in bytes ensures IsAlnumByte(b) { }
    AsciiRunBack(bytes, more, acc, base);
    PayloadStep(s, acc, base, acc + bytes, if more == "" then more else more[1..]);
  }

  lemma {:induction false} PieceAccepted(p: Piece, more: string, acc: seq<Byte>, base: nat)
    requires ValidPiece(p) && !IsHex(At(more, 0)) && !IsBin(At(SkipUnders(more), 0))
    requires p.AsciiP? ==> more == "" || more[0] == '_'
    requires |acc| + |PieceBytes(p)| <= PAYLOAD_MAX && base + |acc| + |PieceBytes(p)| <= POOL_SIZE
    ensures Payload(PieceText(p) + more, acc, base) == Payload(more, acc + PieceBytes(p), base)
  {
    var s := PieceText(p) + more;
    match p {
      case Gap =>
        assert s[1..] == more && acc + [] == acc;
      case HexP(bytes) => HexAccepted(s, bytes, more, acc, base);
      case BinP(parts) => BinAccepted(s, parts, more, acc, base);
      case AsciiP(bytes) => AsciiAccepted(s, bytes, more, acc, base);
    }
  }

  lemma {:induction false} PiecesAccepted(ps: seq<Piece>, tail: string, acc: seq<Byte>, base: nat)
    requires ValidPieces(ps, tail == "") && (tail == "" || AtCmdStart(tail))
    requires |acc| + |PiecesBytes(ps)| <= PAYLOAD_MAX && base + |acc| + |PiecesBytes(ps)| <= POOL_SIZE
    ensures Payload(PiecesText(ps) + tail, acc, base) == Ok(acc + PiecesBytes(ps), tail)
    decreases |ps|
  {
    if ps == [] {
      assert PiecesText(ps) + tail == tail && acc + PiecesBytes(ps) == acc;
    } else {
      var p, more := ps[0], PiecesText(ps[1..]) + tail;
      Assoc(PieceText(p), PiecesText(ps[1..]), tail);
      Assoc(acc, PieceBytes(p), PiecesBytes(ps[1..]));
      PiecesFollow(ps[1..], tail);
      AfterAscii(ps, tail);
      PieceAccepted(p, more, acc, base);
      PiecesAccepted(ps[1..], tail, acc + PieceBytes(p), base);
    }
  }

  lemma {:induction false} AfterAscii(ps: seq<Piece>, tail: string)
    requires ps != [] && ValidPieces(ps, tail == "")
    ensures var more := PiecesText(ps[1..]) + tail;
      ps[0].AsciiP? ==> more == "" || more[0] == '_'
  {
    if ps[0].AsciiP? && |ps| > 1 {
      assert PiecesText(ps[1..])[0] == PieceText(ps[1])[0];
    }
  }

  lemma {:induction false} GapsSkipped(gap: string, s: string)
    requires Gaps(gap)
    ensures SkipUnders(gap + s) == SkipUnders(s)
  {
    if gap == "" {
      assert gap + s == s;
    } else {
      assert (gap + s)[1..] == gap[1..] + s;
      GapsSkipped(gap[1..], s);
    }
  }

  /** The text without the one underscore that may close an ASCII address. */
  function Closed(s: string): string {
    if At(s, 0) == '_' then s[1..] else s
  }

  /** The internal address is read in any format; the underscore behind an ASCII one is taken with it. */
  lemma {:induction false} SlotAccepted(gap: string, slot: Slot, rest: string)
    requires Gaps(gap) && ValidSlotForm(slot)
    ensures OneByteAny(gap + (SlotForm(slot) + rest)) == Ok(SlotByte(slot), if slot.AsciiS? then Closed(rest) else rest)
  {
    GapsSkipped(gap, SlotForm(slot) + rest);
    match slot {
      case HexS(b) => HexSlotBack(b, rest);
      case BinS(part) => BinSlotAccepted(part, rest);
      case AsciiS(b) => AsciiSlotAccepted(b, rest);
    }
    SlotGap(gap, SlotForm(slot) + rest);
  }

  lemma {:induction false} SlotGap(gap: string, t: string)
    requires SkipUnders(gap + t) == SkipUnders(t)
    ensures OneByteAny(gap + t) == OneByteAny(t)
  {
  }

  lemma {:induction false} BinSlotAccepted(part: BinPart, rest: string)
    requires ValidPart(part)
    ensures OneByteAny("b" + part.text + rest) == Ok(part.b, rest)
  {
    Front('b', part.text, rest);
    PartAccepted(part, rest);
  }

  lemma {:induction false} AsciiSlotAccepted(b: Byte, rest: string)
    requires LetterOrDigit(b)
    ensures OneByteAny("a" + [b as char] + rest) == Ok(b, Closed(rest))
  {
    Front('a', [b as char], rest);
    assert ([b as char] + rest)[1..] == rest;
  }

  lemma {:induction false} ClosedPayload(s: string, base: nat)
    ensures Payload(Closed(s), [], base) == Payload(s, [], base)
  {
  }

  lemma {:induction false} ClosedReadTail(s: string)
    ensures ReadTail(Closed(s)) == ReadTail(s)
  {
  }

  /** One to three digits are read whatever follows them, if it is no digit. */
  lemma {:induction false} DigitsAccepted(digits: string, u: string)
    requires 1 <= |digits| <= 3 && (forall i :: 0 <= i < |digits| ==> IsHex(digits[i])) && !IsHex(At(u, 0))
    ensures Count(digits + u, 0, 0) == (CountOf(digits), |digits|, u)
  {
    if |digits| == 1 {
      assert digits + u == [digits[0]] + u;
      OneDigit(digits[0], u);
    } else if |digits| == 2 {
      assert digits + u == [digits[0]] + ([digits[1]] + u);
      TwoDigits(digits[0], digits[1], u);
    } else {
      assert digits + u == [digits[0]] + ([digits[1]] + ([digits[2]] + u));
      ThreeDigits(digits[0], digits[1], digits[2], u);
    }
  }

  lemma {:induction false} OneDigit(a: char, u: string)
    requires IsHex(a) && !IsHex(At(u, 0))
    ensures Count([a] + u, 0, 0) == (HexVal(a), 1, u)
  {
    DigitAccepted([a] + u, a, u, 0, 0);
  }

  lemma {:induction false} TwoDigits(a: char, b: char, u: string)
    requires IsHex(a) && IsHex(b) && !IsHex(At(u, 0))
    ensures Count([a] + ([b] + u), 0, 0) == (16 * HexVal(a) + HexVal(b), 2, u)
  {
    DigitAccepted([a] + ([b] + u), a, [b] + u, 0, 0);
    DigitAccepted([b] + u, b, u, HexVal(a), 1);
  }

  lemma {:induction false} ThreeDigits(a: char, b: char, c: char, u: string)
    requires IsHex(a) && IsHex(b) && IsHex(c)
    ensures Count([a] + ([b] + ([c] + u)), 0, 0) == (256 * HexVal(a) + 16 * HexVal(b) + HexVal(c), 3, u)
  {
    DigitAccepted([a] + ([b] + ([c] + u)), a, [b] + ([c] + u), 0, 0);
    DigitAccepted([b] + ([c] + u), b, [c] + u, HexVal(a), 1);
    DigitAccepted([c] + u, c, u, 16 * HexVal(a) + HexVal(b), 2);
  }

  lemma {:induction false} DigitAccepted(s: string, c: char, rest: string, n: nat, k: nat)
    requires k < 3 && s == [c] + rest && IsHex(c)
    ensures Count(s, n, k) == Count(rest, 16 * n + HexVal(c), k + 1)
  {
    assert s[1..] == rest;
  }

  lemma {:induction false} TailAccepted(before: string, t: Tail, after: string)
    requires Gaps(before) && ValidTail(t) && t.Tail?
    ensures ReadTail(before + (TailText(t) + after)) == Ok((CountOf(t.digits), t.fmt), after)
  {
    var s, u := TailText(t) + after, FormatText(t.fmt) + "_" + after;
    GapsSkipped(before, s);
    FormatAccepted(t.fmt, after);
    TailStarts(t, after, s, u);
    DigitsAccepted(t.digits, u);
    CountAccepted(t.digits + u, CountOf(t.digits), |t.digits|, t.fmt, u, after);
  }

  lemma {:induction false} TailStarts(t: Tail, after: string, s: string, u: string)
    requires ValidTail(t) && t.Tail? && s == TailText(t) + after && u == FormatText(t.fmt) + "_" + after
    requires u != "" && !IsHex(u[0])
    ensures s != "" && s[0] == 'h' && s[1..] == t.digits + u && !AtCmdStart(s)
  {
    TailSplits(t.digits, FormatText(t.fmt), after);
    DigitsNoStart(s, t.digits, u);
  }

  lemma {:induction false} TailSplits(digits: string, fmt: string, after: string)
    ensures "h" + (digits + (fmt + "_")) + after == "h" + (digits + (fmt + "_" + after))
  {
    Assoc(digits, fmt + "_", after);
    Assoc(fmt, "_", after);
    Assoc("h", digits + (fmt + "_"), after);
  }

  lemma {:induction false} DigitsNoStart(s: string, digits: string, u: string)
    requires s == "h" + (digits + u) && digits != "" && u != "" && !IsHex(u[0])
    requires !(digits[0] == 'A' && |digits| > 1 && '0' <= digits[1] <= '3')
    ensures s[0] == 'h' && s[1..] == digits + u && !AtCmdStart(s)
  {
    assert s[1] == digits[0] && s[2] == if |digits| == 1 then u[0] else digits[1];
  }

  lemma {:induction false} CountAccepted(s: string, n: nat, digits: nat, fmt: Format, u: string, after: string)
    requires Count(s, 0, 0) == (n, digits, u) && digits > 0 && n <= 0x3FE && (fmt == NoFormat ==> n == 0)
    requires u != "" && DisplayFormatOf(u[0]) == fmt
    requires fmt != NoFormat ==> u[1..] != "" && u[1..][0] == '_' && u[1..][1..] == after
    requires fmt == NoFormat ==> u[0] == '_' && u[1..] == after
    ensures ReadCount(s) == Ok((n, fmt), after)
  {
  }

  lemma {:induction false} FormatAccepted(fmt: Format, after: string)
    ensures var u := FormatText(fmt) + "_" + after;
      && u != "" && !IsHex(u[0]) && DisplayFormatOf(u[0]) == fmt
      && (fmt != NoFormat ==> u[1..] != "" && u[1..][0] == '_' && u[1..][1..] == after)
      && (fmt == NoFormat ==> u[0] == '_' && u[1..] == after)
  {
  }

  lemma {:induction false} NoTailAccepted(before: string, rest: string)
    requires Gaps(before) && (rest == "" || AtCmdStart(rest))
    ensures ReadTail(before + rest) == Ok((0, NoFormat), rest)
  {
    GapsSkipped(before, rest);
    assert SkipUnders(rest) == rest;
  }

  /** A command is read as what it stands for, up to the next one or the underscores in front of it. */
  lemma {:induction false} FormAccepted(c: Form, tail: string, base: nat)
    requires ValidForm(c, tail == "") && (tail == "" || AtCmdStart(tail)) && base + |FormBytes(c)| <= POOL_SIZE
    ensures AtCmdStart(FormText(c) + tail)
    ensures var r := TwiCmd(FormText(c) + tail, base);
      r.Ok? && r.value == (FormRecord(c, base), FormBytes(c)) && SkipUnders(r.rest) == SkipUnders(tail)
  {
    var rest := FormRest(c) + tail;
    var body := c.gap + (SlotForm(c.slot) + rest);
    FormSplits(c, tail);
    CtrlBack(c.ctrl, body);
    SlotAccepted(c.gap, c.slot, rest);
    if c.WriteF? {
      PiecesAccepted(c.pieces, tail, [], base);
      ClosedPayload(rest, base);
      assert [] + PiecesBytes(c.pieces) == PiecesBytes(c.pieces);
    } else {
      ReadAccepted(c, tail);
      ClosedReadTail(rest);
    }
  }

  lemma {:induction false} ReadAccepted(c: Form, tail: string)
    requires ValidForm(c, tail == "") && (tail == "" || AtCmdStart(tail)) && c.ReadF?
    ensures var r := ReadTail(FormRest(c) + tail);
      && r.Ok? && r.value == (if c.tail.NoTail? then (0, NoFormat) else (CountOf(c.tail.digits), c.tail.fmt))
      && SkipUnders(r.rest) == SkipUnders(tail)
  {
    if c.tail.NoTail? {
      assert FormRest(c) + tail == c.before + tail;
      NoTailAccepted(c.before, tail);
    } else {
      assert FormRest(c) + tail == c.before + (TailText(c.tail) + (c.after + tail));
      TailAccepted(c.before, c.tail, c.after + tail);
      GapsSkipped(c.after, tail);
    }
  }

  lemma {:induction false} FormSplits(c: Form, tail: string)
    ensures FormText(c) + tail == "h" + HexText(c.ctrl) + (c.gap + (SlotForm(c.slot) + (FormRest(c) + tail)))
  {
    var head := "h" + HexText(c.ctrl);
    Assoc(SlotForm(c.slot), FormRest(c), tail);
    Assoc(c.gap, SlotForm(c.slot) + FormRest(c), tail);
    Assoc(head, c.gap + (SlotForm(c.slot) + FormRest(c)), tail);
  }

  lemma {:induction false} FormsAccepted(cs: seq<Form>, s: string, sofar: Txn)
    requires ValidForms(cs) && SkipUnders(s) == SkipUnders(FormsText(cs))
    requires |sofar.cmds| + |cs| <= MAX_CMDS && |sofar.pool| + |FormsBytes(cs)| <= POOL_SIZE
    ensures Chain(s, sofar) == Accepted(Txn(sofar.cmds + FormsRecords(cs, |sofar.pool|), sofar.pool + FormsBytes(cs)))
    decreases |cs|
  {
    if cs == [] {
      assert sofar.cmds + [] == sofar.cmds && sofar.pool + [] == sofar.pool;
    } else {
      var c, base, tail := cs[0], |sofar.pool|, FormsText(cs[1..]);
      FormsStart(cs[1..]);
      FormAccepted(c, tail, base);
      var r := TwiCmd(FormText(c) + tail, base);
      var next := Txn(sofar.cmds + [FormRecord(c, base)], sofar.pool + FormBytes(c));
      ChainGoesOn(s, FormText(c) + tail, sofar, FormRecord(c, base), FormBytes(c), r.rest);
      FormsAccepted(cs[1..], r.rest, next);
      FormsJoin(cs, sofar, next);
    }
  }

  lemma {:induction false} FormsJoin(cs: seq<Form>, sofar: Txn, next: Txn)
    requires cs != [] && ValidForms(cs)
    requires next == Txn(sofar.cmds + [FormRecord(cs[0], |sofar.pool|)], sofar.pool + FormBytes(cs[0]))
    ensures next.cmds + FormsRecords(cs[1..], |next.pool|) == sofar.cmds + FormsRecords(cs, |sofar.pool|)
    ensures next.pool + FormsBytes(cs[1..]) == sofar.pool + FormsBytes(cs)
  {
    RecordsJoin(cs, sofar.cmds, |sofar.pool|, FormRecord(cs[0], |sofar.pool|), |next.pool|);
    Assoc(sofar.pool, FormBytes(cs[0]), FormsBytes(cs[1..]));
  }

  lemma {:induction false} RecordsJoin(cs: seq<Form>, before: seq<Cmd>, base: nat, c: Cmd, next: nat)
    requires cs != [] && ValidForms(cs) && c == FormRecord(cs[0], base) && next == base + |FormBytes(cs[0])|
    ensures before + [c] + FormsRecords(cs[1..], next) == before + FormsRecords(cs, base)
  {
    Assoc(before, [c], FormsRecords(cs[1..], next));
  }

  lemma {:induction false} ChainGoesOn(s: string, t: string, sofar: Txn, c: Cmd, bytes: seq<Byte>, rest: string)
    requires SkipUnders(s) == SkipUnders(t) && AtCmdStart(t) && |sofar.cmds| < MAX_CMDS
    requires TwiCmd(t, |sofar.pool|) == Ok((c, bytes), rest)
    ensures Chain(s, sofar) == Chain(rest, Txn(sofar.cmds + [c], sofar.pool + bytes))
  {
  }

  lemma {:induction false} FormsStart(cs: seq<Form>)
    requires ValidForms(cs)
    ensures if cs == [] then FormsText(cs) == "" else AtCmdStart(FormsText(cs))
  {
    if cs != [] {
      var c, tail := cs[0], FormsText(cs[1..]);
      FormSplits(c, tail);
      CtrlBack(c.ctrl, c.gap + (SlotForm(c.slot) + (FormRest(c) + tail)));
    }
  }

  // ---- No other line is accepted ---------------------------------------------------------

  lemma {:induction false} HexTextOf(a: char, b: char)
    requires IsHex(a) && IsHex(b)
    ensures HexText(16 * HexVal(a) + HexVal(b)) == [a, b]
  {
    var x, y := HexVal(a), HexVal(b);
    assert (16 * x + y) / 16 == x && (16 * x + y) % 16 == y;
  }

  lemma {:induction false} HexRunDerived(s: string, acc: seq<Byte>, base: nat) returns (bytes: seq<Byte>)
    requires HexRun(s, acc, base).Ok?
    ensures var r := HexRun(s, acc, base); r.value == acc + bytes && s == HexRunText(bytes) + r.rest
    decreases |s|
  {
    var r := HexRun(s, acc, base);
    if !IsHex(At(s, 0)) {
      bytes := [];
      assert acc + [] == acc && HexRunText([]) + r.rest == s;
    } else {
      var h := HexByte(s);
      HexTextOf(s[0], s[1]);
      var more := HexRunDerived(h.rest, acc + [h.value], base);
      bytes := [h.value] + more;
      assert bytes[1..] == more && s == HexText(h.value) + h.rest;
      Assoc(acc, [h.value], more);
      Assoc(HexText(h.value), HexRunText(more), r.rest);
    }
  }

  /** The text `t` of the binary byte `b` from the bit on that follows the first `bits`, which have given `v`. */
  ghost predicate IsBits(t: string, b: Byte, v: Byte, bits: nat)
    requires bits <= 8
  {
    && Bare(t) == LowBits(b, 8 - bits) && Shr(b, 8 - bits) == v
    && if bits == 8 then t == "" else t != "" && t[|t| - 1] != '_'
  }

  lemma {:induction false} BitsDerived(s: string, v: Byte, bits: nat) returns (t: string)
    requires bits <= 8 && BinByte(s, v, bits).Ok? && v < Pow2(bits)
    ensures var r := BinByte(s, v, bits); s == t + r.rest && IsBits(t, r.value, v, bits)
    decreases |s|
  {
    var r := BinByte(s, v, bits);
    if bits == 8 {
      t := "";
    } else if s[0] == '_' {
      var u := BitsDerived(s[1..], v, bits);
      t := "_" + u;
      assert t[1..] == u && s == "_" + s[1..];
    } else {
      BitShifted(v, s[0], bits);
      var u := BitsDerived(s[1..], ShiftIn(v, s[0]), bits + 1);
      t := [s[0]] + u;
      assert s == [s[0]] + s[1..];
      BitInFront(s[0], u, r.value, v, bits);
    }
  }

  lemma {:induction false} BitShifted(v: Byte, c: char, bits: nat)
    requires bits < 8 && IsBin(c) && v < Pow2(bits)
    ensures v < 128 && ShiftIn(v, c) < Pow2(bits + 1)
  {
    Pow2Monotone(bits, 7);
    assert Pow2(7) == 128;
  }

  lemma {:induction false} BitInFront(c: char, u: string, b: Byte, v: Byte, bits: nat)
    requires bits < 8 && IsBin(c) && v < 128 && IsBits(u, b, ShiftIn(v, c), bits + 1)
    ensures IsBits([c] + u, b, v, bits)
  {
    BitDerived(v, c, b, 7 - bits);
    assert ([c] + u)[1..] == u;
  }

  lemma {:induction false} BitDerived(v: Byte, c: char, b: Byte, k: nat)
    requires k < 8 && IsBin(c) && v < 128 && Shr(b, k) == ShiftIn(v, c)
    ensures Shr(b, k + 1) == v && BitChar(b, k) == c && LowBits(b, k + 1) == [c] + LowBits(b, k)
  {
  }

  lemma {:induction false} PartDerived(s: string) returns (p: BinPart)
    requires BinByte(s, 0, 0).Ok?
    ensures ValidPart(p) && p.b == BinByte(s, 0, 0).value && s == p.text + BinByte(s, 0, 0).rest
  {
    var t := BitsDerived(s, 0, 0);
    p := BinPart(t, BinByte(s, 0, 0).value);
  }

  lemma {:induction false} PartsDerived(s: string, acc: seq<Byte>, base: nat) returns (ps: seq<BinPart>)
    requires BinRun(s, acc, base).Ok?
    ensures forall q :: q in ps ==> ValidPart(q)
    ensures var r := BinRun(s, acc, base); r.value == acc + PartsBytes(ps) && s == PartsText(ps) + r.rest
    decreases |s|
  {
    var r := BinRun(s, acc, base);
    if !IsBin(At(SkipUnders(s), 0)) {
      ps := [];
      assert acc + [] == acc && PartsText([]) + r.rest == s;
    } else {
      var p := PartDerived(s);
      var rest := BinByte(s, 0, 0).rest;
      var more := PartsDerived(rest, acc + [p.b], base);
      ps := [p] + more;
      assert ps[1..] == more;
      Assoc(acc, [p.b], PartsBytes(more));
      Assoc(p.text, PartsText(more), r.rest);
    }
  }

  lemma {:induction false} AsciiRunDerived(s: string, acc: seq<Byte>, base: nat) returns (bytes: seq<Byte>)
    requires AsciiRun(s, acc, base).Ok?
    ensures forall b :: b in bytes ==> LetterOrDigit(b)
    ensures var r := AsciiRun(s, acc, base);
      r.value == acc + bytes && s == AsciiRunText(bytes) + r.rest && !IsAlnum(At(r.rest, 0))
    decreases |s|
  {
    var r := AsciiRun(s, acc, base);
    if !IsAlnum(At(s, 0)) {
      bytes := [];
      assert acc + [] == acc && AsciiRunText([]) + r.rest == s;
    } else {
      var b: Byte := s[0] as int;
      var more := AsciiRunDerived(s[1..], acc + [b], base);
      bytes := [b] + more;
      assert bytes[1..] == more && s == [s[0]] + s[1..];
      Assoc(acc, [b], more);
      Assoc([s[0]], AsciiRunText(more), r.rest);
    }
  }

  /** One group, with the underscore that closes it if it is ASCII and not at the end of the line. */
  ghost predicate IsGroup(ps: seq<Piece>, rest: string) {
    && ps != [] && ValidPiece(ps[0]) && !ps[0].Gap?
    && (if |ps| == 1 then ps[0].AsciiP? ==> rest == "" else |ps| == 2 && ps[1].Gap?)
  }

  lemma {:induction false} GroupDerived(s: string, acc: seq<Byte>, base: nat) returns (ps: seq<Piece>)
    requires IsSelector(At(s, 0)) && !AtCmdStart(s) && TwiSyntax.Group(s, acc, base).Ok?
    ensures var r := TwiSyntax.Group(s, acc, base);
      IsGroup(ps, r.rest) && r.value == acc + PiecesBytes(ps) && s == PiecesText(ps) + r.rest
  {
    if s[0] == 'h' {
      ps := HexDerived(s, acc, base);
    } else if s[0] == 'b' {
      ps := BinDerived(s, acc, base);
    } else {
      ps := AsciiDerived(s, acc, base);
    }
  }

  lemma {:induction false} HexDerived(s: string, acc: seq<Byte>, base: nat) returns (ps: seq<Piece>)
    requires At(s, 0) == 'h' && !AtCmdStart(s) && TwiSyntax.Group(s, acc, base).Ok?
    ensures var r := TwiSyntax.Group(s, acc, base);
      IsGroup(ps, r.rest) && r.value == acc + PiecesBytes(ps) && s == PiecesText(ps) + r.rest
  {
    var rest := TwiSyntax.Group(s, acc, base).rest;
    var bytes := HexRunDerived(s[1..], acc, base);
    ps := [HexP(bytes)];
    assert s == "h" + (HexRunText(bytes) + rest);
    HexStart(s, bytes, rest);
    OnePiece(ps[0]);
    Assoc("h", HexRunText(bytes), rest);
  }

  lemma {:induction false} BinDerived(s: string, acc: seq<Byte>, base: nat) returns (ps: seq<Piece>)
    requires At(s, 0) == 'b' && TwiSyntax.Group(s, acc, base).Ok?
    ensures var r := TwiSyntax.Group(s, acc, base);
      IsGroup(ps, r.rest) && r.value == acc + PiecesBytes(ps) && s == PiecesText(ps) + r.rest
  {
    var rest := TwiSyntax.Group(s, acc, base).rest;
    var parts := PartsDerived(s[1..], acc, base);
    ps := [BinP(parts)];
    assert s == "b" + (PartsText(parts) + rest);
    OnePiece(ps[0]);
    Assoc("b", PartsText(parts), rest);
  }

  lemma {:induction false} AsciiDerived(s: string, acc: seq<Byte>, base: nat) returns (ps: seq<Piece>)
    requires At(s, 0) == 'a' && TwiSyntax.Group(s, acc, base).Ok?
    ensures var r := TwiSyntax.Group(s, acc, base);
      IsGroup(ps, r.rest) && r.value == acc + PiecesBytes(ps) && s == PiecesText(ps) + r.rest
  {
    var rest := AsciiRun(s[1..], acc, base).rest;
    var bytes := AsciiRunDerived(s[1..], acc, base);
    assert s == "a" + (AsciiRunText(bytes) + rest);
    OnePiece(AsciiP(bytes));
    Assoc("a", AsciiRunText(bytes), rest);
    if rest == "" {
      ps := [AsciiP(bytes)];
    } else {
      ps := [AsciiP(bytes), Gap];
      assert rest == "_" + rest[1..];
      Assoc("a" + AsciiRunText(bytes), "_", rest[1..]);
    }
  }

  lemma {:induction false} OnePiece(p: Piece)
    ensures PiecesText([p]) == PieceText(p) && PiecesBytes([p]) == PieceBytes(p)
    ensures PiecesText([p, Gap]) == PieceText(p) + "_" && PiecesBytes([p, Gap]) == PieceBytes(p)
  {
    var two := [p, Gap];
    assert two[0] == p && two[1..] == [Gap] && [Gap][1..] == [] && [p][1..] == [];
    assert PiecesText([Gap]) == "_" && PiecesBytes([Gap]) == [];
    assert PieceBytes(p) + [] == PieceBytes(p);
  }

  lemma {:induction false} HexStart(s: string, bytes: seq<Byte>, rest: string)
    requires s == "h" + (HexRunText(bytes) + rest) && !AtCmdStart(s) && bytes != []
    ensures !(0xA0 <= bytes[0] <= 0xA3)
  {
    assert s[1] == HexDigit(bytes[0] / 16) && s[2] == HexDigit(bytes[0] % 16);
  }

  lemma {:induction false} PiecesNotEmpty(ps: seq<Piece>)
    ensures PiecesText(ps) == "" ==> ps == []
  {
    if ps != [] { assert |PieceText(ps[0])| > 0; }
  }

  /** A payload is made of pieces, whatever its writer did. */
  lemma {:induction false} PayloadDerived(s: string, acc: seq<Byte>, base: nat) returns (ps: seq<Piece>)
    requires Payload(s, acc, base).Ok?
    ensures var r := Payload(s, acc, base);
      ValidPieces(ps, r.rest == "") && r.value == acc + PiecesBytes(ps) && s == PiecesText(ps) + r.rest
    decreases |s|
  {
    var r := Payload(s, acc, base);
    if s == "" || AtCmdStart(s) {
      ps := [];
      assert acc + [] == acc && PiecesText([]) + s == s;
    } else if s[0] == '_' {
      var more := PayloadDerived(s[1..], acc, base);
      ps := GapFirst(more, r.rest == "");
      assert s == "_" + s[1..];
      Assoc("_", PiecesText(more), r.rest);
    } else {
      var g := TwiSyntax.Group(s, acc, base);
      var front := GroupDerived(s, acc, base);
      var more := PayloadDerived(g.rest, g.value, base);
      ps := front + more;
      GroupValid(front, more, g.rest, r.rest);
      PiecesPut(front, more, s, g.rest, r.rest, acc, g.value, r.value);
    }
  }

  lemma {:induction false} PiecesPut(a: seq<Piece>, b: seq<Piece>, s: string, t: string, end: string, u: seq<Byte>, v: seq<Byte>, w: seq<Byte>)
    requires s == PiecesText(a) + t && t == PiecesText(b) + end
    requires v == u + PiecesBytes(a) && w == v + PiecesBytes(b)
    ensures s == PiecesText(a + b) + end && w == u + PiecesBytes(a + b)
  {
    PiecesJoin(a, b);
    Assoc(PiecesText(a), PiecesText(b), end);
    Assoc(u, PiecesBytes(a), PiecesBytes(b));
  }

  lemma {:induction false} PiecesJoin(a: seq<Piece>, b: seq<Piece>)
    ensures PiecesText(a + b) == PiecesText(a) + PiecesText(b) && PiecesBytes(a + b) == PiecesBytes(a) + PiecesBytes(b)
  {
    if a == [] {
      assert a + b == b;
    } else {
      assert (a + b)[1..] == a[1..] + b && (a + b)[0] == a[0];
      PiecesJoin(a[1..], b);
      Assoc(PieceText(a[0]), PiecesText(a[1..]), PiecesText(b));
      Assoc(PieceBytes(a[0]), PiecesBytes(a[1..]), PiecesBytes(b));
    }
  }

  lemma {:induction false} GroupValid(front: seq<Piece>, more: seq<Piece>, rest: string, end: string)
    requires IsGroup(front, rest) && ValidPieces(more, end == "") && rest == PiecesText(more) + end
    ensures ValidPieces(front + more, end == "")
  {
    var ps := front + more;
    if |front| == 1 {
      assert ps[1..] == more;
      PiecesNotEmpty(more);
    } else {
      assert ps[1] == Gap && ps[1..][1..] == more && ps[1..][0] == Gap;
    }
  }

  lemma {:induction false} GapsFound(s: string) returns (gap: string)
    ensures Gaps(gap) && s == gap + SkipUnders(s)
  {
    if At(s, 0) == '_' {
      var more := GapsFound(s[1..]);
      gap := "_" + more;
      assert s == "_" + s[1..];
    } else {
      gap := "";
    }
  }

  /** The internal address, and the underscore taken with an ASCII one. */
  lemma {:induction false} SlotDerived(s: string) returns (gap: string, slot: Slot, close: string)
    requires OneByteAny(s).Ok?
    ensures Gaps(gap) && ValidSlotForm(slot) && (close == "" || close == "_")
    ensures OneByteAny(s).value == SlotByte(slot) && s == gap + (SlotForm(slot) + (close + OneByteAny(s).rest))
  {
    gap := GapsFound(s);
    var t, rest := SkipUnders(s), OneByteAny(s).rest;
    assert "" + rest == rest;
    if t[0] == 'h' {
      slot := HexSlotDerived(t, rest);
      close := "";
    } else if t[0] == 'b' {
      slot := BinSlotDerived(t, rest);
      close := "";
    } else {
      slot, close := AsciiSlotDerived(t, rest);
    }
  }

  lemma {:induction false} HexSlotDerived(t: string, rest: string) returns (slot: Slot)
    requires At(t, 0) == 'h' && HexByte(t[1..]).Ok? && rest == HexByte(t[1..]).rest
    ensures ValidSlotForm(slot) && SlotByte(slot) == HexByte(t[1..]).value && t == SlotForm(slot) + rest
  {
    slot := HexS(HexByte(t[1..]).value);
    HexTextOf(t[1], t[2]);
  }

  lemma {:induction false} BinSlotDerived(t: string, rest: string) returns (slot: Slot)
    requires At(t, 0) == 'b' && BinByte(t[1..], 0, 0).Ok? && rest == BinByte(t[1..], 0, 0).rest
    ensures ValidSlotForm(slot) && SlotByte(slot) == BinByte(t[1..], 0, 0).value && t == SlotForm(slot) + rest
  {
    var part := PartDerived(t[1..]);
    slot := BinS(part);
    assert t == "b" + t[1..];
    Assoc("b", part.text, rest);
  }

  lemma {:induction false} AsciiSlotDerived(t: string, rest: string) returns (slot: Slot, close: string)
    requires At(t, 0) == 'a' && AsciiByte(t[1..]).Ok? && rest == Closed(AsciiByte(t[1..]).rest)
    ensures ValidSlotForm(slot) && SlotByte(slot) == AsciiByte(t[1..]).value
    ensures (close == "" || close == "_") && t == SlotForm(slot) + (close + rest)
  {
    slot := AsciiS(t[1] as int);
    close := if At(t[2..], 0) == '_' then "_" else "";
    assert t == "a" + [t[1]] + t[2..] && t[2..] == close + rest;
  }

  // ---- Reads -----------------------------------------------------------------------------

  lemma {:induction false} DigitsDerived(s: string) returns (digits: string)
    requires Count(s, 0, 0).1 > 0
    ensures 1 <= |digits| <= 3 && (forall i :: 0 <= i < |digits| ==> IsHex(digits[i]))
    ensures Count(s, 0, 0) == (CountOf(digits), |digits|, Count(s, 0, 0).2) && s == digits + Count(s, 0, 0).2
  {
    assert Count(s, 0, 0) == Count(s[1..], HexVal(s[0]), 1);
    var s1, n1 := s[1..], HexVal(s[0]);
    if !IsHex(At(s1, 0)) {
      digits := s[..1];
    } else {
      var s2, n2 := s1[1..], 16 * n1 + HexVal(s1[0]);
      assert Count(s1, n1, 1) == Count(s2, n2, 2);
      digits := if IsHex(At(s2, 0)) then s[..3] else s[..2];
      assert IsHex(At(s2, 0)) ==> s2[1..] == s[3..];
      assert s2 == s[2..];
    }
  }

  lemma {:induction false} TailDerived(s: string) returns (before: string, t: Tail)
    requires ReadTail(s).Ok?
    ensures Gaps(before) && ValidTail(t) && s == before + (TailText(t) + ReadTail(s).rest)
    ensures ReadTail(s).value == (if t.NoTail? then (0, NoFormat) else (CountOf(t.digits), t.fmt))
    ensures t.NoTail? ==> SkipUnders(ReadTail(s).rest) == ReadTail(s).rest
  {
    before := GapsFound(s);
    var u := SkipUnders(s);
    if u == "" || AtCmdStart(u) {
      t := NoTail;
      assert "" + u == u;
    } else {
      t := CountDerived(u);
    }
  }

  lemma {:induction false} CountDerived(u: string) returns (t: Tail)
    requires At(u, 0) == 'h' && !AtCmdStart(u) && ReadCount(u[1..]).Ok?
    ensures t.Tail? && ValidTail(t) && u == TailText(t) + ReadCount(u[1..]).rest
    ensures ReadCount(u[1..]).value == (CountOf(t.digits), t.fmt)
  {
    var s := u[1..];
    var digits := DigitsDerived(s);
    var (n, k, w) := Count(s, 0, 0);
    FormatDerived(s, n, k, w);
    var fmt, rest := ReadCount(s).value.1, ReadCount(s).rest;
    t := Tail(digits, fmt);
    DigitsDoNotStart(u, digits, w);
    assert u == "h" + (digits + (FormatText(fmt) + "_" + rest));
    TailSplits(digits, FormatText(fmt), rest);
  }

  lemma {:induction false} FormatDerived(s: string, n: nat, digits: nat, w: string)
    requires Count(s, 0, 0) == (n, digits, w) && ReadCount(s).Ok?
    ensures var r := ReadCount(s);
      && digits > 0 && r.value.0 == n <= 0x3FE && (r.value.1 == NoFormat ==> n == 0)
      && w == FormatText(r.value.1) + "_" + r.rest
  {
  }

  lemma {:induction false} DigitsDoNotStart(u: string, digits: string, w: string)
    requires At(u, 0) == 'h' && !AtCmdStart(u) && u[1..] == digits + w && digits != ""
    ensures !(digits[0] == 'A' && |digits| > 1 && '0' <= digits[1] <= '3') && u == "h" + (digits + w)
  {
    assert u[1] == digits[0] && (|digits| > 1 ==> u[2] == digits[1]);
  }

  // ---- Commands and lines ----------------------------------------------------------------

  lemma {:induction false} WriteDerived(s: string, base: nat, close: string) returns (ps: seq<Piece>)
    requires Payload(s, [], base).Ok? && base <= POOL_SIZE && (close == "" || close == "_")
    ensures var r := Payload(s, [], base);
      && ValidPieces(ps, r.rest == "") && r.value == PiecesBytes(ps) && |r.value| <= 1022
      && close + s == PiecesText(ps) + r.rest && SkipUnders(r.rest) == r.rest
  {
    var r := Payload(s, [], base);
    var more := PayloadDerived(s, [], base);
    TwiCanonical.PayloadWithin(s, [], base);
    ps := CloseFirst(close, more, s, r.rest, r.value);
  }

  lemma {:induction false} CloseFirst(close: string, more: seq<Piece>, s: string, rest: string, v: seq<Byte>) returns (ps: seq<Piece>)
    requires (close == "" || close == "_") && ValidPieces(more, rest == "")
    requires s == PiecesText(more) + rest && v == [] + PiecesBytes(more)
    ensures ValidPieces(ps, rest == "") && v == PiecesBytes(ps) && close + s == PiecesText(ps) + rest
  {
    if close == "" {
      ps := more;
      assert close + s == s;
    } else {
      ps := GapFirst(more, rest == "");
      Assoc("_", PiecesText(more), rest);
    }
  }

  lemma {:induction false} GapFirst(more: seq<Piece>, last: bool) returns (ps: seq<Piece>)
    requires ValidPieces(more, last)
    ensures ValidPieces(ps, last) && PiecesText(ps) == "_" + PiecesText(more) && PiecesBytes(ps) == PiecesBytes(more)
  {
    ps := [Gap] + more;
    assert ps[1..] == more && [] + PiecesBytes(more) == PiecesBytes(more);
  }

  lemma {:induction false} ReadDerived(s: string, close: string) returns (before: string, t: Tail, after: string)
    requires ReadTail(s).Ok? && (close == "" || close == "_")
    ensures Gaps(before) && ValidTail(t) && Gaps(after) && (t.NoTail? ==> after == "")
    ensures ReadTail(s).value == (if t.NoTail? then (0, NoFormat) else (CountOf(t.digits), t.fmt))
    ensures close + s == before + (TailText(t) + (after + SkipUnders(ReadTail(s).rest)))
  {
    var gap, tail := TailDerived(s);
    var rest := ReadTail(s).rest;
    before, t := close + gap, tail;
    after := GapsFound(rest);
    if t.NoTail? { NoGap(after, SkipUnders(rest)); }
    Assoc(close, gap, TailText(t) + rest);
  }

  lemma {:induction false} NoGap(gap: string, s: string)
    requires gap + s == s
    ensures gap == ""
  {
    assert |gap + s| == |gap| + |s|;
  }

  /** What is read as a command is written as one. */
  lemma {:induction false} FormDerived(s: string, base: nat) returns (c: Form)
    requires TwiCmd(s, base).Ok? && base <= POOL_SIZE
    ensures var r := TwiCmd(s, base); var tail := SkipUnders(r.rest);
      ValidForm(c, tail == "") && r.value == (FormRecord(c, base), FormBytes(c)) && s == FormText(c) + tail
  {
    var ctrl, s1 := HexByte(s[1..]).value, HexByte(s[1..]).rest;
    var tail := SkipUnders(TwiCmd(s, base).rest);
    HexTextOf(s[1], s[2]);
    assert s == "h" + HexText(ctrl) + s1 && 0xA0 <= ctrl <= 0xA3;
    var gap, slot, close := SlotDerived(s1);
    var s2 := OneByteAny(s1).rest;
    if IsRead(ctrl) {
      var before, t, after := ReadDerived(s2, close);
      c := ReadF(ctrl, gap, slot, before, t, after);
      Assoc(TailText(t), after, tail);
      Assoc(before, TailText(t) + after, tail);
    } else {
      var ps := WriteDerived(s2, base, close);
      c := WriteF(ctrl, gap, slot, ps);
    }
    assert close + s2 == FormRest(c) + tail;
    FormSplits(c, tail);
  }

  lemma {:induction false} FormsDerived(s: string, sofar: Txn) returns (cs: seq<Form>)
    requires Chain(s, sofar).Accepted? && |sofar.pool| <= POOL_SIZE
    ensures ValidForms(cs) && SkipUnders(s) == FormsText(cs)
    ensures Chain(s, sofar).txn == Txn(sofar.cmds + FormsRecords(cs, |sofar.pool|), sofar.pool + FormsBytes(cs))
    decreases |s|
  {
    var t, base := SkipUnders(s), |sofar.pool|;
    if t == "" {
      cs := [];
      assert sofar.cmds + [] == sofar.cmds && sofar.pool + [] == sofar.pool;
    } else {
      var r := TwiCmd(t, base);
      var c := FormDerived(t, base);
      var next := Txn(sofar.cmds + [r.value.0], sofar.pool + r.value.1);
      TwiCanonical.TwiCmdShape(t, base);
      var more := FormsDerived(r.rest, next);
      cs := [c] + more;
      assert cs[1..] == more;
      FormsStart(more);
      FormsJoin(cs, sofar, next);
    }
  }

  /** Every line of the grammar is accepted, as the transaction it stands for. */
  lemma {:induction false} LineAccepted(before: string, cs: seq<Form>)
    requires TwiSpecial.Blank(before) && ValidLine(cs)
    ensures Parse(before + FormsText(cs)) == Accepted(Txn(FormsRecords(cs, 0), FormsBytes(cs)))
  {
    FormsStart(cs);
    TwiSpecial.BlanksSkipped(before, FormsText(cs));
    FormsAccepted(cs, FormsText(cs), Txn([], []));
    assert [] + FormsRecords(cs, 0) == FormsRecords(cs, 0) && [] + FormsBytes(cs) == FormsBytes(cs);
  }

  /** Every accepted line that starts a transaction is one of the grammar, and means what it stands for. */
  lemma {:induction false} LineDerived(line: string) returns (before: string, cs: seq<Form>)
    requires TwiSpecial.StartsTransaction(line) && Parse(line).Accepted?
    ensures TwiSpecial.Blank(before) && ValidLine(cs) && line == before + FormsText(cs)
    ensures Parse(line).txn == Txn(FormsRecords(cs, 0), FormsBytes(cs))
  {
    TwiSpecial.StartsTransactionIs(line);
    TwiCanonical.AcceptedShape(line);
    before := TwiSpecial.Lead(line);
    cs := FormsDerived(SkipBlanks(line), Txn([], []));
    assert [] + FormsRecords(cs, 0) == FormsRecords(cs, 0) && [] + FormsBytes(cs) == FormsBytes(cs);
    FormsLength(cs, 0);
  }

  lemma {:induction false} FormsLength(cs: seq<Form>, base: nat)
    requires ValidForms(cs)
    ensures |FormsRecords(cs, base)| == |cs|
  {
    if cs != [] { FormsLength(cs[1..], base + |FormBytes(cs[0])|); }
  }

  /** The line is one of the grammar, and stands for the transaction. */
  ghost predicate StandsFor(line: string, txn: Txn) {
    exists before, cs ::
      TwiSpecial.Blank(before) && ValidLine(cs) && line == before + FormsText(cs)
      && txn == Txn(FormsRecords(cs, 0), FormsBytes(cs))
  }

  /** The lines parsed as transactions are exactly those of the grammar, and are parsed as what they stand for. */
  lemma {:induction false} AcceptedIff(line: string, txn: Txn)
    ensures TwiSpecial.StartsTransaction(line) && Parse(line) == Accepted(txn) <==> StandsFor(line, txn)
  {
    if StandsFor(line, txn) {
      var before, cs :| TwiSpecial.Blank(before) && ValidLine(cs) && line == before + FormsText(cs)
        && txn == Txn(FormsRecords(cs, 0), FormsBytes(cs));
      LineAccepted(before, cs);
      FormsStart(cs);
      TwiSpecial.BlanksSkipped(before, FormsText(cs));
      TwiSpecial.StartsTransactionIs(line);
    }
    if TwiSpecial.StartsTransaction(line) && Parse(line) == Accepted(txn) {
      var before, cs := LineDerived(line);
    }
  }
}
