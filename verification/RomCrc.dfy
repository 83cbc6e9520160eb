/** What the CRC of a ROM number is: the remainder of a polynomial division of its bits, first bit on the wire first. */
module RomCrc {
  import opened RomOrder
  import opened RomBytes

  /** Eight coefficients, or the eight cells of a shift register, the first to leave first. */
  type Cells = r: seq<bool> | |r| == 8 witness seq(8, _ => false)

  const ZEROS: Cells := [false, false, false, false, false, false, false, false]

  /** What follows the leading term of the polynomial x^8 + x^5 + x^4 + 1: its coefficients from x^7 down to 1. */
  const POLYNOMIAL: Cells := [false, false, true, true, false, false, false, true]

  function Xor(a: Cells, b: Cells): (r: Cells)
    ensures forall i :: 0 <= i < 8 ==> r[i] == (a[i] != b[i])
  {
    seq(8, i requires 0 <= i < 8 => a[i] != b[i])
  }

  /** Long division of the polynomial with coefficients `m`, highest power first: the remainder. */
  function Remainder(m: seq<bool>): Cells
    requires |m| >= 8
    decreases |m|
  {
    if |m| == 8 then m
    else if m[0] then Remainder(Xor(m[1..9], POLYNOMIAL) + m[9..])
    else Remainder(m[1..])
  }

  // ---- The table -------------------------------------------------------------------------

  /** One step of the CRC-8 of Application Note 27 on a byte. */
  function CrcShift(c: bv8): bv8 {
    if c & 1 != 0 then (c >> 1) ^ 0x8C else c >> 1
  }

  function ByteCrc(c: bv8): bv8 {
    CrcShift(CrcShift(CrcShift(CrcShift(CrcShift(CrcShift(CrcShift(CrcShift(c))))))))
  }

  lemma Row0(i: bv8)
    requires i >> 4 == 0
    ensures DsCrcRow(0)[(i & 0x0F) as nat] == ByteCrc(i)
  {
  }

  lemma Row1(i: bv8)
    requires i >> 4 == 1
    ensures DsCrcRow(1)[(i & 0x0F) as nat] == ByteCrc(i)
  {
  }

  lemma Row2(i: bv8)
    requires i >> 4 == 2
    ensures DsCrcRow(2)[(i & 0x0F) as nat] == ByteCrc(i)
  {
  }

  lemma Row3(i: bv8)
    requires i >> 4 == 3
    ensures DsCrcRow(3)[(i & 0x0F) as nat] == ByteCrc(i)
  {
  }

  lemma Row4(i: bv8)
    requires i >> 4 == 4
    ensures DsCrcRow(4)[(i & 0x0F) as nat] == ByteCrc(i)
  {
  }

  lemma Row5(i: bv8)
    requires i >> 4 == 5
    ensures DsCrcRow(5)[(i & 0x0F) as nat] == ByteCrc(i)
  {
  }

  lemma Row6(i: bv8)
    requires i >> 4 == 6
    ensures DsCrcRow(6)[(i & 0x0F) as nat] == ByteCrc(i)
  {
  }

  lemma Row7(i: bv8)
    requires i >> 4 == 7
    ensures DsCrcRow(7)[(i & 0x0F) as nat] == ByteCrc(i)
  {
  }

  lemma Row8(i: bv8)
    requires i >> 4 == 8
    ensures DsCrcRow(8)[(i & 0x0F) as nat] == ByteCrc(i)
  {
  }

  lemma Row9(i: bv8)
    requires i >> 4 == 9
    ensures DsCrcRow(9)[(i & 0x0F) as nat] == ByteCrc(i)
  {
  }

  lemma Row10(i: bv8)
    requires i >> 4 == 10
    ensures DsCrcRow(10)[(i & 0x0F) as nat] == ByteCrc(i)
  {
  }

  lemma Row11(i: bv8)
    requires i >> 4 == 11
    ensures DsCrcRow(11)[(i & 0x0F) as nat] == ByteCrc(i)
  {
  }

  lemma Row12(i: bv8)
    requires i >> 4 == 12
    ensures DsCrcRow(12)[(i & 0x0F) as nat] == ByteCrc(i)
  {
  }

  lemma Row13(i: bv8)
    requires i >> 4 == 13
    ensures DsCrcRow(13)[(i & 0x0F) as nat] == ByteCrc(i)
  {
  }

  lemma Row14(i: bv8)
    requires i >> 4 == 14
    ensures DsCrcRow(14)[(i & 0x0F) as nat] == ByteCrc(i)
  {
  }

  lemma Row15(i: bv8)
    requires i >> 4 == 15
    ensures DsCrcRow(15)[(i & 0x0F) as nat] == ByteCrc(i)
  {
  }

  lemma HighLow(i: bv8)
    ensures (i as nat) / 16 == (i >> 4) as nat && (i as nat) % 16 == (i & 0x0F) as nat
  {
  }

  lemma RowIs(i: bv8, k: nat)
    requires k == (i >> 4) as nat
    ensures k < 16 && DsCrcRow(k)[(i & 0x0F) as nat] == ByteCrc(i)
  {
    match i >> 4
    case 0 => Row0(i);
    case 1 => Row1(i);
    case 2 => Row2(i);
    case 3 => Row3(i);
    case 4 => Row4(i);
    case 5 => Row5(i);
    case 6 => Row6(i);
    case 7 => Row7(i);
    case 8 => Row8(i);
    case 9 => Row9(i);
    case 10 => Row10(i);
    case 11 => Row11(i);
    case 12 => Row12(i);
    case 13 => Row13(i);
    case 14 => Row14(i);
    case _ => Row15(i);
  }

  /** Every entry of the table is the CRC of its index, computed bit by bit. */
  lemma TableIsCrc(i: bv8)
    ensures DSCRC_TABLE[i as nat / 16][i as nat % 16] == ByteCrc(i)
  {
    HighLow(i);
    TableRows((i >> 4) as nat);
    RowIs(i, (i >> 4) as nat);
  }

  lemma StepIsCrc(crc: bv8, value: bv8)
    ensures CrcStep(DSCRC_TABLE, crc, value) == ByteCrc(crc ^ value)
  {
    TableIsCrc(crc ^ value);
  }

  // ---- The shift register ----------------------------------------------------------------

  /** A byte as cells, its lowest bit first. */
  function CellsOf(c: bv8): (r: Cells)
    ensures forall k :: 0 <= k < 8 ==> r[k] == ByteBit(c, k)
  {
    seq(8, k requires 0 <= k < 8 => ByteBit(c, k))
  }

  /** The first cell leaves; if it was set the polynomial is subtracted. */
  function Shift(r: Cells): Cells {
    var rest := r[1..] + [false];
    if r[0] then Xor(rest, POLYNOMIAL) else rest
  }

  function Shifts(r: Cells, n: nat): Cells
    decreases n
  {
    if n == 0 then r else Shifts(Shift(r), n - 1)
  }

  /** The register after one more bit of the message, and after all of them. */
  function Fed(r: Cells, bit: bool): Cells {
    Shift(r[0 := r[0] != bit])
  }

  function FedAll(r: Cells, m: seq<bool>): Cells
    decreases |m|
  {
    if m == [] then r else FedAll(Fed(r, m[0]), m[1..])
  }

  lemma ShiftedBit(c: bv8, k: nat)
    requires k < 8
    ensures ByteBit(c, 0) <==> c & 1 != 0
    ensures ByteBit(c >> 1, k) == (k < 7 && ByteBit(c, k + 1))
    ensures ByteBit((c >> 1) ^ 0x8C, k) == (ByteBit(c >> 1, k) != POLYNOMIAL[k])
  {
  }

  lemma ShiftOfByte(c: bv8)
    ensures CellsOf(CrcShift(c)) == Shift(CellsOf(c))
  {
    forall k | 0 <= k < 8
      ensures CellsOf(CrcShift(c))[k] == Shift(CellsOf(c))[k]
    {
      ShiftedBit(c, k);
    }
  }

  lemma CrcOfByte(c: bv8)
    ensures CellsOf(ByteCrc(c)) == Shifts(CellsOf(c), 8)
  {
    var c1 := CrcShift(c);
    var c2 := CrcShift(c1);
    var c3 := CrcShift(c2);
    var c4 := CrcShift(c3);
    var c5 := CrcShift(c4);
    var c6 := CrcShift(c5);
    var c7 := CrcShift(c6);
    ShiftsOfByte(c, c1, 7);
    ShiftsOfByte(c1, c2, 6);
    ShiftsOfByte(c2, c3, 5);
    ShiftsOfByte(c3, c4, 4);
    ShiftsOfByte(c4, c5, 3);
    ShiftsOfByte(c5, c6, 2);
    ShiftsOfByte(c6, c7, 1);
    ShiftsOfByte(c7, CrcShift(c7), 0);
  }

  lemma ShiftsOfByte(c: bv8, next: bv8, n: nat)
    requires next == CrcShift(c)
    ensures Shifts(CellsOf(c), n + 1) == Shifts(CellsOf(next), n)
  {
    ShiftOfByte(c);
  }

  lemma XorMask(a: bv8, b: bv8, mask: bv8)
    requires mask & (mask - 1) == 0
    ensures ((a ^ b) & mask != 0) == ((a & mask != 0) != (b & mask != 0))
  {
  }

  lemma OneBit(k: nat)
    requires k < 8
    ensures Mask(k) & (Mask(k) - 1) == 0
  {
  }

  lemma XorBit(a: bv8, b: bv8, k: nat)
    requires k < 8
    ensures ByteBit(a ^ b, k) == (ByteBit(a, k) != ByteBit(b, k))
  {
    OneBit(k);
    XorMask(a, b, Mask(k));
  }

  lemma XorOfBytes(a: bv8, b: bv8)
    ensures CellsOf(a ^ b) == Xor(CellsOf(a), CellsOf(b))
  {
    forall k | 0 <= k < 8
      ensures CellsOf(a ^ b)[k] == Xor(CellsOf(a), CellsOf(b))[k]
    {
      XorBit(a, b, k);
    }
  }

  /** The register with the bits of `m`, at most eight, put on its first cells. */
  function XorHead(r: Cells, m: seq<bool>): Cells {
    seq(8, i requires 0 <= i < 8 => r[i] != (i < |m| && m[i]))
  }

  /** Feeding up to eight bits is putting them on the register and shifting. */
  lemma {:induction false} FedIsShifted(r: Cells, m: seq<bool>)
    requires |m| <= 8
    ensures FedAll(r, m) == Shifts(XorHead(r, m), |m|)
    decreases |m|
  {
    if m == [] {
      assert XorHead(r, m) == r;
    } else {
      FedIsShifted(Fed(r, m[0]), m[1..]);
      HeadMoves(r, m);
    }
  }

  lemma HeadMoves(r: Cells, m: seq<bool>)
    requires 0 < |m| <= 8
    ensures Shift(XorHead(r, m)) == XorHead(Fed(r, m[0]), m[1..])
  {
    var a, b := Shift(XorHead(r, m)), XorHead(Fed(r, m[0]), m[1..]);
    forall i | 0 <= i < 8
      ensures a[i] == b[i]
    {
      assert i + 1 < |m| ==> m[1..][i] == m[i + 1];
    }
  }

  // ---- The CRC of bytes ------------------------------------------------------------------

  function BitsOf(bytes: seq<bv8>): (m: seq<bool>)
    ensures |m| == 8 * |bytes|
  {
    if bytes == [] then [] else BitsOf(bytes[..|bytes| - 1]) + CellsOf(bytes[|bytes| - 1])
  }

  lemma StepFeedsByte(crc: bv8, value: bv8)
    ensures CellsOf(CrcStep(DSCRC_TABLE, crc, value)) == FedAll(CellsOf(crc), CellsOf(value))
  {
    StepIsCrc(crc, value);
    CrcFeedsByte(crc, value, crc ^ value);
  }

  lemma CrcFeedsByte(crc: bv8, value: bv8, x: bv8)
    requires x == crc ^ value
    ensures CellsOf(ByteCrc(x)) == FedAll(CellsOf(crc), CellsOf(value))
  {
    CrcOfByte(x);
    XorOfBytes(crc, value);
    FedByte(CellsOf(crc), CellsOf(value));
  }

  lemma FedByte(r: Cells, m: Cells)
    ensures FedAll(r, m) == Shifts(Xor(r, m), 8)
  {
    FedIsShifted(r, m);
    assert XorHead(r, m) == Xor(r, m);
  }

  lemma {:induction false} FedJoins(r: Cells, a: seq<bool>, b: seq<bool>)
    ensures FedAll(r, a + b) == FedAll(FedAll(r, a), b)
    decreases |a|
  {
    if a == [] {
      assert a + b == b;
    } else {
      assert (a + b)[1..] == a[1..] + b;
      FedJoins(Fed(r, a[0]), a[1..], b);
    }
  }

  /** The table-driven CRC is the register after all bits. */
  lemma {:induction false} CrcFeedsBits(bytes: seq<bv8>)
    ensures CellsOf(Crc(DSCRC_TABLE, bytes)) == FedAll(ZEROS, BitsOf(bytes))
    decreases |bytes|
  {
    if bytes == [] {
      assert CellsOf(0) == ZEROS;
    } else {
      var init, last := bytes[..|bytes| - 1], bytes[|bytes| - 1];
      CrcFeedsBits(init);
      StepFeedsByte(Crc(DSCRC_TABLE, init), last);
      FedJoins(ZEROS, BitsOf(init), CellsOf(last));
    }
  }

  // ---- Long division ---------------------------------------------------------------------

  function XorFront(m: seq<bool>, r: Cells): (u: seq<bool>)
    requires |m| >= 8
    ensures |u| == |m|
  {
    Xor(m[..8], r) + m[8..]
  }

  /** Dividing what a register has been put on is feeding all but the last eight bits and putting it on those. */
  lemma {:induction false} DivisionFeeds(m: seq<bool>, r: Cells)
    requires |m| >= 8
    ensures Remainder(XorFront(m, r)) == Xor(m[|m| - 8..], FedAll(r, m[..|m| - 8]))
    decreases |m|
  {
    var n := |m| - 8;
    if n == 0 {
      assert m[..8] == m == m[n..] && XorFront(m, r) == Xor(m, r);
    } else {
      DivisionStep(m, r);
      DivisionFeeds(m[1..], Fed(r, m[0]));
      assert m[..n][1..] == m[1..][..n - 1];
      assert m[1..][n - 1..] == m[n..];
    }
  }

  lemma DivisionStep(m: seq<bool>, r: Cells)
    requires |m| > 8
    ensures Remainder(XorFront(m, r)) == Remainder(XorFront(m[1..], Fed(r, m[0])))
  {
    var u, w := XorFront(m, r), XorFront(m[1..], Fed(r, m[0]));
    var v := if u[0] then Xor(u[1..9], POLYNOMIAL) + u[9..] else u[1..];
    assert u[0] == (m[0] != r[0]);
    forall i | 0 <= i < |v|
      ensures v[i] == w[i]
    {
      assert i < 8 ==> u[1..9][i] == u[i + 1] && m[1..][i] == m[i + 1];
    }
    assert v == w;
  }

  /** Eight bytes pass the CRC exactly if the division of their 64 bits leaves nothing. */
  lemma CrcIsRemainder(bytes: seq<bv8>)
    requires |bytes| == 8
    ensures Crc(DSCRC_TABLE, bytes) == 0 <==> Remainder(ToBits(bytes)) == ZEROS
  {
    var seven, last := bytes[..7], bytes[7];
    var crc := Crc(DSCRC_TABLE, seven);
    var m := BitsOf(bytes);
    BitsOfEight(bytes);
    assert XorFront(m, ZEROS) == m;
    DivisionFeeds(m, ZEROS);
    assert m[56..] == CellsOf(last) && m[..56] == BitsOf(seven);
    CrcFeedsBits(seven);
    assert Remainder(m) == Xor(CellsOf(last), CellsOf(crc));
    SameCells(last, crc);
    TableZero();
    CrcStepZero(DSCRC_TABLE, crc, last);
  }

  lemma SameCells(a: bv8, b: bv8)
    ensures Xor(CellsOf(a), CellsOf(b)) == ZEROS <==> a == b
  {
    var x := Xor(CellsOf(a), CellsOf(b));
    if x == ZEROS {
      forall k: nat | k < 8
        ensures ByteBit(a, k) == ByteBit(b, k)
      {
        assert !x[k];
      }
      ByteByBits(a, b);
    }
  }

  lemma {:induction false} BitsOfAt(bytes: seq<bv8>, n: nat)
    requires n < 8 * |bytes|
    ensures BitsOf(bytes)[n] == ByteBit(bytes[n / 8], n % 8)
    decreases |bytes|
  {
    if n < 8 * (|bytes| - 1) { BitsOfAt(bytes[..|bytes| - 1], n); }
  }

  lemma BitsOfEight(bytes: seq<bv8>)
    requires |bytes| == 8
    ensures BitsOf(bytes) == ToBits(bytes)
  {
    forall n | 0 <= n < 64
      ensures BitsOf(bytes)[n] == ToBits(bytes)[n]
    {
      BitsOfAt(bytes, n);
    }
  }

  // ---- Any 64 bits are eight bytes -------------------------------------------------------

  /** The byte whose first `n` bits are those given, the others 0. */
  function ByteFrom(r: Cells, n: nat): bv8
    requires n <= 8
  {
    if n == 0 then 0 else WithBit(ByteFrom(r, n - 1), n - 1, r[n - 1])
  }

  lemma {:induction false} ByteFromBits(r: Cells, n: nat, j: nat)
    requires j < n <= 8
    ensures ByteBit(ByteFrom(r, n), j) == r[j]
  {
    WithBitBits(ByteFrom(r, n - 1), n - 1, r[n - 1], j);
    if j < n - 1 { ByteFromBits(r, n - 1, j); }
  }

  function BytesFrom(x: Rom): (bytes: seq<bv8>)
    ensures |bytes| == 8
  {
    seq(8, k requires 0 <= k < 8 => ByteFrom(x[8 * k..8 * k + 8], 8))
  }

  lemma BytesFromBack(x: Rom)
    ensures ToBits(BytesFrom(x)) == x
  {
    forall n | 0 <= n < 64
      ensures ToBits(BytesFrom(x))[n] == x[n]
    {
      var k := n / 8;
      ByteFromBits(x[8 * k..8 * k + 8], 8, n % 8);
    }
  }
}
