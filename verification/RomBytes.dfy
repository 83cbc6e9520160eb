/** ROM numbers as the search keeps them: eight bytes edited under a sliding mask, checked by the CRC table. */
module RomBytes {
  import opened RomOrder

  /** The mask `rom_byte_mask` holds at bit `k` of a byte. */
  function Mask(k: nat): bv8
    requires k < 8
  {
    if k == 0 then 1 else if k == 1 then 2 else if k == 2 then 4 else if k == 3 then 8 else
    if k == 4 then 16 else if k == 5 then 32 else if k == 6 then 64 else 128
  }

  /** Shifting the mask reaches the next bit, or runs out after the eighth. */
  lemma NextMask(k: nat)
    requires k < 8
    ensures Mask(k) << 1 == if k < 7 then Mask(k + 1) else 0
    ensures Mask(k) != 0
  {
  }

  predicate ByteBit(b: bv8, k: nat)
    requires k < 8
  {
    b & Mask(k) != 0
  }

  /** The eight bytes as the 64 bits on the wire. */
  function ToBits(bytes: seq<bv8>): Rom
    requires |bytes| == 8
  {
    seq(64, n requires 0 <= n < 64 => ByteBit(bytes[n / 8], n % 8))
  }

  /** `b` with bit `k` set or cleared. */
  function WithBit(b: bv8, k: nat, value: bool): bv8
    requires k < 8
  {
    if value then b | Mask(k) else b & !Mask(k)
  }

  lemma WithBitBits(b: bv8, k: nat, value: bool, j: nat)
    requires k < 8 && j < 8
    ensures ByteBit(WithBit(b, k, value), j) == if j == k then value else ByteBit(b, j)
  {
  }

  /** Editing one bit of one byte edits that bit of the ROM number and no other. */
  lemma EditBit(bytes: seq<bv8>, n: nat, value: bool)
    requires |bytes| == 8 && n < 64
    ensures ToBits(bytes[n / 8 := WithBit(bytes[n / 8], n % 8, value)]) == ToBits(bytes)[n := value]
  {
    var edited := bytes[n / 8 := WithBit(bytes[n / 8], n % 8, value)];
    forall m | 0 <= m < 64
      ensures ToBits(edited)[m] == ToBits(bytes)[n := value][m]
    {
      WithBitBits(bytes[n / 8], n % 8, value, m % 8);
      assert m == n <==> m / 8 == n / 8 && m % 8 == n % 8;
    }
  }

  lemma ByteByBits(a: bv8, b: bv8)
    requires forall k: nat :: k < 8 ==> ByteBit(a, k) == ByteBit(b, k)
    ensures a == b
  {
    assert ByteBit(a, 0) == ByteBit(b, 0);
    assert ByteBit(a, 1) == ByteBit(b, 1);
    assert ByteBit(a, 2) == ByteBit(b, 2);
    assert ByteBit(a, 3) == ByteBit(b, 3);
    assert ByteBit(a, 4) == ByteBit(b, 4);
    assert ByteBit(a, 5) == ByteBit(b, 5);
    assert ByteBit(a, 6) == ByteBit(b, 6);
    assert ByteBit(a, 7) == ByteBit(b, 7);
  }

  /** ROM numbers that agree on their first 8·n bits have the same first n bytes. */
  lemma AgreeOnBytes(a: seq<bv8>, b: seq<bv8>, n: nat)
    requires |a| == |b| == 8 && n <= 8 && Agree(ToBits(a), ToBits(b), 8 * n)
    ensures a[..n] == b[..n]
  {
    forall j | 0 <= j < n
      ensures a[j] == b[j]
    {
      forall k: nat | k < 8
        ensures ByteBit(a[j], k) == ByteBit(b[j], k)
      {
        assert (8 * j + k) / 8 == j && (8 * j + k) % 8 == k;
        assert ToBits(a)[8 * j + k] == ToBits(b)[8 * j + k];
      }
      ByteByBits(a[j], b[j]);
    }
  }

  lemma BytesFromBits(a: seq<bv8>, b: seq<bv8>)
    requires |a| == |b| == 8 && ToBits(a) == ToBits(b)
    ensures a == b
  {
    AgreeOnBytes(a, b, 8);
    assert a[..8] == a && b[..8] == b;
  }

  /** A table of 256 bytes, in sixteen rows of sixteen. */
  type CrcTable = t: seq<seq<bv8>> | |t| == 16 && forall i :: 0 <= i < 16 ==> |t[i]| == 16
    witness seq(16, _ => seq(16, _ => 0))

  /** The CRC table of Application Note 27, row by row. */
  function DsCrcRow(k: nat): (row: seq<bv8>)
    requires k < 16
    ensures |row| == 16
  {
    match k
    case 0 => [0, 94, 188, 226, 97, 63, 221, 131, 194, 156, 126, 32, 163, 253, 31, 65]
    case 1 => [157, 195, 33, 127, 252, 162, 64, 30, 95, 1, 227, 189, 62, 96, 130, 220]
    case 2 => [35, 125, 159, 193, 66, 28, 254, 160, 225, 191, 93, 3, 128, 222, 60, 98]
    case 3 => [190, 224, 2, 92, 223, 129, 99, 61, 124, 34, 192, 158, 29, 67, 161, 255]
    case 4 => [70, 24, 250, 164, 39, 121, 155, 197, 132, 218, 56, 102, 229, 187, 89, 7]
    case 5 => [219, 133, 103, 57, 186, 228, 6, 88, 25, 71, 165, 251, 120, 38, 196, 154]
    case 6 => [101, 59, 217, 135, 4, 90, 184, 230, 167, 249, 27, 69, 198, 152, 122, 36]
    case 7 => [248, 166, 68, 26, 153, 199, 37, 123, 58, 100, 134, 216, 91, 5, 231, 185]
    case 8 => [140, 210, 48, 110, 237, 179, 81, 15, 78, 16, 242, 172, 47, 113, 147, 205]
    case 9 => [17, 79, 173, 243, 112, 46, 204, 146, 211, 141, 111, 49, 178, 236, 14, 80]
    case 10 => [175, 241, 19, 77, 206, 144, 114, 44, 109, 51, 209, 143, 12, 82, 176, 238]
    case 11 => [50, 108, 142, 208, 83, 13, 239, 177, 240, 174, 76, 18, 145, 207, 45, 115]
    case 12 => [202, 148, 118, 40, 171, 245, 23, 73, 8, 86, 180, 234, 105, 55, 213, 139]
    case 13 => [87, 9, 235, 181, 54, 104, 138, 212, 149, 203, 41, 119, 244, 170, 72, 22]
    case 14 => [233, 183, 85, 11, 136, 214, 52, 106, 43, 117, 151, 201, 74, 20, 246, 168]
    case _ => [116, 42, 200, 150, 21, 75, 169, 247, 182, 232, 10, 84, 215, 137, 107, 53]
  }

  const DSCRC_TABLE: CrcTable := [
    DsCrcRow(0), DsCrcRow(1), DsCrcRow(2), DsCrcRow(3), DsCrcRow(4), DsCrcRow(5), DsCrcRow(6), DsCrcRow(7),
    DsCrcRow(8), DsCrcRow(9), DsCrcRow(10), DsCrcRow(11), DsCrcRow(12), DsCrcRow(13), DsCrcRow(14), DsCrcRow(15)
  ]

  ghost predicate ZeroOnlyAtZero(table: CrcTable) {
    forall i :: 0 <= i < 256 ==> (table[i / 16][i % 16] == 0 <==> i == 0)
  }

  /** One table step. */
  function CrcStep(table: CrcTable, crc: bv8, value: bv8): bv8
  {
    var i := (crc ^ value) as nat;
    table[i / 16][i % 16]
  }

  /** The CRC of the given bytes. */
  function Crc(table: CrcTable, bytes: seq<bv8>): bv8
  {
    if bytes == [] then 0 else CrcStep(table, Crc(table, bytes[..|bytes| - 1]), bytes[|bytes| - 1])
  }

  lemma CrcAppend(table: CrcTable, bytes: seq<bv8>, value: bv8)
    ensures Crc(table, bytes + [value]) == CrcStep(table, Crc(table, bytes), value)
  {
    assert (bytes + [value])[..|bytes|] == bytes;
  }

  lemma ByteZero(i: bv8)
    ensures i as nat == 0 <==> i == 0
  {
    if i as nat == 0 { assert i == 0 as bv8; }
  }

  lemma XorZero(a: bv8, b: bv8)
    ensures a ^ b == 0 <==> a == b
  {
  }

  lemma CrcStepZero(table: CrcTable, crc: bv8, value: bv8)
    requires ZeroOnlyAtZero(table)
    ensures CrcStep(table, crc, value) == 0 <==> crc == value
  {
    var i: nat := (crc ^ value) as nat;
    assert table[i / 16][i % 16] == 0 <==> i == 0;
    ByteZero(crc ^ value);
    XorZero(crc, value);
  }

  /** With the CRC right, the last byte is determined by the others. */
  lemma CrcDecidesLast(table: CrcTable, sofar: seq<bv8>, value: bv8)
    requires ZeroOnlyAtZero(table) && Crc(table, sofar + [value]) == 0
    ensures value == Crc(table, sofar)
  {
    CrcAppend(table, sofar, value);
    CrcStepZero(table, Crc(table, sofar), value);
  }

  lemma SevenBytesDecide(table: CrcTable, a: seq<bv8>, b: seq<bv8>)
    requires ZeroOnlyAtZero(table) && |a| == |b| == 8
    requires Crc(table, a) == Crc(table, b) == 0 && a[..7] == b[..7]
    ensures a == b
  {
    assert a == a[..7] + [a[7]] && b == b[..7] + [b[7]];
    CrcDecidesLast(table, a[..7], a[7]);
    CrcDecidesLast(table, b[..7], b[7]);
  }

  lemma RowZero0(k: nat, j: nat)
    requires 0 <= k < 4 && j < 16
    ensures DsCrcRow(k)[j] == 0 <==> k == j == 0
  {
  }

  lemma RowZero1(k: nat, j: nat)
    requires 4 <= k < 8 && j < 16
    ensures DsCrcRow(k)[j] == 0 <==> k == j == 0
  {
  }

  lemma RowZero2(k: nat, j: nat)
    requires 8 <= k < 12 && j < 16
    ensures DsCrcRow(k)[j] == 0 <==> k == j == 0
  {
  }

  lemma RowZero3(k: nat, j: nat)
    requires 12 <= k < 16 && j < 16
    ensures DsCrcRow(k)[j] == 0 <==> k == j == 0
  {
  }

  /** The table is 0 at index 0 and nowhere else. */
  lemma TableZero()
    ensures ZeroOnlyAtZero(DSCRC_TABLE)
  {
    forall i | 0 <= i < 256
      ensures DSCRC_TABLE[i / 16][i % 16] == 0 <==> i == 0
    {
      var k, j := i / 16, i % 16;
      if k < 4 { RowZero0(k, j); } else if k < 8 { RowZero1(k, j); } else if k < 12 { RowZero2(k, j); } else { RowZero3(k, j); }
      TableRows(k);
    }
  }

  lemma TableRows(k: nat)
    requires k < 16
    ensures DSCRC_TABLE[k] == DsCrcRow(k)
  {
  }
}
