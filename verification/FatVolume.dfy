/** The disk and the FAT32 volume on it: sectors, the allocation table and cluster numbers. */
module FatVolume {
  import opened Basics
  import opened Bits

  type Sector = s: seq<Byte> | |s| == 512 witness seq(512, _ => 0)

  /** The medium: the sectors that can be read. Reading any other sector is a disk error. */
  type Disk = map<nat, Sector>

  datatype Option<T> = None | Some(value: T)

  /** The result codes of the file system functions. */
  datatype FResult = FrOk | FrDiskErr | FrNotReady | FrNoFile | FrNotOpened | FrNoFilesystem

  function Mod32(x: int): nat {
    x % TWO32
  }

  /** Part of one sector, or an error. */
  function ReadP(disk: Disk, sector: nat, offset: nat, count: nat): Option<seq<Byte>>
    requires offset + count <= 512
  {
    if sector in disk then Some(disk[sector][offset..offset + count]) else None
  }

  /** What sector `s` holds; an unreadable sector holds nothing anyone gets to see. */
  function SectorData(disk: Disk, s: nat): Sector {
    if s in disk then disk[s] else seq(512, _ => 0)
  }

  function LdWord(b: seq<Byte>): (r: nat)
    requires |b| >= 2
    ensures r < 0x1_0000
  {
    var lo: int, hi: int := b[0], b[1];
    256 * hi + lo
  }

  function LdDword(b: seq<Byte>): (r: nat)
    requires |b| >= 4
    ensures r < TWO32
  {
    0x1_0000 * LdWord(b[2..]) + LdWord(b)
  }

  /** The fields of the file system object that describe the mounted volume. */
  datatype Volume = Volume(csize: nat, nRootdir: nat, nFatent: nat, fatbase: nat, dirbase: nat, database: nat)

  /** The field widths; the cluster size is not 0 once a volume is mounted. */
  predicate Ranges(v: Volume) {
    && 1 <= v.csize < 256 && v.nRootdir < 0x1_0000 && v.nFatent < TWO32
    && v.fatbase < TWO32 && v.dirbase < TWO32 && v.database < TWO32
  }

  /** The link of a cluster in the table; 1 on an error. */
  function GetFat(disk: Disk, v: Volume, clst: nat): (r: nat)
    ensures r < TWO32
  {
    if clst < 2 || clst >= v.nFatent then 1
    else
      match ReadP(disk, Mod32(v.fatbase + clst / 128), clst % 128 * 4, 4)
      case None => 1
      case Some(b) => LdDword(b) % 0x1000_0000
  }

  /** The first sector of a cluster; 0 for an invalid cluster number. */
  function Clust2Sect(v: Volume, clst: nat): (r: nat)
    ensures r < TWO32
  {
    var c := Mod32(clst - 2);
    if c >= Mod32(v.nFatent - 2) then 0 else Mod32(Times(v.csize, c) + v.database)
  }

  /** A power of two up to 128. */
  ghost predicate PowerOfTwo(n: nat) {
    exists k: nat :: k <= 7 && n == Pow2(k)
  }

  /** A volume whose cluster arithmetic stays within 32 bits. */
  ghost predicate SoundVolume(v: Volume) {
    && Ranges(v)
    && PowerOfTwo(v.csize)
    && v.nFatent >= 2 && v.database > 0
    && Times(v.csize, v.nFatent - 2) + v.database <= TWO32
  }

  predicate ValidCluster(v: Volume, c: nat) {
    2 <= c < v.nFatent
  }

  /** All sectors of a cluster can be read. */
  ghost predicate Readable(disk: Disk, v: Volume, c: nat) {
    forall s: nat :: Clust2Sect(v, c) <= s < Clust2Sect(v, c) + v.csize ==> s in disk
  }

  /** Sectors of a valid cluster lie behind one another without wrapping. */
  lemma ClusterSectors(v: Volume, c: nat)
    requires SoundVolume(v) && ValidCluster(v, c)
    ensures Clust2Sect(v, c) == Times(v.csize, c - 2) + v.database
    ensures 0 < Clust2Sect(v, c) && Clust2Sect(v, c) + v.csize <= TWO32
  {
    TimesMonotone(v.csize, c - 1, v.nFatent - 2);
    ModSmall(c - 2);
    ModSmall(v.nFatent - 2);
    ModSmall(Times(v.csize, c - 2) + v.database);
  }

  lemma ModSmall(x: int)
    requires 0 <= x < TWO32
    ensures Mod32(x) == x
  {
  }

  /** With a power of two as cluster size, the mask in the source picks the sector within the cluster. */
  lemma SectorInCluster(v: Volume, s: nat)
    requires SoundVolume(v)
    ensures BitAnd(s, v.csize - 1) == Rest(s, v.csize)
  {
    var k: nat :| k <= 7 && v.csize == Pow2(k);
    LowMask(s, k);
  }

  // ---- Files as cluster chains -----------------------------------------------------------

  /** The clusters of a chain follow the links of the table from its first one. */
  ghost predicate Linked(disk: Disk, v: Volume, chain: seq<nat>) {
    && (forall i :: 0 <= i < |chain| ==> ValidCluster(v, chain[i]) && Readable(disk, v, chain[i]))
    && forall i :: 0 < i < |chain| ==> chain[i] == GetFat(disk, v, chain[i - 1])
  }

  /** The chain starts at cluster `first` and has room for `size` bytes. */
  ghost predicate FileChain(disk: Disk, v: Volume, first: nat, size: nat, chain: seq<nat>) {
    && Linked(disk, v, chain)
    && size < TWO32 && size <= 512 * Times(v.csize, |chain|)
    && (chain != [] ==> chain[0] == first)
  }

  /** A file of `size` bytes starting at cluster `first` is stored in `chain`. */
  ghost predicate StoredIn(disk: Disk, v: Volume, first: nat, size: nat, chain: seq<nat>) {
    SoundVolume(v) && FileChain(disk, v, first, size, chain)
  }

  /** The `n` sectors from `start` on, one after the other. */
  ghost function Sectors(disk: Disk, start: nat, n: nat): (r: seq<Byte>)
    ensures |r| == 512 * n
  {
    if n == 0 then [] else Sectors(disk, start, n - 1) + SectorData(disk, start + n - 1)
  }

  /** The data of runs of `csize` sectors, one run after the other. */
  ghost function Flatten(disk: Disk, csize: nat, starts: seq<nat>): seq<Byte> {
    if starts == [] then []
    else
      var n := |starts| - 1;
      Flatten(disk, csize, starts[..n]) + Sectors(disk, starts[n], csize)
  }

  /** Where the clusters of a chain start. */
  ghost function Starts(v: Volume, chain: seq<nat>): (r: seq<nat>)
    ensures |r| == |chain| && forall i :: 0 <= i < |chain| ==> r[i] == Clust2Sect(v, chain[i])
  {
    seq(|chain|, i requires 0 <= i < |chain| => Clust2Sect(v, chain[i]))
  }

  lemma {:induction false} FlattenLength(disk: Disk, csize: nat, starts: seq<nat>)
    ensures |Flatten(disk, csize, starts)| == 512 * Times(csize, |starts|)
  {
    if starts != [] {
      FlattenLength(disk, csize, starts[..|starts| - 1]);
    }
  }

  /** The bytes of a file: the data of the clusters of its chain, one after the other, cut to its size. */
  ghost function Content(disk: Disk, v: Volume, first: nat, size: nat, chain: seq<nat>): (r: seq<Byte>)
    requires StoredIn(disk, v, first, size, chain)
    ensures |r| == size
  {
    FlattenLength(disk, v.csize, Starts(v, chain));
    Flatten(disk, v.csize, Starts(v, chain))[..size]
  }

  /** `data` holds `part` from `at` on. */
  ghost predicate HoldsAt(data: seq<Byte>, at: nat, part: seq<Byte>) {
    at + |part| <= |data| && forall i :: 0 <= i < |part| ==> data[at + i] == part[i]
  }

  lemma HoldsPart(data: seq<Byte>, i: nat, part: seq<Byte>, j: nat, sector: Sector)
    requires HoldsAt(data, i, part) && HoldsAt(part, j, sector)
    ensures HoldsAt(data, i + j, sector)
  {
    forall k | 0 <= k < |sector|
      ensures data[i + j + k] == sector[k]
    {
      assert data[i + (j + k)] == part[j + k];
    }
  }

  lemma HoldsBehind(data: seq<Byte>, head: seq<Byte>, last: seq<Byte>)
    requires head + last <= data
    ensures HoldsAt(data, |head|, last)
  {
    forall k | 0 <= k < |last|
      ensures data[|head| + k] == last[k]
    {
      assert (head + last)[|head| + k] == last[k];
    }
  }

  lemma HeadHolds(head: seq<Byte>, tail: seq<Byte>, at: nat, sector: Sector)
    requires HoldsAt(head, at, sector)
    ensures HoldsAt(head + tail, at, sector)
  {
  }

  lemma TailHolds(head: seq<Byte>, tail: seq<Byte>, at: nat, sector: Sector)
    requires HoldsAt(tail, at, sector)
    ensures HoldsAt(head + tail, |head| + at, sector)
  {
  }

  lemma {:induction false} SectorsAt(disk: Disk, start: nat, n: nat, j: nat)
    requires j < n
    ensures HoldsAt(Sectors(disk, start, n), 512 * j, SectorData(disk, start + j))
  {
    var head, last := Sectors(disk, start, n - 1), SectorData(disk, start + n - 1);
    if j < n - 1 {
      SectorsAt(disk, start, n - 1, j);
      HeadHolds(head, last, 512 * j, SectorData(disk, start + j));
    } else {
      assert HoldsAt(last, 0, last);
      TailHolds(head, last, 0, last);
    }
  }

  lemma {:induction false} FlattenPrefix(disk: Disk, csize: nat, starts: seq<nat>, m: nat)
    requires m <= |starts|
    ensures Flatten(disk, csize, starts[..m]) <= Flatten(disk, csize, starts)
    decreases |starts|
  {
    var n := |starts| - 1;
    if m == |starts| {
      assert starts[..m] == starts;
    } else {
      FlattenPrefix(disk, csize, starts[..n], m);
      assert starts[..n][..m] == starts[..m];
    }
  }

  lemma FlattenNext(disk: Disk, csize: nat, starts: seq<nat>, q: nat)
    requires q < |starts|
    ensures HoldsAt(Flatten(disk, csize, starts), |Flatten(disk, csize, starts[..q])|, Sectors(disk, starts[q], csize))
  {
    var upto := starts[..q + 1];
    assert upto[..q] == starts[..q];
    FlattenPrefix(disk, csize, starts, q + 1);
    HoldsBehind(Flatten(disk, csize, starts), Flatten(disk, csize, starts[..q]), Sectors(disk, starts[q], csize));
  }

  /** Sector `r` of run `q` comes right after the runs before it and the sectors before it. */
  lemma FlattenAt(disk: Disk, csize: nat, starts: seq<nat>, q: nat, r: nat)
    requires q < |starts| && r < csize
    ensures HoldsAt(Flatten(disk, csize, starts), |Flatten(disk, csize, starts[..q])| + 512 * r, SectorData(disk, starts[q] + r))
  {
    var all, at := Flatten(disk, csize, starts), |Flatten(disk, csize, starts[..q])|;
    var last, sector := Sectors(disk, starts[q], csize), SectorData(disk, starts[q] + r);
    assert HoldsAt(all, at, last) by { FlattenNext(disk, csize, starts, q); }
    assert HoldsAt(last, 512 * r, sector) by { SectorsAt(disk, starts[q], csize, r); }
    HoldsPart(all, at, last, 512 * r, sector);
  }

  /** Where byte `p` of a file is: the sector that holds it. */
  ghost function SectorOf(v: Volume, chain: seq<nat>, p: nat): nat
    requires Quot(p / 512, v.csize) < |chain|
  {
    Clust2Sect(v, chain[Quot(p / 512, v.csize)]) + Rest(p / 512, v.csize)
  }

  /** Every byte of a file is in some cluster of its chain, in a sector that can be read. */
  lemma InChain(disk: Disk, v: Volume, first: nat, size: nat, chain: seq<nat>, p: nat)
    requires StoredIn(disk, v, first, size, chain) && p < size
    ensures Quot(p / 512, v.csize) < |chain|
    ensures SectorOf(v, chain, p) in disk
  {
    QuotBound(p / 512, v.csize, |chain|);
    QuotRest(p / 512, v.csize);
    assert Readable(disk, v, chain[Quot(p / 512, v.csize)]);
  }

  /** A piece of a file within one sector is that piece of the sector. */
  lemma PieceOfFile(disk: Disk, v: Volume, first: nat, size: nat, chain: seq<nat>, p: nat, n: nat)
    requires StoredIn(disk, v, first, size, chain)
    requires p % 512 + n <= 512 && 0 < n && p + n <= size
    requires Quot(p / 512, v.csize) < |chain| && SectorOf(v, chain, p) in disk
    ensures Content(disk, v, first, size, chain)[p..p + n] == disk[SectorOf(v, chain, p)][p % 512..p % 512 + n]
  {
    PieceOfChain(disk, v, size, chain, p, n);
  }

  lemma PieceOfChain(disk: Disk, v: Volume, size: nat, chain: seq<nat>, p: nat, n: nat)
    requires v.csize > 0 && size <= 512 * Times(v.csize, |chain|)
    requires p % 512 + n <= 512 && p + n <= size
    requires Quot(p / 512, v.csize) < |chain|
    ensures size <= |Flatten(disk, v.csize, Starts(v, chain))|
    ensures Flatten(disk, v.csize, Starts(v, chain))[..size][p..p + n]
         == SectorData(disk, SectorOf(v, chain, p))[p % 512..p % 512 + n]
  {
    var starts := Starts(v, chain);
    assert size <= |Flatten(disk, v.csize, starts)| by { FlattenLength(disk, v.csize, starts); }
    assert starts[Quot(p / 512, v.csize)] + Rest(p / 512, v.csize) == SectorOf(v, chain, p);
    PieceOfRuns(disk, v.csize, starts, size, p, n);
  }

  lemma PieceOfRuns(disk: Disk, csize: nat, starts: seq<nat>, size: nat, p: nat, n: nat)
    requires csize > 0 && p % 512 + n <= 512 && p + n <= size <= |Flatten(disk, csize, starts)|
    requires Quot(p / 512, csize) < |starts|
    ensures Flatten(disk, csize, starts)[..size][p..p + n] ==
      SectorData(disk, starts[Quot(p / 512, csize)] + Rest(p / 512, csize))[p % 512..p % 512 + n]
  {
    var s := p / 512;
    var q, r := Quot(s, csize), Rest(s, csize);
    var all, sector := Flatten(disk, csize, starts), SectorData(disk, starts[q] + r);
    assert r < csize && s == Times(csize, q) + r by { QuotRest(s, csize); }
    assert |Flatten(disk, csize, starts[..q])| + 512 * r == 512 * s by { FlattenLength(disk, csize, starts[..q]); }
    assert HoldsAt(all, 512 * s, sector) by { FlattenAt(disk, csize, starts, q, r); }
    PieceOfPiece(all, size, s, p, p % 512, n, sector);
  }

  lemma PieceOfPiece(all: seq<Byte>, size: nat, s: nat, p: nat, o: nat, n: nat, sector: Sector)
    requires p == 512 * s + o && o + n <= 512 && p + n <= size <= |all| && HoldsAt(all, 512 * s, sector)
    ensures all[..size][p..p + n] == sector[o..o + n]
  {
    var piece, part := all[..size][p..p + n], sector[o..o + n];
    forall i | 0 <= i < n
      ensures piece[i] == part[i]
    {
      assert all[512 * s + (o + i)] == sector[o + i];
    }
  }

  // ---- Numbers on the medium -------------------------------------------------------------

  /** The 16-bit and the 32-bit number at a place, lowest byte first. */
  function Int16At(a: seq<Byte>, i: nat): (r: nat)
    requires i + 2 <= |a|
  {
    var b0: int, b1: int := a[i], a[i + 1];
    b0 + 256 * b1
  }

  function Int32At(a: seq<Byte>, i: nat): (r: nat)
    requires i + 4 <= |a|
  {
    var b0: int, b1: int, b2: int, b3: int := a[i], a[i + 1], a[i + 2], a[i + 3];
    b0 + 256 * b1 + 65536 * b2 + 16777216 * b3
  }

  lemma LoadsAre(a: seq<Byte>, i: nat)
    ensures i + 2 <= |a| ==> LdWord(a[i..i + 2]) == Int16At(a, i)
    ensures i + 4 <= |a| ==> LdDword(a[i..i + 4]) == Int32At(a, i)
  {
    if i + 4 <= |a| {
      var b := a[i..i + 4];
      assert b[2..][0] == a[i + 2] && b[2..][1] == a[i + 3];
    }
  }

  /** The table is one array of 32-bit entries over the sectors from `fatbase` on; a link is the low 28 bits of its
      cluster's entry. */
  lemma GetFatIs(disk: Disk, v: Volume, c: nat, n: nat)
    requires ValidCluster(v, c) && v.fatbase + n <= TWO32 && 4 * c + 4 <= 512 * n && v.fatbase + c / 128 in disk
    ensures GetFat(disk, v, c) == Int32At(Sectors(disk, v.fatbase, n), 4 * c) % 268435456
  {
    var area, s, o := Sectors(disk, v.fatbase, n), c / 128, c % 128 * 4;
    var sector := SectorData(disk, v.fatbase + s);
    assert HoldsAt(area, 512 * s, sector) by { SectorsAt(disk, v.fatbase, n, s); }
    SameNumber(area, 512 * s, sector, o);
    assert 512 * s + o == 4 * c;
    LoadsAre(sector, o);
    ModSmall(v.fatbase + s);
  }

  lemma SameNumber(all: seq<Byte>, at: nat, sector: Sector, o: nat)
    requires HoldsAt(all, at, sector) && o + 4 <= 512
    ensures Int32At(all, at + o) == Int32At(sector, o)
  {
    assert sector[o] == all[at + o] && sector[o + 1] == all[at + (o + 1)];
    assert sector[o + 2] == all[at + (o + 2)] && sector[o + 3] == all[at + (o + 3)];
  }

  /** Outside the table, or where it cannot be read, the link is 1. */
  lemma NoLink(disk: Disk, v: Volume, c: nat)
    requires v.fatbase + c / 128 < TWO32
    ensures !ValidCluster(v, c) || v.fatbase + c / 128 !in disk ==> GetFat(disk, v, c) == 1
  {
    ModSmall(v.fatbase + c / 128);
  }

  // ---- The same in the usual operators ---------------------------------------------------

  lemma SoundVolumeIs(v: Volume)
    requires v.nFatent >= 2
    ensures SoundVolume(v) <==> Ranges(v) && PowerOfTwo(v.csize) && v.database > 0 && v.csize * (v.nFatent - 2) + v.database <= TWO32
  {
    TimesIsMul(v.csize, v.nFatent - 2);
  }

  lemma Clust2SectIs(v: Volume, clst: nat)
    ensures var c := Mod32(clst - 2);
      Clust2Sect(v, clst) == if c >= Mod32(v.nFatent - 2) then 0 else Mod32(c * v.csize + v.database)
  {
    TimesIsMul(v.csize, Mod32(clst - 2));
  }

  /** The mask in the source is the remainder: sector `s` of a file is sector `s % csize` of cluster `s / csize` of its chain. */
  lemma SectorOfIs(v: Volume, chain: seq<nat>, p: nat, s: nat, q: nat)
    requires SoundVolume(v) && s == p / 512 && q == s / v.csize && q < |chain|
    ensures BitAnd(s, v.csize - 1) == s % v.csize && q == Quot(s, v.csize)
    ensures SectorOf(v, chain, p) == Clust2Sect(v, chain[q]) + s % v.csize
  {
    SectorInCluster(v, s);
    QuotIsDiv(s, v.csize);
  }

  lemma StoredInIs(disk: Disk, v: Volume, first: nat, size: nat, chain: seq<nat>)
    ensures StoredIn(disk, v, first, size, chain) <==>
      && SoundVolume(v) && Linked(disk, v, chain)
      && size < TWO32 && size <= 512 * (v.csize * |chain|) && (chain != [] ==> chain[0] == first)
  {
    TimesIsMul(v.csize, |chain|);
  }
}
