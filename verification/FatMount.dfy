/** Mounting a volume: from the boot sector to the geometry the file functions work with. */
module FatMount {
  import opened Basics
  import opened Bits
  import opened FatVolume

  /** What a boot sector probe finds. */
  datatype Probe = FatBoot | OtherBoot | NoBoot | ProbeError

  /** Unsigned division as the processor does it: dividing by 0 gives all ones. */
  function DivU(a: nat, b: nat): nat {
    if b == 0 then TWO32 - 1 else a / b
  }

  /** The 36 bytes of the boot sector from offset 13 on, by the names of the BIOS parameter block. */
  datatype Bpb = Bpb(secPerClus: nat, rsvdSecCnt: nat, numFats: nat, rootEntCnt: nat, totSec16: nat, fatSz16: nat,
                     totSec32: nat, fatSz32: nat, rootClus: nat)

  function ReadBpb(buf: seq<Byte>): Bpb
    requires |buf| == 36
  {
    Bpb(buf[0], LdWord(buf[1..3]), buf[3], LdWord(buf[4..6]), LdWord(buf[6..8]), LdWord(buf[9..11]),
        LdDword(buf[19..23]), LdDword(buf[23..27]), LdDword(buf[31..35]))
  }

  /** The sectors of one copy of the table, and of the volume. */
  function FatSize(b: Bpb): nat {
    if b.fatSz16 != 0 then b.fatSz16 else b.fatSz32
  }

  function TotalSectors(b: Bpb): nat {
    if b.totSec16 != 0 then b.totSec16 else b.totSec32
  }

  /** The geometry computed from the parameter block of a volume whose boot sector is `bsect`. */
  function Geometry(b: Bpb, bsect: nat): Volume {
    var fsize := Mod32(FatSize(b) * b.numFats);
    var fatbase := Mod32(bsect + b.rsvdSecCnt);
    var mclst := Mod32(DivU(Mod32(TotalSectors(b) - b.rsvdSecCnt - fsize - b.rootEntCnt / 16), b.secPerClus) + 2);
    Volume(b.secPerClus, b.rootEntCnt, mclst, fatbase, b.rootClus, Mod32(fatbase + fsize + b.rootEntCnt / 16))
  }

  /** The sizes of a block's areas add up without leaving the volume, and sector and cluster
      numbers without leaving 32 bits. */
  predicate Fits(b: Bpb, bsect: nat) {
    && b.secPerClus > 0
    && b.rsvdSecCnt + FatSize(b) * b.numFats + b.rootEntCnt / 16 <= TotalSectors(b)
    && bsect + TotalSectors(b) + 2 < TWO32
  }

  function CheckFs(disk: Disk, sect: nat): Probe {
    match ReadP(disk, sect, 510, 2)
    case None => ProbeError
    case Some(sig) =>
      if LdWord(sig) != 0xAA55 then NoBoot
      else
        match ReadP(disk, sect, 82, 2)
        case Some(kind) => if LdWord(kind) == 0x4146 then FatBoot else OtherBoot
        case None => OtherBoot
  }

  /** The boot sector of the volume, found at sector 0 or through the first partition entry. */
  function FindBoot(disk: Disk): (Probe, nat) {
    var fmt := CheckFs(disk, 0);
    if fmt == OtherBoot then
      match ReadP(disk, 0, 446, 16)
      case None => (ProbeError, 0)
      case Some(entry) =>
        if entry[4] != 0 then
          var bsect := LdDword(entry[8..12]);
          (CheckFs(disk, bsect), bsect)
        else (fmt, 0)
    else (fmt, 0)
  }

  // ---- What is on the medium, byte by byte -----------------------------------------------

  /** The sector ends with the boot signature. */
  predicate IsBoot(disk: Disk, s: nat) {
    s in disk && disk[s][510] == 0x55 && disk[s][511] == 0xAA
  }

  /** The sector is the boot sector of a FAT32 volume: its file system type starts with "FA". */
  predicate IsFat32(disk: Disk, s: nat) {
    IsBoot(disk, s) && disk[s][82] == 0x46 && disk[s][83] == 0x41
  }

  /** The volume's boot sector is sector 0, or the one the first partition entry of sector 0 names. */
  predicate BootsAt(disk: Disk, p: nat) {
    if IsFat32(disk, 0) then p == 0
    else IsBoot(disk, 0) && disk[0][450] != 0 && p == Int32At(disk[0], 454) && IsFat32(disk, p)
  }

  /** The fields of the parameter block, by their offsets in the boot sector. */
  function BlockAt(boot: Sector): Bpb {
    Bpb(boot[13], Int16At(boot, 14), boot[16], Int16At(boot, 17), Int16At(boot, 19), Int16At(boot, 22),
        Int32At(boot, 32), Int32At(boot, 36), Int32At(boot, 44))
  }

  lemma BlockIs(boot: Sector)
    ensures ReadBpb(boot[13..49]) == BlockAt(boot)
  {
    var buf := boot[13..49];
    WordIs(boot, buf, 14);
    WordIs(boot, buf, 17);
    WordIs(boot, buf, 19);
    WordIs(boot, buf, 22);
    WordIs(boot, buf, 32);
    WordIs(boot, buf, 36);
    WordIs(boot, buf, 44);
  }

  lemma WordIs(boot: Sector, buf: seq<Byte>, i: nat)
    requires buf == boot[13..49] && 13 <= i <= 45
    ensures LdWord(buf[i - 13..i - 11]) == Int16At(boot, i)
    ensures LdDword(buf[i - 13..i - 9]) == Int32At(boot, i)
  {
    LoadsAre(buf, i - 13);
  }

  /** What probing a sector finds. */
  lemma CheckFsIs(disk: Disk, s: nat)
    ensures CheckFs(disk, s) ==
      if s !in disk then ProbeError else if !IsBoot(disk, s) then NoBoot else if IsFat32(disk, s) then FatBoot else OtherBoot
  {
    if s in disk {
      LoadsAre(disk[s], 510);
      LoadsAre(disk[s], 82);
    }
  }

  /** The boot sector is found exactly where the medium has it. */
  lemma FindBootIs(disk: Disk)
    ensures forall p: nat :: BootsAt(disk, p) ==> FindBoot(disk) == (FatBoot, p)
    ensures (forall p: nat :: !BootsAt(disk, p)) ==> FindBoot(disk).0 != FatBoot
    ensures 0 !in disk ==> FindBoot(disk).0 == ProbeError
    ensures 0 in disk && !IsBoot(disk, 0) ==> FindBoot(disk).0 == NoBoot
  {
    CheckFsIs(disk, 0);
    if IsBoot(disk, 0) {
      var entry, p := disk[0][446..462], Int32At(disk[0], 454);
      LoadsAre(entry, 8);
      assert entry[4] == disk[0][450] && LdDword(entry[8..12]) == p;
      CheckFsIs(disk, p);
      if IsFat32(disk, 0) { assert BootsAt(disk, 0); } else { assert entry[4] != 0 && IsFat32(disk, p) ==> BootsAt(disk, p); }
    }
  }

  class Drive {
    const disk: Disk
    const noInit: bool
    var volume: Volume
    var flag: nat
    var mounted: bool

    constructor (disk: Disk, noInit: bool)
      ensures this.disk == disk && this.noInit == noInit && !mounted
    {
      this.disk, this.noInit := disk, noInit;
      volume, flag, mounted := Volume(0, 0, 0, 0, 0, 0), 0, false;
    }

    /** Mounts the volume on the drive; only FAT32 volumes are accepted. */
    method Mount() returns (res: FResult)
      modifies this
      ensures mounted <==> res == FrOk
      ensures res == FrNotReady <==> noInit
      ensures res == FrOk ==> flag == 0 && Ranges(volume) && volume.nFatent >= 0xFFF7
      ensures res == FrOk ==>
        var (fmt, bsect) := FindBoot(disk);
        fmt == FatBoot && bsect in disk && volume == Geometry(ReadBpb(disk[bsect][13..49]), bsect)
      ensures !noInit && FindBoot(disk).0 == FatBoot ==>
        var bsect := FindBoot(disk).1;
        && bsect in disk
        && res == if Geometry(ReadBpb(disk[bsect][13..49]), bsect).nFatent >= 0xFFF7 then FrOk else FrNoFilesystem
      ensures !noInit && FindBoot(disk).0 == ProbeError ==> res == FrDiskErr
      ensures forall p: nat :: !noInit && BootsAt(disk, p) ==>
        var v := Geometry(BlockAt(disk[p]), p);
        if v.nFatent >= 0xFFF7 then res == FrOk && volume == v else res == FrNoFilesystem
      ensures (forall p: nat :: !BootsAt(disk, p)) ==> res != FrOk
      ensures !noInit && (FindBoot(disk).0 == OtherBoot || FindBoot(disk).0 == NoBoot) ==> res == FrNoFilesystem
    {
      FindBootIs(disk);
      mounted := false;
      if noInit {
        return FrNotReady;
      }
      var bsect := 0;
      var fmt := CheckFs(disk, bsect);
      if fmt == OtherBoot {
        var entry := ReadP(disk, bsect, 446, 16);
        if entry.None? {
          fmt := ProbeError;
        } else if entry.value[4] != 0 {
          bsect := LdDword(entry.value[8..12]);
          fmt := CheckFs(disk, bsect);
        }
      }
      if fmt == ProbeError {
        return FrDiskErr;
      }
      if fmt != FatBoot {
        return FrNoFilesystem;
      }
      var buf := ReadP(disk, bsect, 13, 36);
      if buf.None? {
        return FrDiskErr;
      }
      BlockIs(disk[bsect]);
      res := SetUp(ReadBpb(buf.value), bsect);
    }

    /** Computes the geometry from the parameter block of the boot sector. */
    method SetUp(b: Bpb, bsect: nat) returns (res: FResult)
      requires !mounted && b.secPerClus < 256 && b.rootEntCnt < 0x1_0000 && b.rootClus < TWO32
      modifies `volume, `flag, `mounted
      ensures mounted <==> res == FrOk
      ensures res == if Geometry(b, bsect).nFatent >= 0xFFF7 then FrOk else FrNoFilesystem
      ensures res == FrOk ==> flag == 0 && volume == Geometry(b, bsect) && Ranges(volume)
    {
      var fsize := b.fatSz16;
      if fsize == 0 {
        fsize := b.fatSz32;
      }
      fsize := Mod32(fsize * b.numFats);
      var fatbase := Mod32(bsect + b.rsvdSecCnt);
      var tsect := b.totSec16;
      if tsect == 0 {
        tsect := b.totSec32;
      }
      var mclst := Mod32(DivU(Mod32(tsect - b.rsvdSecCnt - fsize - b.rootEntCnt / 16), b.secPerClus) + 2);
      volume := volume.(fatbase := fatbase, csize := b.secPerClus, nRootdir := b.rootEntCnt, nFatent := mclst);
      if mclst < 0xFFF7 {
        return FrNoFilesystem;
      }
      volume := volume.(dirbase := b.rootClus, database := Mod32(fatbase + fsize + b.rootEntCnt / 16));
      flag, mounted := 0, true;
      res := FrOk;
    }
  }

  /** The cluster areas lie in the volume behind its tables: for every block that fits, each valid cluster's sectors
      come after the table area and before the end of the volume, and distinct clusters share none. */
  lemma ClustersAreDisjoint(b: Bpb, bsect: nat, c: nat, d: nat)
    requires Fits(b, bsect)
    requires var v := Geometry(b, bsect); ValidCluster(v, c) && ValidCluster(v, d) && c < d
    ensures var v := Geometry(b, bsect);
      && v.fatbase + FatSize(b) * b.numFats <= v.database <= Clust2Sect(v, c)
      && Clust2Sect(v, c) + v.csize <= Clust2Sect(v, d)
      && Clust2Sect(v, d) + v.csize <= bsect + TotalSectors(b)
  {
    var v := Geometry(b, bsect);
    AreaAt(b, bsect, c);
    AreaAt(b, bsect, d);
    TimesMonotone(v.csize, c - 1, d - 2);
  }

  /** The layout of a volume whose block fits, field by field: a 16-bit size counts unless it is 0. */
  lemma LayoutIs(b: Bpb, bsect: nat, tables: nat, total: nat)
    requires Fits(b, bsect)
    requires tables == (if b.fatSz16 == 0 then b.fatSz32 else b.fatSz16) * b.numFats
    requires total == if b.totSec16 == 0 then b.totSec32 else b.totSec16
    ensures var v := Geometry(b, bsect); var data := total - b.rsvdSecCnt - tables - b.rootEntCnt / 16;
      && v.csize == b.secPerClus && v.nRootdir == b.rootEntCnt && v.dirbase == b.rootClus
      && v.fatbase == bsect + b.rsvdSecCnt && v.database == v.fatbase + tables + b.rootEntCnt / 16
      && data >= 0 && v.nFatent == data / b.secPerClus + 2
  {
    var data := NoWrapping(b, bsect);
  }

  /** Where the sectors of a cluster are. */
  lemma AreaOf(b: Bpb, bsect: nat, c: nat)
    requires Fits(b, bsect) && ValidCluster(Geometry(b, bsect), c)
    ensures var v := Geometry(b, bsect);
      && v.fatbase == bsect + b.rsvdSecCnt
      && v.database == v.fatbase + FatSize(b) * b.numFats + b.rootEntCnt / 16
      && v.csize == b.secPerClus && v.dirbase == b.rootClus
      && Clust2Sect(v, c) == v.database + v.csize * (c - 2)
      && Clust2Sect(v, c) + v.csize <= bsect + TotalSectors(b)
  {
    AreaAt(b, bsect, c);
    TimesIsMul(b.secPerClus, c - 2);
  }

  lemma AreaAt(b: Bpb, bsect: nat, c: nat)
    requires Fits(b, bsect) && ValidCluster(Geometry(b, bsect), c)
    ensures var v := Geometry(b, bsect);
      && v.fatbase == bsect + b.rsvdSecCnt
      && v.database == v.fatbase + FatSize(b) * b.numFats + b.rootEntCnt / 16
      && Clust2Sect(v, c) == v.database + Times(v.csize, c - 2)
      && Clust2Sect(v, c) + v.csize <= bsect + TotalSectors(b)
  {
    var v := Geometry(b, bsect);
    var data := NoWrapping(b, bsect);
    var n := data / b.secPerClus;
    QuotIsDiv(data, b.secPerClus);
    QuotRest(data, b.secPerClus);
    TimesMonotone(b.secPerClus, c - 1, n);
    ModSmall(c - 2);
    ModSmall(v.nFatent - 2);
    ModSmall(v.database + Times(v.csize, c - 2));
  }

  /** With a block that fits, nothing in the geometry wraps: the sectors left for data, and what is made of them. */
  lemma NoWrapping(b: Bpb, bsect: nat) returns (data: nat)
    requires Fits(b, bsect)
    ensures data == TotalSectors(b) - b.rsvdSecCnt - FatSize(b) * b.numFats - b.rootEntCnt / 16
    ensures var v := Geometry(b, bsect);
      && v.fatbase == bsect + b.rsvdSecCnt
      && v.database == v.fatbase + FatSize(b) * b.numFats + b.rootEntCnt / 16
      && v.nFatent == data / b.secPerClus + 2
  {
    var fsize := FatSize(b) * b.numFats;
    data := TotalSectors(b) - b.rsvdSecCnt - fsize - b.rootEntCnt / 16;
    ModSmall(fsize);
    ModSmall(bsect + b.rsvdSecCnt);
    ModSmall(data);
    QuotientSmaller(data, b.secPerClus);
    ModSmall(data / b.secPerClus + 2);
    ModSmall(bsect + b.rsvdSecCnt + fsize + b.rootEntCnt / 16);
  }

  lemma QuotientSmaller(a: nat, d: nat)
    requires d > 0
    ensures a / d <= a
  {
    QuotIsDiv(a, d);
    QuotRest(a, d);
    QuotAtMost(a, d);
  }

  lemma {:induction false} QuotAtMost(a: nat, d: nat)
    ensures Quot(a, d) <= a
  {
    if d > 0 && a >= d { QuotAtMost(a - d, d); }
  }

  /** What mounting accepts with a power of two as cluster size is a sound volume for reading files. */
  lemma MountedIsSound(b: Bpb, bsect: nat)
    requires Fits(b, bsect) && b.rsvdSecCnt > 0
    requires b.secPerClus < 256 && b.rootEntCnt < 0x1_0000 && b.rootClus < TWO32
    requires PowerOfTwo(b.secPerClus)
    ensures SoundVolume(Geometry(b, bsect))
  {
    var v := Geometry(b, bsect);
    var data := NoWrapping(b, bsect);
    RoomFits(data, b.secPerClus);
    assert v.nFatent - 2 == data / b.secPerClus;
  }

  lemma RoomFits(data: nat, c: nat)
    requires c > 0
    ensures Times(c, data / c) <= data
  {
    QuotIsDiv(data, c);
    QuotRest(data, c);
  }
}
