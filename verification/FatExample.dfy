/** A small medium with a FAT32 volume on it, a root directory of two entries and their files: what the other modules
    assume of a medium can be met. */
module FatExample {
  import opened Basics
  import opened Bits
  import opened FatVolume
  import opened FatDir
  import opened FatOpen
  import FatMount

  /** 65536 clusters of one sector, one table of 512 sectors, the root directory at cluster 2. */
  const BLOCK := FatMount.Bpb(1, 1, 1, 0, 0, 0, 66049, 512, 2)

  const VOLUME := Volume(1, 0, 65538, 1, 2, 513)

  function BootByte(i: nat): Byte {
    match i
    case 13 => 1 case 14 => 1 case 16 => 1
    case 32 => 1 case 33 => 2 case 34 => 1
    case 37 => 2
    case 44 => 2
    case 82 => 0x46 case 83 => 0x41
    case 510 => 0x55 case 511 => 0xAA
    case _ => 0
  }

  function TableByte(i: nat): Byte {
    if 8 <= i <= 10 then 0xFF else if i == 11 then 0x0F else 0
  }

  /** Two entries: eleven times `A`, an ordinary file of five bytes at cluster 3, and eleven times `B`, one of seven
      bytes at cluster 65536. */
  function RootByte(i: nat): Byte {
    if i < 11 then 0x41 else if i == 11 then 0x20 else if i == 26 then 3 else if i == 28 then 5
    else if 32 <= i < 43 then 0x42 else if i == 43 then 0x20 else if i == 52 then 1 else if i == 60 then 7
    else 0
  }

  function SectorOfBytes(f: nat -> Byte): Sector {
    seq(512, i requires 0 <= i => f(i))
  }

  const MEDIUM: Disk := map[0 := SectorOfBytes(BootByte), 1 := SectorOfBytes(TableByte), 513 := SectorOfBytes(RootByte),
                            514 := SectorOfBytes(_ => 0x61), 66047 := SectorOfBytes(_ => 0x62)]

  const NAME: Name := seq(11, _ => 0x41)

  const ENTRY: Entry := seq(32, i requires 0 <= i => RootByte(i))

  const FAR_NAME: Name := seq(11, _ => 0x42)

  const FAR_ENTRY: Entry := seq(32, i requires 0 <= i => RootByte(32 + i))

  lemma SliceAt(f: nat -> Byte, from: nat, to: nat, i: nat)
    requires from + i < to <= 512
    ensures SectorOfBytes(f)[from..to][i] == f(from + i)
  {
  }

  lemma BootIs()
    ensures FatMount.BootsAt(MEDIUM, 0) && FatMount.BlockAt(MEDIUM[0]) == BLOCK
  {
    var boot := MEDIUM[0];
    forall i | 0 <= i < 512
      ensures boot[i] == BootByte(i)
    {
    }
    assert boot[13] == 1 && boot[14] == 1 && boot[15] == 0 && boot[16] == 1 && boot[17] == 0 && boot[18] == 0;
    assert boot[19] == 0 && boot[20] == 0 && boot[22] == 0 && boot[23] == 0 && boot[32] == 1 && boot[33] == 2;
    assert boot[34] == 1 && boot[35] == 0 && boot[36] == 0 && boot[37] == 2 && boot[38] == 0 && boot[39] == 0;
    assert boot[44] == 2 && boot[45] == 0 && boot[46] == 0 && boot[47] == 0 && boot[82] == 70 && boot[83] == 65;
    assert boot[510] == 85 && boot[511] == 170;
  }

  lemma GeometryIs()
    ensures FatMount.Geometry(BLOCK, 0) == VOLUME && FatMount.Fits(BLOCK, 0)
  {
  }

  lemma LinkIs()
    ensures GetFat(MEDIUM, VOLUME, 2) == 0x0FFF_FFFF
  {
    SliceAt(TableByte, 8, 12, 0);
    SliceAt(TableByte, 8, 12, 1);
    SliceAt(TableByte, 8, 12, 2);
    SliceAt(TableByte, 8, 12, 3);
  }

  lemma ClustersAre()
    ensures Clust2Sect(VOLUME, 2) == 513 && Clust2Sect(VOLUME, 3) == 514
    ensures Linked(MEDIUM, VOLUME, [2]) && Linked(MEDIUM, VOLUME, [3])
  {
    assert Times(1, 1) == 1;
  }

  lemma RootIs()
    ensures DirectoryAt(MEDIUM, VOLUME, 0, [2])
    ensures EntryOf(Table(MEDIUM, VOLUME, [2]), NAME, 0, ENTRY)
  {
    ClustersAre();
    LinkIs();
    assert EntryCount(VOLUME, [2]) == 16 by { assert Times(1, 1) == 1; }
    assert EntrySector(VOLUME, [2], 0) == 513;
    assert MEDIUM[513][0..32] == ENTRY;
    assert ENTRY[..11] == NAME;
  }

  /** The hypotheses under which files are opened and read hold of this medium, path and chain. */
  lemma SomeMediumOpens()
    ensures Mounts(MEDIUM, BLOCK, 0)
    ensures OpensFile(MEDIUM, FatMount.Geometry(BLOCK, 0), [NAME], ENTRY, [3])
    ensures EntrySize(ENTRY) == 5
  {
    BootIs();
    GeometryIs();
    assert 1 == Pow2(0);
    RootIs();
    ClustersAre();
    NearEntryIs();
  }

  lemma NearEntryIs()
    ensures EntryCluster(ENTRY) == 3 && EntrySize(ENTRY) == 5 && !IsDirectory(ENTRY)
  {
  }

  // ---- A file whose start cluster needs more than 16 bits --------------------------------

  lemma FarClusterIs()
    ensures Clust2Sect(VOLUME, 65536) == 66047 && Linked(MEDIUM, VOLUME, [65536])
  {
    TimesIsMul(1, 65534);
  }

  lemma FarEntryIs()
    ensures EntryCluster(FAR_ENTRY) == 65536 && EntrySize(FAR_ENTRY) == 7 && !IsDirectory(FAR_ENTRY)
  {
    EntryIs(FAR_ENTRY);
  }

  lemma FarEntryFound()
    ensures EntryOf(Table(MEDIUM, VOLUME, [2]), FAR_NAME, 1, FAR_ENTRY)
  {
    ClustersAre();
    assert EntryCount(VOLUME, [2]) == 16 by { assert Times(1, 1) == 1; }
    var table := Table(MEDIUM, VOLUME, [2]);
    assert EntrySector(VOLUME, [2], 0) == 513 && EntrySector(VOLUME, [2], 1) == 513;
    forall i | 0 <= i < 32
      ensures MEDIUM[513][32..64][i] == FAR_ENTRY[i]
    {
      SliceAt(RootByte, 32, 64, i);
    }
    assert MEDIUM[513][32..64] == FAR_ENTRY;
    assert FAR_ENTRY[..11] == FAR_NAME;
    assert table[0] == MEDIUM[513][0..32];
    SliceAt(RootByte, 0, 32, 0);
    assert table[0][..11][0] == 0x41 && FAR_NAME[0] == 0x42;
    assert table[1] == MEDIUM[513][32..64];
  }

  lemma FarFileOpens()
    ensures Mounts(MEDIUM, BLOCK, 0)
    ensures OpensFile(MEDIUM, FatMount.Geometry(BLOCK, 0), [FAR_NAME], FAR_ENTRY, [65536])
    ensures EntryCluster(FAR_ENTRY) == 65536
  {
    SomeMediumOpens();
    GeometryIs();
    RootIs();
    FarEntryFound();
    FarEntryIs();
    FarClusterIs();
  }
}
