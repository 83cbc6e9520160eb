/** Searching a directory: a table of 32-byte entries spread over a cluster chain. */
module FatDir {
  import opened Basics
  import opened Bits
  import opened FatVolume

  /** The volume-label attribute bit, 0x08. */
  predicate IsVolumeLabel(entry: seq<Byte>)
    requires |entry| == 32
  {
    BitAnd(entry[11], 8) != 0
  }

  /** The search is over at this entry: the table ends here, or this is the entry looked for. */
  predicate IsMatch(entry: seq<Byte>, name: seq<Byte>)
    requires |entry| == 32
  {
    !IsVolumeLabel(entry) && entry[..11] == name
  }

  predicate IsEnd(entry: seq<Byte>)
    requires |entry| == 32
  {
    entry[0] == 0
  }

  /** The directory starting at cluster `first` is the chain; its table ends with the chain or with the
      65536 entries an index can count. */
  ghost predicate DirectoryChain(disk: Disk, v: Volume, first: nat, chain: seq<nat>) {
    && Linked(disk, v, chain) && chain != [] && chain[0] == first
    && (GetFat(disk, v, chain[|chain| - 1]) >= v.nFatent || 16 * Times(v.csize, |chain|) >= 0x1_0000)
  }

  ghost predicate DirectoryIn(disk: Disk, v: Volume, first: nat, chain: seq<nat>) {
    SoundVolume(v) && DirectoryChain(disk, v, first, chain)
  }

  /** The number of entries a search can come to. */
  ghost function EntryCount(v: Volume, chain: seq<nat>): nat {
    var n := 16 * Times(v.csize, |chain|);
    if n < 0x1_0000 then n else 0x1_0000
  }

  /** Where entry `k` is: the sector that holds it. */
  ghost function EntrySector(v: Volume, chain: seq<nat>, k: nat): nat
    requires Quot(k / 16, v.csize) < |chain|
  {
    Clust2Sect(v, chain[Quot(k / 16, v.csize)]) + Rest(k / 16, v.csize)
  }

  ghost function EntryAt(disk: Disk, v: Volume, chain: seq<nat>, k: nat): (e: seq<Byte>)
    ensures |e| == 32
  {
    if Quot(k / 16, v.csize) < |chain| then SectorData(disk, EntrySector(v, chain, k))[k % 16 * 32..k % 16 * 32 + 32]
    else seq(32, _ => 0)
  }

  /** The entries of the directory in order. */
  ghost function Table(disk: Disk, v: Volume, chain: seq<nat>): (t: seq<seq<Byte>>)
    ensures |t| == EntryCount(v, chain)
    ensures forall k :: 0 <= k < |t| ==> |t[k]| == 32 && t[k] == EntryAt(disk, v, chain, k)
  {
    seq(EntryCount(v, chain), k requires 0 <= k => EntryAt(disk, v, chain, k))
  }

  /** None of the first `k` entries ends the search. */
  ghost predicate NoneBefore(table: seq<seq<Byte>>, name: seq<Byte>, k: nat)
    requires k <= |table| && forall j :: 0 <= j < |table| ==> |table[j]| == 32
  {
    forall j: nat :: j < k ==> !IsEnd(table[j]) && !IsMatch(table[j], name)
  }

  /** Entry `k` is the first of this name, and no end of the table comes before it. */
  ghost predicate FirstMatch(table: seq<seq<Byte>>, name: seq<Byte>, k: nat)
    requires forall j :: 0 <= j < |table| ==> |table[j]| == 32
  {
    k < |table| && NoneBefore(table, name, k) && !IsEnd(table[k]) && IsMatch(table[k], name)
  }

  /** The cursor of the search stands at entry `k`. */
  ghost predicate At(v: Volume, chain: seq<nat>, k: nat, clust: nat, sect: nat) {
    && Quot(k / 16, v.csize) < |chain| && clust == chain[Quot(k / 16, v.csize)]
    && sect == EntrySector(v, chain, k)
  }

  /** The entry read at the cursor is the entry of the table. */
  lemma EntryRead(disk: Disk, v: Volume, first: nat, chain: seq<nat>, k: nat, clust: nat, sect: nat)
    requires DirectoryIn(disk, v, first, chain) && k < EntryCount(v, chain) && At(v, chain, k, clust, sect)
    ensures ReadP(disk, sect, k % 16 * 32, 32) == Some(Table(disk, v, chain)[k])
  {
    QuotRest(k / 16, v.csize);
    assert Readable(disk, v, clust);
  }

  /** Two chains of the same directory run alike. */
  lemma {:induction false} ChainsAgree(disk: Disk, v: Volume, first: nat, a: seq<nat>, b: seq<nat>, i: nat)
    requires DirectoryIn(disk, v, first, a) && DirectoryIn(disk, v, first, b) && i < |a| && i < |b|
    ensures a[i] == b[i]
  {
    if i > 0 {
      ChainsAgree(disk, v, first, a, b, i - 1);
      assert a[i] == GetFat(disk, v, a[i - 1]) && b[i] == GetFat(disk, v, b[i - 1]);
    }
  }

  /** A longer chain adds only entries beyond those an index can count. */
  lemma LongerChain(disk: Disk, v: Volume, first: nat, a: seq<nat>, b: seq<nat>)
    requires DirectoryIn(disk, v, first, a) && DirectoryIn(disk, v, first, b) && |a| <= |b|
    ensures EntryCount(v, a) == EntryCount(v, b)
  {
    if |a| < |b| {
      ChainsAgree(disk, v, first, a, b, |a| - 1);
      assert b[|a|] == GetFat(disk, v, b[|a| - 1]) && ValidCluster(v, b[|a|]);
      TimesMonotone(v.csize, |a|, |b|);
    }
  }

  /** A directory has one table, whichever chain it is read from. */
  lemma SameTable(disk: Disk, v: Volume, first: nat, a: seq<nat>, b: seq<nat>)
    requires DirectoryIn(disk, v, first, a) && DirectoryIn(disk, v, first, b)
    ensures Table(disk, v, a) == Table(disk, v, b)
  {
    if |a| <= |b| { LongerChain(disk, v, first, a, b); } else { LongerChain(disk, v, first, b, a); }
    forall k | 0 <= k < EntryCount(v, a)
      ensures EntryAt(disk, v, a, k) == EntryAt(disk, v, b, k)
    {
      EntriesAgree(disk, v, first, a, b, k);
    }
  }

  lemma EntriesAgree(disk: Disk, v: Volume, first: nat, a: seq<nat>, b: seq<nat>, k: nat)
    requires DirectoryIn(disk, v, first, a) && DirectoryIn(disk, v, first, b)
    requires k < EntryCount(v, a) && k < EntryCount(v, b)
    ensures EntryAt(disk, v, a, k) == EntryAt(disk, v, b, k)
  {
    var q := Quot(k / 16, v.csize);
    assert q < |a| by { QuotBound(k / 16, v.csize, |a|); }
    assert q < |b| by { QuotBound(k / 16, v.csize, |b|); }
    assert a[q] == b[q] by { ChainsAgree(disk, v, first, a, b, q); }
    SameEntry(disk, v, a, b, k);
  }

  lemma SameEntry(disk: Disk, v: Volume, a: seq<nat>, b: seq<nat>, k: nat)
    requires var q := Quot(k / 16, v.csize); q < |a| && q < |b| && a[q] == b[q]
    ensures EntryAt(disk, v, a, k) == EntryAt(disk, v, b, k)
  {
  }

  /** The next 16-bit index; 0 after the last. */
  function Succ16(index: nat): nat {
    if index == 0xFFFF then 0 else index + 1
  }

  class Dir {
    const disk: Disk
    const volume: Volume
    var index: nat
    var fn: seq<Byte>
    var sclust: nat
    var clust: nat
    var sect: nat

    constructor (disk: Disk, volume: Volume, fn: seq<Byte>, sclust: nat)
      requires |fn| >= 11
      ensures this.disk == disk && this.volume == volume && this.fn == fn && this.sclust == sclust
      ensures index == 0
    {
      this.disk, this.volume, this.fn, this.sclust := disk, volume, fn, sclust;
      index, clust, sect := 0, 0, 0;
    }

    ghost predicate Valid()
      reads this
    {
      Ranges(volume) && index < 0x1_0000 && |fn| >= 11
    }

    /** The cluster the search starts at: cluster 0 stands for the root directory. */
    function StartCluster(): nat
      reads this
    {
      if sclust == 0 then volume.dirbase else sclust
    }

    method Rewind() returns (res: FResult)
      requires Valid()
      modifies this`index, this`clust, this`sect
      ensures Valid() && index == 0
      ensures res == FrOk <==> sclust != 1 && sclust < volume.nFatent
      ensures res != FrOk ==> res == FrDiskErr
      ensures res == FrOk ==> forall chain :: DirectoryIn(disk, volume, StartCluster(), chain) ==> At(volume, chain, 0, clust, sect)
    {
      index := 0;
      var clst := sclust;
      if clst == 1 || clst >= volume.nFatent {
        return FrDiskErr;
      }
      if clst == 0 {
        clst := volume.dirbase;
      }
      clust := clst;
      sect := Clust2Sect(volume, clst);
      res := FrOk;
    }

    /** The cursor stands at an entry of the directory the chain is. */
    ghost predicate OnEntry(first: nat, chain: seq<nat>)
      reads this
    {
      DirectoryIn(disk, volume, first, chain) && index < EntryCount(volume, chain) && At(volume, chain, index, clust, sect)
    }

    /** Moves on to the next entry. The index only ever grows, whatever the disk contains. */
    method Next(ghost first: nat, ghost chain: seq<nat>) returns (res: FResult)
      requires Valid()
      modifies this`index, this`clust, this`sect
      ensures Valid()
      ensures res == FrOk ==> index == old(index) + 1
      ensures res != FrOk ==> index == old(index)
      ensures old(OnEntry(first, chain)) ==>
        if old(index) + 1 < EntryCount(volume, chain) then res == FrOk && At(volume, chain, index, clust, sect)
        else res == FrNoFile
    {
      var i := Succ16(index);
      if OnEntry(first, chain) { StaysInSector(disk, volume, first, chain, index, clust, sect); }
      if i == 0 || sect == 0 {
        return FrNoFile;
      }
      res := FrOk;
      if i % 16 == 0 {
        res := EnterSector(i, first, chain);
      }
      if res == FrOk {
        index := i;
      }
    }

    /** Entry `i` is the first of a sector: moves on to that sector, which may be in another cluster. */
    method EnterSector(i: nat, ghost first: nat, ghost chain: seq<nat>) returns (res: FResult)
      requires Valid() && i == index + 1 && i % 16 == 0 && i < 0x1_0000
      modifies `clust, `sect
      ensures Valid()
      ensures old(OnEntry(first, chain)) ==>
        if i < EntryCount(volume, chain) then res == FrOk && At(volume, chain, i, clust, sect) else res == FrNoFile
    {
      if OnEntry(first, chain) { NextEntry(disk, volume, first, chain, index, clust, sect); }
      sect := Mod32(sect + 1);
      if clust == 0 {
        return if i >= volume.nRootdir then FrNoFile else FrOk;
      }
      res := FrOk;
      if BitAnd(i / 16, volume.csize - 1) == 0 {
        res := EnterCluster();
      }
    }

    /** Moves on to the first sector of the next cluster of the chain. */
    method EnterCluster() returns (res: FResult)
      requires Valid()
      modifies `clust, `sect
      ensures var next := GetFat(disk, volume, old(clust));
        && res == (if next <= 1 then FrDiskErr else if next >= volume.nFatent then FrNoFile else FrOk)
        && (res == FrOk ==> clust == next && sect == Clust2Sect(volume, next))
    {
      var clst := GetFat(disk, volume, clust);
      if clst <= 1 {
        return FrDiskErr;
      }
      if clst >= volume.nFatent {
        return FrNoFile;
      }
      clust := clst;
      sect := Clust2Sect(volume, clst);
      res := FrOk;
    }

    /** Looks for the entry with the name in `fn`. */
    method Find(ghost chain: seq<nat>) returns (res: FResult, entry: seq<Byte>)
      requires Valid()
      modifies this`index, this`clust, this`sect
      ensures Valid()
      ensures !(sclust != 1 && sclust < volume.nFatent) ==> res == FrDiskErr
      ensures res == FrOk ==> |entry| == 32 && IsMatch(entry, fn[..11]) && !IsEnd(entry)
      ensures sclust != 1 && sclust < volume.nFatent && DirectoryIn(disk, volume, StartCluster(), chain) ==>
        Outcome(Table(disk, volume, chain), fn[..11], res, index, entry)
    {
      entry := [];
      res := Rewind();
      if res != FrOk {
        return;
      }
      ghost var first := StartCluster();
      ghost var good := DirectoryIn(disk, volume, first, chain);
      ghost var table, name := Table(disk, volume, chain), fn[..11];
      while true
        invariant Valid() && res == FrOk && fn == old(fn)
        invariant good ==> index < |table| && At(volume, chain, index, clust, sect) && NoneBefore(table, name, index)
        decreases 0x1_0000 - index
      {
        if good { EntryRead(disk, volume, first, chain, index, clust, sect); }
        var read := ReadP(disk, sect, index % 16 * 32, 32);
        if read.None? {
          return FrDiskErr, entry;
        }
        entry := read.value;
        if entry[0] == 0 {
          if good { NoMatchUpTo(table, name, index); }
          return FrNoFile, entry;
        }
        if !IsVolumeLabel(entry) && entry[..11] == fn[..11] {
          break;
        }
        if good { NoneBeforeNext(table, name, index); }
        res := Next(first, chain);
        if res != FrOk {
          if good { NoMatchUpTo(table, name, |table|); }
          return;
        }
      }
    }
  }

  lemma NoneBeforeNext(table: seq<seq<Byte>>, name: seq<Byte>, k: nat)
    requires forall j :: 0 <= j < |table| ==> |table[j]| == 32
    requires k < |table| && NoneBefore(table, name, k) && !IsEnd(table[k]) && !IsMatch(table[k], name)
    ensures NoneBefore(table, name, k + 1)
  {
  }

  /** Where the table ends before any match, there is no match to find. */
  lemma NoMatchUpTo(table: seq<seq<Byte>>, name: seq<Byte>, k: nat)
    requires forall j :: 0 <= j < |table| ==> |table[j]| == 32
    requires k <= |table| && NoneBefore(table, name, k) && (k < |table| ==> IsEnd(table[k]))
    ensures forall j: nat :: !FirstMatch(table, name, j)
  {
  }

  /** What a search must answer: the first entry of the name if it comes before the end of the table. */
  ghost predicate Outcome(table: seq<seq<Byte>>, name: seq<Byte>, res: FResult, index: nat, entry: seq<Byte>)
    requires forall j :: 0 <= j < |table| ==> |table[j]| == 32
  {
    match res
    case FrOk => FirstMatch(table, name, index) && entry == table[index]
    case FrNoFile => forall k: nat :: !FirstMatch(table, name, k)
    case _ => false
  }

  /** Moving on within a sector. */
  lemma NextInSector(v: Volume, chain: seq<nat>, k: nat, clust: nat, sect: nat)
    requires v.csize > 0 && At(v, chain, k, clust, sect) && (k + 1) % 16 != 0 && k < 0x1_0000
    ensures k + 1 < EntryCount(v, chain) && At(v, chain, k + 1, clust, sect)
  {
    assert (k + 1) / 16 == k / 16;
    SectorsLeft(v.csize, |chain|, k / 16);
  }

  /** Moving on to the next sector of a cluster. */
  lemma NextSectorOfCluster(v: Volume, chain: seq<nat>, k: nat, clust: nat, sect: nat)
    requires SoundVolume(v) && ValidCluster(v, clust)
    requires At(v, chain, k, clust, sect) && (k + 1) % 16 == 0 && k + 1 < 0x1_0000
    requires Rest((k + 1) / 16, v.csize) != 0
    ensures k + 1 < EntryCount(v, chain) && At(v, chain, k + 1, clust, Mod32(sect + 1))
  {
    var s := k / 16;
    assert (k + 1) / 16 == s + 1;
    QuotStep(s, v.csize);
    QuotRest(s + 1, v.csize);
    SectorsLeft(v.csize, |chain|, s + 1);
    ClusterSectors(v, clust);
    ModSmall(sect + 1);
  }

  /** Moving on to the next cluster of the chain, or off its end. */
  lemma NextCluster(disk: Disk, v: Volume, first: nat, chain: seq<nat>, k: nat, clust: nat, sect: nat)
    requires DirectoryIn(disk, v, first, chain) && k < EntryCount(v, chain) && At(v, chain, k, clust, sect)
    requires (k + 1) % 16 == 0 && k + 1 < 0x1_0000 && Rest((k + 1) / 16, v.csize) == 0
    ensures var next := GetFat(disk, v, clust);
      if k + 1 < EntryCount(v, chain) then ValidCluster(v, next) && At(v, chain, k + 1, next, Clust2Sect(v, next))
      else next >= v.nFatent
  {
    var s := k / 16;
    var q := Quot(s, v.csize);
    assert (k + 1) / 16 == s + 1;
    QuotStep(s, v.csize);
    EndOfCluster(v.csize, |chain|, s);
    if q + 1 < |chain| {
      assert chain[q + 1] == GetFat(disk, v, chain[q + 1 - 1]);
    }
  }

  /** Moving on by one entry that is not the first of a sector. */
  lemma StaysInSector(disk: Disk, v: Volume, first: nat, chain: seq<nat>, k: nat, clust: nat, sect: nat)
    requires DirectoryIn(disk, v, first, chain) && k < EntryCount(v, chain) && At(v, chain, k, clust, sect)
    ensures sect > 0
    ensures (k + 1) % 16 != 0 ==> k + 1 < EntryCount(v, chain) && At(v, chain, k + 1, clust, sect)
  {
    ClusterSectors(v, clust);
    if (k + 1) % 16 != 0 { NextInSector(v, chain, k, clust, sect); }
  }

  /** What moving on to the first entry of the next sector does to cluster and sector. */
  lemma NextEntry(disk: Disk, v: Volume, first: nat, chain: seq<nat>, k: nat, clust: nat, sect: nat)
    requires DirectoryIn(disk, v, first, chain) && k < EntryCount(v, chain) && At(v, chain, k, clust, sect)
    requires (k + 1) % 16 == 0 && k + 1 < 0x1_0000
    ensures clust >= 2
    ensures if BitAnd((k + 1) / 16, v.csize - 1) != 0 then
        k + 1 < EntryCount(v, chain) && At(v, chain, k + 1, clust, Mod32(sect + 1))
      else
        var next := GetFat(disk, v, clust);
        if k + 1 < EntryCount(v, chain) then ValidCluster(v, next) && At(v, chain, k + 1, next, Clust2Sect(v, next))
        else next >= v.nFatent
  {
    SectorInCluster(v, (k + 1) / 16);
    if Rest((k + 1) / 16, v.csize) != 0 {
      NextSectorOfCluster(v, chain, k, clust, sect);
    } else {
      NextCluster(disk, v, first, chain, k, clust, sect);
    }
  }

  /** In the middle of a cluster of the chain there is room. */
  lemma SectorsLeft(c: nat, n: nat, s: nat)
    requires c > 0 && Quot(s, c) < n
    ensures s < Times(c, n)
  {
    QuotRest(s, c);
    TimesMonotone(c, Quot(s, c) + 1, n);
  }

  /** Stepping over the end of a cluster: another cluster follows, or the chain is used up exactly. */
  lemma EndOfCluster(c: nat, n: nat, s: nat)
    requires c > 0 && Quot(s, c) < n && Rest(s + 1, c) == 0
    ensures s + 1 < Times(c, n) ==> Quot(s + 1, c) < n
    ensures s + 1 >= Times(c, n) ==> Quot(s, c) == n - 1 && s + 1 == Times(c, n)
  {
    QuotStep(s, c);
    QuotRest(s, c);
    SectorsLeft(c, n, s);
    if s + 1 < Times(c, n) {
      QuotBound(s + 1, c, n);
    } else {
      QuotRestUnique(s + 1, c, n, 0);
    }
  }

  /** The table is the data of the chain cut into pieces of 32 bytes. */
  lemma TableIsContent(disk: Disk, v: Volume, first: nat, chain: seq<nat>, k: nat)
    requires DirectoryIn(disk, v, first, chain) && k < EntryCount(v, chain)
    ensures var data := Flatten(disk, v.csize, Starts(v, chain));
      32 * k + 32 <= |data| && Table(disk, v, chain)[k] == data[32 * k..32 * k + 32]
  {
    TablePiece(disk, v, chain, k);
  }

  lemma TablePiece(disk: Disk, v: Volume, chain: seq<nat>, k: nat)
    requires v.csize > 0 && k < EntryCount(v, chain)
    ensures var data := Flatten(disk, v.csize, Starts(v, chain));
      32 * k + 32 <= |data| && Table(disk, v, chain)[k] == data[32 * k..32 * k + 32]
  {
    EntryPlace(k);
    QuotBound(k / 16, v.csize, |chain|);
    EntryPiece(disk, v, chain, Flatten(disk, v.csize, Starts(v, chain)), k, 32 * k, k / 16, k % 16 * 32);
  }

  lemma EntryPiece(disk: Disk, v: Volume, chain: seq<nat>, data: seq<Byte>, k: nat, p: nat, s: nat, o: nat)
    requires v.csize > 0 && data == Flatten(disk, v.csize, Starts(v, chain)) && k < EntryCount(v, chain)
    requires p == 32 * k && s == k / 16 == p / 512 && o == k % 16 * 32 == p % 512 && Quot(s, v.csize) < |chain|
    ensures p + 32 <= |data| && EntryAt(disk, v, chain, k) == data[p..p + 32]
  {
    DataPiece(disk, v, chain, data, p, s, o);
  }

  /** 32 bytes from `p` on, which is place `o` in the sector `s` of the chain. */
  lemma DataPiece(disk: Disk, v: Volume, chain: seq<nat>, data: seq<Byte>, p: nat, s: nat, o: nat)
    requires v.csize > 0 && data == Flatten(disk, v.csize, Starts(v, chain))
    requires p / 512 == s && p % 512 == o <= 480 && p + 32 <= 512 * Times(v.csize, |chain|)
    requires Quot(s, v.csize) < |chain|
    ensures p + 32 <= |data|
    ensures data[p..p + 32] == SectorData(disk, Clust2Sect(v, chain[Quot(s, v.csize)]) + Rest(s, v.csize))[o..o + 32]
  {
    FlattenLength(disk, v.csize, Starts(v, chain));
    PieceOfChain(disk, v, |data|, chain, p, 32);
    WholeOf(data);
  }

  lemma WholeOf(data: seq<Byte>)
    ensures data[..|data|] == data
  {
  }

  lemma EntryPlace(k: nat)
    ensures 32 * k / 512 == k / 16 && 32 * k % 512 == k % 16 * 32
  {
  }

  /** An entry is of a name if its first 11 bytes are the name's and bit 3 of its attributes is not set. */
  predicate IsNamed(entry: seq<Byte>, name: seq<Byte>)
    requires |entry| == 32 && |name| == 11
  {
    entry[11] / 8 % 2 == 0 && forall i :: 0 <= i < 11 ==> entry[i] == name[i]
  }

  /** What is looked for: the first entry of the name, no entry up to it having a first byte of 0. */
  lemma FirstMatchIs(table: seq<seq<Byte>>, name: seq<Byte>, k: nat)
    requires |name| == 11 && forall j :: 0 <= j < |table| ==> |table[j]| == 32
    ensures FirstMatch(table, name, k) <==>
      && k < |table| && IsNamed(table[k], name)
      && (forall j :: 0 <= j <= k ==> table[j][0] != 0)
      && forall j :: 0 <= j < k ==> !IsNamed(table[j], name)
  {
    forall j | 0 <= j < |table|
      ensures IsMatch(table[j], name) <==> IsNamed(table[j], name)
    {
      VolumeLabelIs(table[j]);
      assert table[j][..11] == name <==> forall i :: 0 <= i < 11 ==> table[j][i] == name[i];
    }
  }

  /** A volume label is an entry with bit 3 of its attributes set. */
  lemma VolumeLabelIs(entry: seq<Byte>)
    requires |entry| == 32
    ensures IsVolumeLabel(entry) <==> entry[11] / 8 % 2 == 1
  {
    BitTest(entry[11], 3);
    assert Pow2(3) == 8;
    var a: nat := entry[11];
    assert ShiftRight(a, 3) == ShiftRight(a / 2, 2) == ShiftRight(a / 2 / 2, 1) == a / 2 / 2 / 2;
  }

  /** Entry `k` in the usual operators. */
  lemma EntrySectorIs(v: Volume, chain: seq<nat>, k: nat)
    requires v.csize > 0 && k / 16 / v.csize < |chain|
    ensures Quot(k / 16, v.csize) < |chain|
    ensures EntrySector(v, chain, k) == Clust2Sect(v, chain[k / 16 / v.csize]) + k / 16 % v.csize
    ensures EntryCount(v, chain) == if 16 * (v.csize * |chain|) < 0x1_0000 then 16 * (v.csize * |chain|) else 0x1_0000
  {
    QuotIsDiv(k / 16, v.csize);
    TimesIsMul(v.csize, |chain|);
  }
}
