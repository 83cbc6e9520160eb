/** Opening a file by its path on a mounted volume, and reading it: mounting, directory search and cursor together. */
module FatOpen {
  import opened Basics
  import opened Bits
  import opened FatVolume
  import opened FatDir
  import FatFile
  import FatMount

  /** A segment of a path in directory form. */
  type Name = n: seq<Byte> | |n| == 11 witness seq(11, _ => 0)

  type Entry = e: seq<Byte> | |e| == 32 witness seq(32, _ => 0)

  /** The directory attribute bit, 0x10. */
  predicate IsDirectory(entry: Entry) {
    BitAnd(entry[11], 0x10) != 0
  }

  /** Start cluster and size of the file an entry names. */
  function EntryCluster(entry: Entry): (c: nat)
    ensures c < TWO32
  {
    0x1_0000 * LdWord(entry[20..22]) + LdWord(entry[26..28])
  }

  function EntrySize(entry: Entry): (size: nat)
    ensures size < TWO32
  {
    LdDword(entry[28..32])
  }

  /** What an entry says, byte by byte: attributes at 11, start cluster at 20 and 26, size at 28. */
  lemma EntryIs(entry: Entry)
    ensures IsDirectory(entry) <==> entry[11] / 16 % 2 == 1
    ensures EntryCluster(entry) == 65536 * Int16At(entry, 20) + Int16At(entry, 26)
    ensures EntrySize(entry) == Int32At(entry, 28)
  {
    BitTest(entry[11], 4);
    assert Pow2(4) == 16;
    var a: nat := entry[11];
    assert ShiftRight(a, 4) == ShiftRight(a / 2, 3) == ShiftRight(a / 2 / 2, 2) == ShiftRight(a / 2 / 2 / 2, 1) == a / 2 / 2 / 2 / 2;
    LoadsAre(entry, 20);
    LoadsAre(entry, 26);
    LoadsAre(entry, 28);
  }

  // ---- What a path means -----------------------------------------------------------------

  /** A directory with this start cluster (0 for the root) is stored in the chain. */
  ghost predicate DirectoryAt(disk: Disk, v: Volume, sclust: nat, chain: seq<nat>) {
    sclust != 1 && sclust < v.nFatent && DirectoryChain(disk, v, if sclust == 0 then v.dirbase else sclust, chain)
  }

  /** The entry is the first of this name in the directory. */
  ghost predicate Holds(disk: Disk, v: Volume, sclust: nat, name: Name, entry: Entry) {
    exists chain, k: nat :: DirectoryAt(disk, v, sclust, chain) && EntryOf(Table(disk, v, chain), name, k, entry)
  }

  ghost predicate EntryOf(table: seq<seq<Byte>>, name: Name, k: nat, entry: Entry)
    requires forall j :: 0 <= j < |table| ==> |table[j]| == 32
  {
    FirstMatch(table, name, k) && entry == table[k]
  }

  /** The directory has no entry of this name. */
  ghost predicate Lacks(disk: Disk, v: Volume, sclust: nat, name: Name) {
    exists chain :: DirectoryAt(disk, v, sclust, chain) && forall k: nat :: !FirstMatch(Table(disk, v, chain), name, k)
  }

  /** From the directory, the path leads through directories to the entry. */
  ghost predicate Leads(disk: Disk, v: Volume, sclust: nat, path: seq<Name>, entry: Entry)
    decreases |path|
  {
    path != [] &&
    if |path| == 1 then Holds(disk, v, sclust, path[0], entry)
    else exists d :: Holds(disk, v, sclust, path[0], d) && IsDirectory(d) && Leads(disk, v, EntryCluster(d), path[1..], entry)
  }

  /** Somewhere on the path a name is missing, or is that of a file though the path goes on. */
  ghost predicate BreaksOff(disk: Disk, v: Volume, sclust: nat, path: seq<Name>)
    decreases |path|, 1
  {
    path != [] &&
    (Lacks(disk, v, sclust, path[0]) || (|path| > 1 && FailsBeyond(disk, v, sclust, path)))
  }

  /** The first name is that of a file, or of a directory beyond which the path breaks off. */
  ghost predicate FailsBeyond(disk: Disk, v: Volume, sclust: nat, path: seq<Name>)
    requires |path| > 1
    decreases |path|, 0
  {
    exists d :: Holds(disk, v, sclust, path[0], d) && (!IsDirectory(d) || BreaksOff(disk, v, EntryCluster(d), path[1..]))
  }

  lemma HoldsIn(disk: Disk, v: Volume, sclust: nat, name: Name, target: Entry, chain: seq<nat>, k: nat)
    requires SoundVolume(v) && Holds(disk, v, sclust, name, target) && DirectoryAt(disk, v, sclust, chain)
    ensures exists j: nat :: EntryOf(Table(disk, v, chain), name, j, target)
    ensures FirstMatch(Table(disk, v, chain), name, k) ==> Table(disk, v, chain)[k] == target
  {
    var a, j: nat :| DirectoryAt(disk, v, sclust, a) && EntryOf(Table(disk, v, a), name, j, target);
    SameTable(disk, v, if sclust == 0 then v.dirbase else sclust, a, chain);
    assert EntryOf(Table(disk, v, chain), name, j, target);
  }

  lemma LacksIn(disk: Disk, v: Volume, sclust: nat, name: Name, chain: seq<nat>, k: nat)
    requires SoundVolume(v) && Lacks(disk, v, sclust, name) && DirectoryAt(disk, v, sclust, chain)
    ensures !FirstMatch(Table(disk, v, chain), name, k)
  {
    var b :| DirectoryAt(disk, v, sclust, b) && forall j: nat :: !FirstMatch(Table(disk, v, b), name, j);
    SameTable(disk, v, if sclust == 0 then v.dirbase else sclust, b, chain);
  }

  /** A name is that of one entry at most, and not missing as well. */
  lemma HoldsOne(disk: Disk, v: Volume, sclust: nat, name: Name, d: Entry, e: Entry)
    requires SoundVolume(v) && Holds(disk, v, sclust, name, d)
    ensures !Lacks(disk, v, sclust, name)
    ensures Holds(disk, v, sclust, name, e) ==> e == d
  {
    var a, j: nat :| DirectoryAt(disk, v, sclust, a) && EntryOf(Table(disk, v, a), name, j, d);
    if Lacks(disk, v, sclust, name) { LacksIn(disk, v, sclust, name, a, j); }
    if Holds(disk, v, sclust, name, e) { HoldsIn(disk, v, sclust, name, e, a, j); }
  }

  // ---- Following a path ------------------------------------------------------------------

  /** Searches one directory; what it answers does not depend on how the directory is stored. */
  method FindIn(dir: Dir, name: Name, ghost target: Entry) returns (res: FResult, entry: Entry)
    requires dir.Valid()
    modifies dir
    ensures dir.Valid() && dir.sclust == old(dir.sclust)
    ensures SoundVolume(dir.volume) && Holds(dir.disk, dir.volume, dir.sclust, name, target) ==> res == FrOk && entry == target
    ensures SoundVolume(dir.volume) && Lacks(dir.disk, dir.volume, dir.sclust, name) ==> res == FrNoFile
    ensures res == FrOk ==> entry[0] != 0
  {
    ghost var sclust, chain := dir.sclust, WitnessChain(dir.disk, dir.volume, dir.sclust, name, target);
    dir.fn := name;
    var found;
    res, found := dir.Find(chain);
    assert dir.fn[..11] == name;
    FoundMeans(dir.disk, dir.volume, sclust, name, target, chain, res, dir.index, found);
    entry := if res == FrOk then found else seq(32, _ => 0);
  }

  /** A chain to speak of a directory by, if it holds or lacks the name. */
  ghost function WitnessChain(disk: Disk, v: Volume, sclust: nat, name: Name, target: Entry): (chain: seq<nat>)
    ensures Holds(disk, v, sclust, name, target) || Lacks(disk, v, sclust, name) ==> DirectoryAt(disk, v, sclust, chain)
  {
    if Holds(disk, v, sclust, name, target) then
      var chain, k: nat :| DirectoryAt(disk, v, sclust, chain) && EntryOf(Table(disk, v, chain), name, k, target); chain
    else if Lacks(disk, v, sclust, name) then
      var chain :| DirectoryAt(disk, v, sclust, chain) && forall k: nat :: !FirstMatch(Table(disk, v, chain), name, k); chain
    else []
  }

  lemma FoundMeans(disk: Disk, v: Volume, sclust: nat, name: Name, target: Entry, chain: seq<nat>, res: FResult, k: nat, entry: seq<Byte>)
    requires SoundVolume(v) && DirectoryAt(disk, v, sclust, chain) ==> Outcome(Table(disk, v, chain), name, res, k, entry)
    requires chain == WitnessChain(disk, v, sclust, name, target)
    ensures SoundVolume(v) && Holds(disk, v, sclust, name, target) ==> res == FrOk && entry == target
    ensures SoundVolume(v) && Lacks(disk, v, sclust, name) ==> res == FrNoFile
  {
    if SoundVolume(v) && DirectoryAt(disk, v, sclust, chain) {
      var table := Table(disk, v, chain);
      if Holds(disk, v, sclust, name, target) { HoldsIn(disk, v, sclust, name, target, chain, k); }
      if Lacks(disk, v, sclust, name) { LacksIn(disk, v, sclust, name, chain, k); }
    }
  }

  /** The entry of the first name on the path, if there is one. */
  ghost function FirstOnPath(disk: Disk, v: Volume, sclust: nat, path: seq<Name>): (d: Entry)
    requires SoundVolume(v) && path != []
    ensures forall e :: Holds(disk, v, sclust, path[0], e) ==> e == d
  {
    if e :| Holds(disk, v, sclust, path[0], e) then
      (forall x | Holds(disk, v, sclust, path[0], x) ensures x == e { HoldsOne(disk, v, sclust, path[0], e, x); } e)
    else seq(32, _ => 0)
  }

  /** What finding the first name says of the path. */
  lemma PathStep(disk: Disk, v: Volume, sclust: nat, path: seq<Name>, target: Entry, res: FResult, entry: Entry)
    requires SoundVolume(v) && path != []
    requires Holds(disk, v, sclust, path[0], FirstOnPath(disk, v, sclust, path)) ==> res == FrOk && entry == FirstOnPath(disk, v, sclust, path)
    requires Lacks(disk, v, sclust, path[0]) ==> res == FrNoFile
    ensures Leads(disk, v, sclust, path, target) ==>
      res == FrOk && if |path| == 1 then entry == target else IsDirectory(entry) && Leads(disk, v, EntryCluster(entry), path[1..], target)
    ensures BreaksOff(disk, v, sclust, path) ==>
      || res == FrNoFile
      || (res == FrOk && |path| > 1 && (!IsDirectory(entry) || BreaksOff(disk, v, EntryCluster(entry), path[1..])))
  {
    if Leads(disk, v, sclust, path, target) && |path| > 1 {
      var d :| Holds(disk, v, sclust, path[0], d) && IsDirectory(d) && Leads(disk, v, EntryCluster(d), path[1..], target);
      assert d == FirstOnPath(disk, v, sclust, path);
    }
    if BreaksOff(disk, v, sclust, path) && !Lacks(disk, v, sclust, path[0]) {
      assert FailsBeyond(disk, v, sclust, path);
      var d :| Holds(disk, v, sclust, path[0], d) && (!IsDirectory(d) || BreaksOff(disk, v, EntryCluster(d), path[1..]));
      assert d == FirstOnPath(disk, v, sclust, path);
    }
  }

  // ---- Opening a file --------------------------------------------------------------------

  /** Follows a path from the root directory on; the entry found is that of the last name. */
  method FollowPath(disk: Disk, v: Volume, path: seq<Name>, ghost target: Entry) returns (res: FResult, entry: Entry)
    requires Ranges(v)
    ensures path == [] ==> entry[0] == 0 && res == if v.nFatent > 0 then FrOk else FrDiskErr
    ensures SoundVolume(v) && Leads(disk, v, 0, path, target) ==> res == FrOk && entry == target && entry[0] != 0
    ensures SoundVolume(v) && BreaksOff(disk, v, 0, path) ==> res == FrNoFile
  {
    entry := seq(32, _ => 0);
    var dir := new Dir(disk, v, entry[..11], 0);
    if path == [] {
      res := dir.Rewind();
      return;
    }
    ghost var sound := SoundVolume(v);
    ghost var leads, fails := sound && Leads(disk, v, 0, path, target), sound && BreaksOff(disk, v, 0, path);
    assert path[0..] == path;
    var i := 0;
    res := FrOk;
    while i < |path|
      invariant 0 <= i <= |path| && dir.Valid() && fresh(dir) && dir.disk == disk && dir.volume == v
      invariant leads && i < |path| ==> Leads(disk, v, dir.sclust, path[i..], target)
      invariant fails ==> i < |path| && BreaksOff(disk, v, dir.sclust, path[i..])
      invariant i == |path| ==> res == FrOk && (leads ==> entry == target && entry[0] != 0)
    {
      ghost var at, rest := dir.sclust, path[i..];
      ghost var first: Entry := if sound then FirstOnPath(disk, v, at, rest) else entry;
      res, entry := FindIn(dir, path[i], first);
      if sound { PathStep(disk, v, at, rest, target, res, entry); }
      if res != FrOk {
        return;
      }
      i := i + 1;
      if i < |path| {
        if !IsDirectory(entry) {
          return FrNoFile, entry;
        }
        dir.sclust := EntryCluster(entry);
        assert rest[1..] == path[i..];
      }
    }
  }

  /** Opens the file the path leads to; a path to a directory, or the empty path, opens nothing. */
  method Open(fs: FatFile.FatFs, path: seq<Name>, ghost target: Entry, ghost chain: seq<nat>) returns (res: FResult)
    requires fs.Valid()
    modifies fs
    ensures fs.Valid() && (res != FrOk ==> fs.flag == 0)
    ensures SoundVolume(fs.volume) && Leads(fs.disk, fs.volume, 0, path, target) ==> res == if IsDirectory(target) then FrNoFile else FrOk
    ensures SoundVolume(fs.volume) && Leads(fs.disk, fs.volume, 0, path, target) && !IsDirectory(target) ==>
      && fs.orgClust == EntryCluster(target) && fs.fsize == EntrySize(target) && fs.fptr == 0
      && (StoredIn(fs.disk, fs.volume, EntryCluster(target), EntrySize(target), chain) ==> fs.Coherent(chain))
    ensures SoundVolume(fs.volume) && BreaksOff(fs.disk, fs.volume, 0, path) ==> res == FrNoFile
    ensures path == [] ==> res != FrOk
  {
    fs.flag := 0;
    var entry;
    res, entry := FollowPath(fs.disk, fs.volume, path, target);
    if res != FrOk {
      return;
    }
    if entry[0] == 0 || IsDirectory(entry) {
      return FrNoFile;
    }
    fs.Open(EntryCluster(entry), EntrySize(entry));
  }

  /** From the medium to the file's bytes: mounts the volume, opens the file the path leads to, and reads and seeks in it. */
  method Session(disk: Disk, noInit: bool, path: seq<Name>, ops: seq<FatFile.Op>,
                 ghost b: FatMount.Bpb, ghost bsect: nat, ghost target: Entry, ghost chain: seq<nat>)
    returns (outputs: seq<seq<Byte>>)
    requires !noInit && Mounts(disk, b, bsect) && OpensFile(disk, FatMount.Geometry(b, bsect), path, target, chain)
    ensures var v, first, size := FatMount.Geometry(b, bsect), EntryCluster(target), EntrySize(target);
      && StoredIn(disk, v, first, size, chain)
      && outputs == FatFile.Reference(Content(disk, v, first, size, chain), 0, ops)
  {
    FatMount.MountedIsSound(b, bsect);
    var drive := new FatMount.Drive(disk, noInit);
    var res := drive.Mount();
    assert drive.volume == FatMount.Geometry(b, bsect);
    var fs := new FatFile.FatFs(disk, drive.volume);
    res := Open(fs, path, target, chain);
    outputs := fs.Run(ops, chain);
  }

  /** The medium holds a FAT32 volume with this parameter block at this boot sector: its sizes fit, there are reserved
      sectors, and the cluster size is a power of two. */
  ghost predicate Mounts(disk: Disk, b: FatMount.Bpb, bsect: nat) {
    && FatMount.BootsAt(disk, bsect) && b == FatMount.BlockAt(disk[bsect])
    && FatMount.Geometry(b, bsect).nFatent >= 0xFFF7
    && FatMount.Fits(b, bsect) && b.rsvdSecCnt > 0 && PowerOfTwo(b.secPerClus)
  }

  /** The path leads to a file that is stored in the chain. */
  ghost predicate OpensFile(disk: Disk, v: Volume, path: seq<Name>, target: Entry, chain: seq<nat>) {
    && Leads(disk, v, 0, path, target) && !IsDirectory(target)
    && FileChain(disk, v, EntryCluster(target), EntrySize(target), chain)
  }
}
