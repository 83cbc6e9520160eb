/** The open file of a mounted volume: reading through a cached cursor, and moving it. */
module FatFile {
  import opened Basics
  import opened Bits
  import opened FatVolume

  const FA_OPENED: nat := 1

  function Min(a: nat, b: nat): nat {
    if a <= b then a else b
  }

  class FatFs {
    const disk: Disk
    const volume: Volume
    var flag: nat
    var fptr: nat
    var fsize: nat
    var orgClust: nat
    var currClust: nat
    var dsect: nat

    constructor (disk: Disk, volume: Volume)
      ensures this.disk == disk && this.volume == volume && flag == 0
      ensures fptr == 0 && fsize == 0
    {
      this.disk, this.volume := disk, volume;
      flag, fptr, fsize, orgClust, currClust, dsect := 0, 0, 0, 0, 0, 0;
    }

    /** What holds of the fields whatever the disk contains. */
    ghost predicate Valid()
      reads this
    {
      Ranges(volume) && fsize < TWO32 && (flag % 2 == FA_OPENED ==> fptr <= fsize)
    }

    /** The file is stored in `chain`. */
    ghost predicate Stored(chain: seq<nat>)
      reads `orgClust, `fsize
    {
      StoredIn(disk, volume, orgClust, fsize, chain)
    }

    /** A file is open and stored in `chain`, and the cached cursor agrees with the chain. */
    ghost predicate Coherent(chain: seq<nat>)
      reads this
    {
      && flag % 2 == FA_OPENED && fptr <= fsize && Stored(chain)
      && CursorAt(volume, chain, fptr, currClust, dsect)
    }

    ghost function Bytes(chain: seq<nat>): (r: seq<Byte>)
      requires Stored(chain)
      reads `orgClust, `fsize
      ensures |r| == fsize
    {
      Content(disk, volume, orgClust, fsize, chain)
    }

    /** Entering a found file: the end of opening it. */
    method Open(first: nat, size: nat)
      requires Ranges(volume) && size < TWO32
      modifies this
      ensures Valid() && flag == FA_OPENED && fptr == 0 && fsize == size && orgClust == first
      ensures forall chain :: StoredIn(disk, volume, first, size, chain) ==> Coherent(chain)
    {
      orgClust, fsize, fptr, flag := first, size, 0, FA_OPENED;
    }

    /** Copies part of a sector into the buffer; true on a disk error. */
    method DiskReadP(buff: array<Byte>, at: nat, sector: nat, offset: nat, count: nat) returns (failed: bool)
      requires offset + count <= 512 && at + count <= buff.Length
      modifies buff
      ensures failed <==> sector !in disk
      ensures !failed ==> buff[..] == Overwritten(old(buff[..]), at, disk[sector][offset..offset + count])
      ensures failed ==> buff[..] == old(buff[..])
    {
      failed := sector !in disk;
      if !failed {
        forall i | 0 <= i < count {
          buff[at + i] := disk[sector][offset + i];
        }
      }
    }

    /** Settles the sector to read from when the cursor is at the start of one. */
    method NextSector(ghost chain: seq<nat>) returns (res: FResult)
      requires Valid() && flag % 2 == FA_OPENED && fptr < fsize && fptr % 512 == 0
      modifies this`flag, this`currClust, this`dsect
      ensures Valid() && (res == FrOk ==> flag == old(flag)) && (res != FrOk ==> res == FrDiskErr && flag == 0)
      ensures old(Coherent(chain)) ==> res == FrOk && AtSector(volume, chain, fptr, currClust, dsect)
    {
      ghost var coherent := Coherent(chain);
      var cs := BitAnd(fptr / 512, volume.csize - 1);
      if coherent { Boundary(disk, volume, orgClust, fsize, chain, fptr, currClust); }
      if cs == 0 {
        res := NextCluster();
        if res != FrOk {
          return;
        }
      }
      assert coherent ==> InCluster(volume, chain, fptr, currClust);
      if coherent { Located(disk, volume, orgClust, fsize, chain, fptr, currClust, cs); }
      var sect := Clust2Sect(volume, currClust);
      if sect == 0 {
        flag := 0;
        return FrDiskErr;
      }
      dsect := Mod32(sect + cs);
      res := FrOk;
    }

    /** At a cluster boundary: takes the first cluster of the file, or the link of the current one. */
    method NextCluster() returns (res: FResult)
      modifies this`flag, this`currClust
      ensures var clst := if fptr == 0 then orgClust else GetFat(disk, volume, old(currClust));
        if clst <= 1 then res == FrDiskErr && flag == 0
        else res == FrOk && flag == old(flag) && currClust == clst
    {
      var clst := if fptr == 0 then orgClust else GetFat(disk, volume, currClust);
      if clst <= 1 {
        flag := 0;
        return FrDiskErr;
      }
      currClust := clst;
      res := FrOk;
    }

    /** Reads a piece of one sector at the cursor and moves the cursor behind it. */
    method ReadPiece(buff: array<Byte>, at: nat, rcnt: nat, ghost chain: seq<nat>, ghost coherent: bool)
      returns (res: FResult, ghost data: seq<Byte>)
      requires Valid() && flag % 2 == FA_OPENED && at + rcnt <= buff.Length
      requires 0 < rcnt && fptr % 512 + rcnt <= 512 && fptr + rcnt <= fsize
      requires coherent ==> Stored(chain) && AtSector(volume, chain, fptr, currClust, dsect)
      modifies this`flag, this`fptr, buff
      ensures Valid()
      ensures res == FrOk ==> flag == old(flag) && fptr == old(fptr) + rcnt
      ensures res == FrOk ==> |data| == rcnt && buff[..] == Overwritten(old(buff[..]), at, data)
      ensures res != FrOk ==> res == FrDiskErr && flag == 0 && fptr == old(fptr) && buff[..] == old(buff[..])
      ensures coherent ==> res == FrOk && CursorAt(volume, chain, fptr, currClust, dsect)
      ensures coherent ==> data == Bytes(chain)[old(fptr)..fptr]
    {
      if coherent {
        Piece(disk, volume, orgClust, fsize, chain, fptr, rcnt, currClust, dsect);
      }
      data := if dsect in disk then disk[dsect][fptr % 512..fptr % 512 + rcnt] else [];
      var dr := DiskReadP(buff, at, dsect, fptr % 512, rcnt);
      if dr {
        flag := 0;
        return FrDiskErr, data;
      }
      fptr := fptr + rcnt;
      res := FrOk;
    }

    /** Reads up to `btr` bytes from the cursor on into the buffer. */
    method Read(buff: array<Byte>, btr: nat, ghost chain: seq<nat>) returns (res: FResult, br: nat)
      requires Valid() && btr <= buff.Length
      modifies this`flag, this`fptr, this`currClust, this`dsect, buff
      ensures Valid()
      ensures res == FrNotOpened <==> old(flag) % 2 != FA_OPENED
      ensures res == FrNotOpened ==> br == 0 && flag == old(flag)
      ensures fptr == old(fptr) + br && br <= btr && buff[br..] == old(buff[..])[br..]
      ensures res == FrOk ==> br == Min(btr, old(fsize - fptr)) && flag == old(flag)
      ensures res == FrDiskErr ==> flag == 0
      ensures old(Coherent(chain)) ==> res == FrOk && Coherent(chain) && buff[..br] == Bytes(chain)[old(fptr)..fptr]
    {
      br := 0;
      if flag % 2 != FA_OPENED {
        return FrNotOpened, br;
      }
      ghost var coherent, start, original, delivered: seq<Byte> := Coherent(chain), fptr, buff[..], [];
      ghost var content := if coherent then Bytes(chain) else [];
      var rest := Min(btr, fsize - fptr);
      while rest > 0
        invariant Valid() && flag == old(flag)
        invariant fptr == start + br && br + rest == Min(btr, fsize - start)
        invariant |delivered| == br && buff[..] == Overwritten(original, 0, delivered)
        invariant coherent ==> Coherent(chain) && content == Bytes(chain) && delivered == content[start..fptr]
      {
        var rcnt;
        ghost var p, data: seq<Byte> := fptr, [];
        res, rcnt, data := ReadStep(buff, br, rest, chain, coherent);
        if res != FrOk {
          return;
        }
        OverwriteTwice(original, delivered, data);
        delivered := delivered + data;
        JoinSlices(content, start, p, fptr);
        rest, br := rest - rcnt, br + rcnt;
      }
      res := FrOk;
    }

    /** One round of reading: as much of the `rest` as the current sector holds. */
    method ReadStep(buff: array<Byte>, at: nat, rest: nat, ghost chain: seq<nat>, ghost coherent: bool)
      returns (res: FResult, rcnt: nat, ghost data: seq<Byte>)
      requires Valid() && flag % 2 == FA_OPENED && 0 < rest && fptr + rest <= fsize && at + rest <= buff.Length
      requires coherent ==> Coherent(chain)
      modifies this`flag, this`fptr, this`currClust, this`dsect, buff
      ensures Valid()
      ensures res == FrOk ==> 0 < rcnt <= rest && flag == old(flag) && fptr == old(fptr) + rcnt
      ensures res == FrOk ==> |data| == rcnt && buff[..] == Overwritten(old(buff[..]), at, data)
      ensures res != FrOk ==> res == FrDiskErr && flag == 0 && fptr == old(fptr) && buff[..] == old(buff[..])
      ensures coherent ==> res == FrOk && Coherent(chain) && data == Bytes(chain)[old(fptr)..fptr]
    {
      rcnt, data := 0, [];
      if fptr % 512 == 0 {
        res := NextSector(chain);
        if res != FrOk {
          return;
        }
      }
      rcnt := Min(512 - fptr % 512, rest);
      res, data := ReadPiece(buff, at, rcnt, chain, coherent);
    }

    /** Where a seek starts: at the current cluster when that is not behind the goal, else at the first one.
        `rest` is what remains to the goal from there. */
    method SeekStart(ifptr: nat, goal: nat, bcs: nat, ghost chain: seq<nat>, ghost coherent: bool)
      returns (rest: nat, clst: nat, ghost q: nat)
      requires Ranges(volume) && bcs == volume.csize * 512 && fptr == 0 && 0 < goal <= fsize < TWO32 && ifptr < TWO32
      requires coherent ==> Stored(chain) && CursorAt(volume, chain, ifptr, currClust, dsect)
      modifies this`fptr, this`currClust
      ensures fptr < TWO32 && rest < TWO32 && Mod32(fptr + rest) == goal
      ensures coherent ==> OnTheWay(chain, bcs, q, clst, goal, rest)
    {
      if ifptr > 0 && Onward(bcs, ifptr - 1, goal - 1) {
        rest, q := StartAtCurrent(ifptr, goal, bcs, chain, coherent);
        clst := currClust;
      } else {
        rest, clst, q := goal, orgClust, 0;
        currClust := clst;
        if coherent { InChain(disk, volume, orgClust, fsize, chain, goal - 1); }
      }
    }

    /** Starts at the current cluster: the cursor goes back to the first byte of it. */
    method StartAtCurrent(ifptr: nat, goal: nat, bcs: nat, ghost chain: seq<nat>, ghost coherent: bool)
      returns (rest: nat, ghost q: nat)
      requires Ranges(volume) && bcs == volume.csize * 512 && 0 < goal < TWO32 && 0 < ifptr < TWO32
      requires Onward(bcs, ifptr - 1, goal - 1)
      requires coherent ==> SoundVolume(volume) && InCluster(volume, chain, ifptr - 1, currClust)
      modifies this`fptr
      ensures fptr < TWO32 && rest < TWO32 && Mod32(fptr + rest) == goal
      ensures coherent ==> OnTheWay(chain, bcs, q, currClust, goal, rest)
    {
      q := 0;
      if coherent { q := StartHere(volume, chain, bcs, ifptr, goal, currClust); }
      fptr := BitAnd(ifptr - 1, TWO32 - bcs);
      WrapBack(fptr, goal);
      rest := Mod32(goal - fptr);
    }

    /** A seek has come to cluster number `q` of the chain, and `rest` bytes remain to the goal. */
    ghost predicate OnTheWay(chain: seq<nat>, bcs: nat, q: nat, clst: nat, goal: nat, rest: nat)
      reads `fptr, `currClust
    {
      && q < |chain| && clst == currClust == chain[q]
      && fptr == Times(bcs, q) && fptr + rest == goal && rest >= 1
    }

    /** Follows the chain until the goal is within the cluster reached. */
    method FollowChain(start: nat, togo: nat, goal: nat, bcs: nat, ghost chain: seq<nat>, ghost coherent: bool, ghost at: nat)
      returns (res: FResult, rest: nat, clst: nat, ghost q: nat)
      requires Ranges(volume) && bcs == volume.csize * 512 && goal <= fsize < TWO32 && fptr < TWO32 && togo < TWO32
      requires Mod32(fptr + togo) == goal
      requires coherent ==> Stored(chain) && OnTheWay(chain, bcs, at, start, goal, togo)
      modifies this`flag, this`fptr, this`currClust
      ensures res == FrOk ==> flag == old(flag) && Mod32(fptr + rest) == goal
      ensures res != FrOk ==> res == FrDiskErr && flag == 0
      ensures coherent ==> res == FrOk && rest <= bcs && OnTheWay(chain, bcs, q, clst, goal, rest)
    {
      rest, clst, q := togo, start, at;
      while rest > bcs
        invariant flag == old(flag) && fptr < TWO32 && rest < TWO32 && Mod32(fptr + rest) == goal
        invariant coherent ==> OnTheWay(chain, bcs, q, clst, goal, rest)
      {
        if coherent { NextInChain(disk, volume, orgClust, fsize, chain, bcs, q, goal, rest); }
        clst := GetFat(disk, volume, clst);
        if clst <= 1 || clst >= volume.nFatent {
          flag := 0;
          return FrDiskErr, rest, clst, q;
        }
        currClust := clst;
        WrapOn(fptr, rest, bcs);
        fptr := Mod32(fptr + bcs);
        rest, q := rest - bcs, q + 1;
      }
      res := FrOk;
    }

    /** Moves the cursor, following the chain from the current cluster on when that is not behind the goal. */
    method Seek(ofs: nat, ghost chain: seq<nat>) returns (res: FResult)
      requires Valid()
      modifies this`flag, this`fptr, this`currClust, this`dsect
      ensures Valid()
      ensures res == FrNotOpened <==> old(flag) % 2 != FA_OPENED
      ensures res == FrNotOpened ==> flag == old(flag) && fptr == old(fptr)
      ensures res == FrOk ==> flag == old(flag) && fptr == Min(ofs, fsize)
      ensures res == FrDiskErr ==> flag == 0
      ensures old(Coherent(chain)) ==> res == FrOk && Coherent(chain)
    {
      if flag % 2 != FA_OPENED {
        return FrNotOpened;
      }
      ghost var coherent := Coherent(chain);
      var goal, ifptr := Min(ofs, fsize), fptr;
      fptr := 0;
      res := FrOk;
      if goal > 0 {
        res := SeekTo(goal, ifptr, chain, coherent);
      }
    }

    /** Moves the cursor from the start of the file to the goal, given where it was before. */
    method SeekTo(goal: nat, ifptr: nat, ghost chain: seq<nat>, ghost coherent: bool) returns (res: FResult)
      requires Ranges(volume) && fptr == 0 && 0 < goal <= fsize < TWO32 && ifptr < TWO32
      requires coherent ==> Stored(chain) && CursorAt(volume, chain, ifptr, currClust, dsect)
      modifies this`flag, this`fptr, this`currClust, this`dsect
      ensures res == FrOk ==> flag == old(flag) && fptr == goal
      ensures res != FrOk ==> res == FrDiskErr && flag == 0
      ensures coherent ==> res == FrOk && CursorAt(volume, chain, goal, currClust, dsect)
    {
      var bcs := volume.csize * 512;
      var rest, clst;
      ghost var q;
      rest, clst, q := SeekStart(ifptr, goal, bcs, chain, coherent);
      res, rest, clst, q := FollowChain(clst, rest, goal, bcs, chain, coherent, q);
      if res != FrOk {
        return;
      }
      if coherent { SeekEnds(disk, volume, orgClust, fsize, chain, bcs, q, goal, rest); }
      fptr := Mod32(fptr + rest);
      var sect := Clust2Sect(volume, clst);
      if sect == 0 {
        flag := 0;
        return FrDiskErr;
      }
      dsect := Mod32(sect + BitAnd(fptr / 512, volume.csize - 1));
    }

    /** Any sequence of reads and seeks on a well-formed file: each read returns what the reference says. */
    method Run(ops: seq<Op>, ghost chain: seq<nat>) returns (outputs: seq<seq<Byte>>)
      requires Valid() && Coherent(chain)
      modifies this`flag, this`fptr, this`currClust, this`dsect
      ensures Valid() && Coherent(chain)
      ensures outputs == Reference(Bytes(chain), old(fptr), ops)
    {
      outputs := [];
      ghost var content, start := Bytes(chain), fptr;
      var i := 0;
      while i < |ops|
        invariant 0 <= i <= |ops| && Valid() && Coherent(chain) && content == Bytes(chain)
        invariant Reference(content, start, ops) == outputs + Reference(content, fptr, ops[i..])
      {
        ghost var before, p := outputs, fptr;
        ReferenceStep(content, p, ops, i);
        var out := Serve(ops[i], chain);
        outputs := outputs + out;
        Assoc(before, out, Reference(content, fptr, ops[i + 1..]));
        i := i + 1;
      }
      assert ops[|ops|..] == [];
    }

    /** A read into a buffer of its own. */
    method ReadNew(n: nat, ghost chain: seq<nat>) returns (data: seq<Byte>)
      requires Valid() && Coherent(chain)
      modifies this`flag, this`fptr, this`currClust, this`dsect
      ensures Valid() && Coherent(chain)
      ensures fptr == old(fptr) + Min(n, fsize - old(fptr)) && data == Bytes(chain)[old(fptr)..fptr]
    {
      var buff := new Byte[n];
      var res, br := Read(buff, n, chain);
      data := buff[..br];
    }

    /** One operation on a well-formed file. */
    method Serve(op: Op, ghost chain: seq<nat>) returns (out: seq<seq<Byte>>)
      requires Valid() && Coherent(chain)
      modifies this`flag, this`fptr, this`currClust, this`dsect
      ensures Valid() && Coherent(chain)
      ensures (out, fptr) == Served(Bytes(chain), old(fptr), op)
    {
      match op {
        case ReadOp(n) =>
          var data := ReadNew(n, chain);
          out := [data];
        case SeekOp(ofs) =>
          var res := Seek(ofs, chain);
          out := [];
      }
    }
  }

  datatype Op = ReadOp(n: nat) | SeekOp(ofs: nat)

  /** What one operation on a file of the given bytes returns, and where it leaves the position. */
  ghost function Served(content: seq<Byte>, pos: nat, op: Op): (r: (seq<seq<Byte>>, nat))
    requires pos <= |content|
    ensures r.1 <= |content|
  {
    match op
    case ReadOp(n) => var end := pos + Min(n, |content| - pos); ([content[pos..end]], end)
    case SeekOp(ofs) => ([], Min(ofs, |content|))
  }

  /** What a session on a file of the given bytes returns, without any cursor but the position. */
  ghost function Reference(content: seq<Byte>, pos: nat, ops: seq<Op>): seq<seq<Byte>>
    requires pos <= |content|
    decreases |ops|
  {
    if ops == [] then []
    else
      var (out, next) := Served(content, pos, ops[0]);
      out + Reference(content, next, ops[1..])
  }

  /** The reference session, one request further. */
  lemma ReferenceStep(content: seq<Byte>, pos: nat, ops: seq<Op>, i: nat)
    requires pos <= |content| && i < |ops|
    ensures var (out, next) := Served(content, pos, ops[i]);
      Reference(content, pos, ops[i..]) == out + Reference(content, next, ops[i + 1..])
  {
    var rest := ops[i..];
    assert rest[0] == ops[i] && rest[1..] == ops[i + 1..];
  }

  ghost function Concat(parts: seq<seq<Byte>>): seq<Byte> {
    if parts == [] then [] else parts[0] + Concat(parts[1..])
  }

  ghost function Requested(ops: seq<Op>): nat {
    if ops == [] then 0 else (if ops[0].ReadOp? then ops[0].n else 0) + Requested(ops[1..])
  }

  /** However requests are cut into reads, together they return one stretch of the file. */
  lemma {:induction false} ChunkingIsInvisible(content: seq<Byte>, pos: nat, ops: seq<Op>)
    requires pos <= |content| && forall op :: op in ops ==> op.ReadOp?
    ensures Concat(Reference(content, pos, ops)) == content[pos..Min(pos + Requested(ops), |content|)]
    decreases |ops|
  {
    if ops != [] {
      assert ops[0] in ops;
      var end := pos + Min(ops[0].n, |content| - pos);
      ChunkingIsInvisible(content, end, ops[1..]);
      ConcatFront(content[pos..end], Reference(content, end, ops[1..]));
      JoinSlices(content, pos, end, Min(end + Requested(ops[1..]), |content|));
    }
  }

  lemma ConcatFront(part: seq<Byte>, parts: seq<seq<Byte>>)
    ensures Concat([part] + parts) == part + Concat(parts)
  {
    assert ([part] + parts)[1..] == parts;
  }

  /** After any session, seeking and reading returns the bytes from there: nothing of the past shows. */
  lemma {:induction false} SeekForgets(content: seq<Byte>, pos: nat, ops: seq<Op>, ofs: nat, n: nat)
    requires pos <= |content|
    ensures var outputs := Reference(content, pos, ops + [SeekOp(ofs), ReadOp(n)]);
      && outputs != []
      && outputs[|outputs| - 1] == content[Min(ofs, |content|)..Min(Min(ofs, |content|) + n, |content|)]
    decreases |ops|
  {
    var last, from := [SeekOp(ofs), ReadOp(n)], Min(ofs, |content|);
    if ops == [] {
      assert ops + last == last && last[1..] == [ReadOp(n)] && [ReadOp(n)][1..] == [];
      SingleRead(content, from, n);
    } else {
      SeekForgets(content, Served(content, pos, ops[0]).1, ops[1..], ofs, n);
      assert (ops + last)[1..] == ops[1..] + last;
    }
  }

  lemma SingleRead(content: seq<Byte>, pos: nat, n: nat)
    requires pos <= |content|
    ensures Reference(content, pos, [ReadOp(n)]) == [content[pos..Min(pos + n, |content|)]]
  {
    assert [ReadOp(n)][1..] == [];
  }

  lemma WrapBack(f: nat, goal: nat)
    requires goal < TWO32
    ensures Mod32(f + Mod32(goal - f)) == goal
    ensures f <= goal ==> Mod32(goal - f) == goal - f
  {
  }

  lemma WrapOn(f: nat, rest: nat, step: nat)
    requires step <= rest
    ensures Mod32(Mod32(f + step) + (rest - step)) == Mod32(f + rest)
    ensures f + step < TWO32 ==> Mod32(f + step) == f + step
  {
  }

  /** Counting clusters by bytes or by sectors is the same. */
  lemma QuotOfBytes(x: nat, csize: nat)
    requires csize > 0
    ensures Quot(x, csize * 512) == Quot(x / 512, csize)
    ensures Rest(x, csize * 512) == 512 * Rest(x / 512, csize) + x % 512
  {
    var q, r := Quot(x / 512, csize), Rest(x / 512, csize);
    QuotRest(x / 512, csize);
    TimesScale(csize, 512, q);
    QuotRestUnique(x, csize * 512, q, 512 * r + x % 512);
  }

  lemma ClusterBytes(k: nat)
    requires k <= 7
    ensures Pow2(k + 9) == Pow2(k) * 512
  {
    assert Pow2(k + 2) == 4 * Pow2(k);
    assert Pow2(k + 4) == 4 * Pow2(k + 2);
    assert Pow2(k + 6) == 4 * Pow2(k + 4);
    assert Pow2(k + 8) == 4 * Pow2(k + 6);
  }

  /** Masking with the complement of the cluster size rounds down to a cluster boundary. */
  lemma RoundDown(v: Volume, bcs: nat, x: nat)
    requires SoundVolume(v) && bcs == v.csize * 512 && x < TWO32
    ensures BitAnd(x, TWO32 - bcs) == Times(bcs, Quot(x, bcs))
  {
    var k: nat :| k <= 7 && v.csize == Pow2(k);
    TwoTo32();
    ClusterBytes(k);
    HighMask(x, 32, k + 9, TWO32 - bcs);
    QuotRest(x, bcs);
  }

  /** Going on from the current cluster: its number in the chain, and why it is not behind the goal. */
  lemma StartHere(v: Volume, chain: seq<nat>, bcs: nat, ifptr: nat, goal: nat, curr: nat) returns (q: nat)
    requires SoundVolume(v) && bcs == v.csize * 512
    requires 0 < ifptr < TWO32 && 0 < goal && InCluster(v, chain, ifptr - 1, curr)
    requires Onward(bcs, ifptr - 1, goal - 1)
    ensures q < |chain| && chain[q] == curr
    ensures BitAnd(ifptr - 1, TWO32 - bcs) == Times(bcs, q) < goal
  {
    q := Quot(ifptr - 1, bcs);
    RoundDown(v, bcs, ifptr - 1);
    QuotOfBytes(ifptr - 1, v.csize);
    NotBehind(bcs, ifptr - 1, goal - 1);
  }

  /** Byte `y` is in the cluster of byte `x` of the file or in a later one. */
  predicate Onward(bcs: nat, x: nat, y: nat)
    requires bcs > 0
  {
    y / bcs >= x / bcs
  }

  lemma NotBehind(bcs: nat, x: nat, y: nat)
    requires bcs > 0 && Onward(bcs, x, y)
    ensures Times(bcs, Quot(x, bcs)) <= y
  {
    QuotIsDiv(x, bcs);
    QuotIsDiv(y, bcs);
    QuotRest(y, bcs);
    TimesMonotone(bcs, Quot(x, bcs), Quot(y, bcs));
  }

  /** More than a cluster to go: the chain goes on, with the link of the current cluster. */
  lemma NextInChain(disk: Disk, v: Volume, first: nat, size: nat, chain: seq<nat>, bcs: nat, q: nat, goal: nat, rest: nat)
    requires StoredIn(disk, v, first, size, chain) && 0 < goal <= size && q < |chain|
    requires bcs == v.csize * 512 && goal == Times(bcs, q) + rest && rest > bcs
    ensures q + 1 < |chain| && chain[q + 1] == GetFat(disk, v, chain[q]) && ValidCluster(v, chain[q + 1])
  {
    InChain(disk, v, first, size, chain, goal - 1);
    QuotOfBytes(goal - 1, v.csize);
    QuotAtLeast(bcs, q + 1, goal - 1);
  }

  lemma QuotAtLeast(c: nat, n: nat, x: nat)
    requires c > 0 && x >= Times(c, n)
    ensures Quot(x, c) >= n
  {
    QuotRest(x, c);
    if Quot(x, c) + 1 <= n {
      TimesMonotone(c, Quot(x, c) + 1, n);
    }
  }

  /** Within a cluster of the goal: the cursor is coherent there. */
  lemma SeekEnds(disk: Disk, v: Volume, first: nat, size: nat, chain: seq<nat>, bcs: nat, q: nat, goal: nat, rest: nat)
    requires StoredIn(disk, v, first, size, chain) && goal <= size && q < |chain|
    requires bcs == v.csize * 512 && goal == Times(bcs, q) + rest && 1 <= rest <= bcs
    ensures Clust2Sect(v, chain[q]) > 0
    ensures CursorAt(v, chain, goal, chain[q], Mod32(Clust2Sect(v, chain[q]) + BitAnd(goal / 512, v.csize - 1)))
  {
    QuotRestUnique(goal - 1, bcs, q, rest - 1);
    QuotOfBytes(goal - 1, v.csize);
    SectorWithin(v, chain[q], goal / 512);
    if goal % 512 != 0 {
      assert goal / 512 == (goal - 1) / 512;
    }
  }

  lemma SectorWithin(v: Volume, c: nat, s: nat)
    requires SoundVolume(v) && ValidCluster(v, c)
    ensures Clust2Sect(v, c) > 0
    ensures Mod32(Clust2Sect(v, c) + BitAnd(s, v.csize - 1)) == Clust2Sect(v, c) + Rest(s, v.csize)
  {
    ClusterSectors(v, c);
    SectorInCluster(v, s);
    QuotRest(s, v.csize);
    ModSmall(Clust2Sect(v, c) + Rest(s, v.csize));
  }

  /** The piece of a sector read at the cursor is the next piece of the file, and the cursor can move behind it. */
  lemma Piece(disk: Disk, v: Volume, first: nat, size: nat, chain: seq<nat>, p: nat, n: nat, c: nat, sector: nat)
    requires StoredIn(disk, v, first, size, chain) && AtSector(v, chain, p, c, sector)
    requires 0 < n && p % 512 + n <= 512 && p + n <= size
    ensures sector in disk && disk[sector][p % 512..p % 512 + n] == Content(disk, v, first, size, chain)[p..p + n]
    ensures CursorAt(v, chain, p + n, c, sector)
  {
    assert CursorAt(v, chain, p + n, c, sector) by { WithinSector(v, chain, p, p + n, c); }
    assert sector in disk by { InChain(disk, v, first, size, chain, p); }
    PieceOfFile(disk, v, first, size, chain, p, n);
  }

  lemma JoinSlices(s: seq<Byte>, a: nat, b: nat, c: nat)
    ensures a <= b <= c <= |s| ==> s[a..b] + s[b..c] == s[a..c]
  {
  }

  /** `s` with `data` put over it from `at` on. */
  ghost function Overwritten(s: seq<Byte>, at: nat, data: seq<Byte>): seq<Byte>
    requires at + |data| <= |s|
  {
    s[..at] + data + s[at + |data|..]
  }

  lemma OverwriteTwice(s: seq<Byte>, a: seq<Byte>, b: seq<Byte>)
    requires |a| + |b| <= |s|
    ensures Overwritten(Overwritten(s, 0, a), |a|, b) == Overwritten(s, 0, a + b)
  {
  }

  /** The cached cluster is that of the byte before `p`; within a sector the cached sector is that of byte `p`. */
  ghost predicate CursorAt(v: Volume, chain: seq<nat>, p: nat, c: nat, sector: nat) {
    && (p > 0 ==> InCluster(v, chain, p - 1, c))
    && (p % 512 != 0 ==> AtSector(v, chain, p, c, sector))
  }

  /** The cursor's cluster and sector are those of byte `p`. */
  ghost predicate AtSector(v: Volume, chain: seq<nat>, p: nat, c: nat, sector: nat) {
    InCluster(v, chain, p, c) && sector == SectorOf(v, chain, p)
  }

  /** `c` is the cluster of the chain that holds byte `p`. */
  ghost predicate InCluster(v: Volume, chain: seq<nat>, p: nat, c: nat) {
    Quot(p / 512, v.csize) < |chain| && chain[Quot(p / 512, v.csize)] == c
  }

  /** At a sector boundary the mask tells whether a new cluster begins, and if so its number is the first
      cluster's or the link of the cluster just left. */
  lemma Boundary(disk: Disk, v: Volume, first: nat, size: nat, chain: seq<nat>, p: nat, curr: nat)
    requires StoredIn(disk, v, first, size, chain) && p < size && p % 512 == 0
    requires p > 0 ==> InCluster(v, chain, p - 1, curr)
    ensures var cs := BitAnd(p / 512, v.csize - 1); var clst := if p == 0 then first else GetFat(disk, v, curr);
      && cs == Rest(p / 512, v.csize)
      && (cs == 0 ==> clst >= 2 && InCluster(v, chain, p, clst))
      && (cs != 0 ==> InCluster(v, chain, p, curr))
  {
    var s := p / 512;
    SectorInCluster(v, s);
    InChain(disk, v, first, size, chain, p);
    if p > 0 {
      assert (p - 1) / 512 == s - 1;
      QuotStep(s - 1, v.csize);
    }
  }

  /** The sector computed for a byte's cluster is the sector that holds the byte. */
  lemma Located(disk: Disk, v: Volume, first: nat, size: nat, chain: seq<nat>, p: nat, c: nat, cs: nat)
    requires StoredIn(disk, v, first, size, chain) && p < size && InCluster(v, chain, p, c) && cs == Rest(p / 512, v.csize)
    ensures Clust2Sect(v, c) > 0 && AtSector(v, chain, p, c, Mod32(Clust2Sect(v, c) + cs))
  {
    ClusterSectors(v, c);
    QuotRest(p / 512, v.csize);
    ModSmall(Clust2Sect(v, c) + cs);
  }

  /** Moving on within a sector, or to its end, stays in the cluster. */
  lemma WithinSector(v: Volume, chain: seq<nat>, p: nat, q: nat, c: nat)
    requires p < q <= p - p % 512 + 512 && InCluster(v, chain, p, c)
    ensures InCluster(v, chain, q - 1, c)
    ensures q % 512 != 0 ==> Quot(q / 512, v.csize) < |chain| && SectorOf(v, chain, q) == SectorOf(v, chain, p)
  {
    assert (q - 1) / 512 == p / 512;
    assert q % 512 != 0 ==> q / 512 == p / 512;
  }

  /** The cached cursor in the usual operators: its cluster is number `(p - 1) / 512 / csize` of the chain, and within a
      sector the cached sector is the one that holds byte `p`. */
  lemma CursorAtIs(v: Volume, chain: seq<nat>, p: nat, c: nat, sector: nat)
    requires v.csize > 0
    ensures CursorAt(v, chain, p, c, sector) <==>
      && (p > 0 ==> HasCluster(v, chain, (p - 1) / 512, c))
      && (p % 512 != 0 ==> HasCluster(v, chain, p / 512, c) && sector == Clust2Sect(v, c) + p / 512 % v.csize)
  {
    if p > 0 { HasClusterIs(v, chain, (p - 1) / 512, c); }
    HasClusterIs(v, chain, p / 512, c);
    QuotIsDiv(p / 512, v.csize);
  }

  /** Cluster `c` of the chain holds sector `s` of the file. */
  ghost predicate HasCluster(v: Volume, chain: seq<nat>, s: nat, c: nat)
    requires v.csize > 0
  {
    exists q :: 0 <= q < |chain| && q == s / v.csize && chain[q] == c
  }

  lemma HasClusterIs(v: Volume, chain: seq<nat>, s: nat, c: nat)
    requires v.csize > 0
    ensures HasCluster(v, chain, s, c) <==> Quot(s, v.csize) < |chain| && chain[Quot(s, v.csize)] == c
  {
    QuotIsDiv(s, v.csize);
  }
}
