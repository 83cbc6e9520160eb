/** The 1-Wire ROM search: a bus of devices answering by wired-AND, and the master that walks it. */
module OneWire {
  import opened RomOrder
  import opened RomBytes
  import opened RomSearch
  import opened RomCrc

  const SEARCH_ROM: bv8 := 0xF0

  /** What a device in the search expects next. */
  datatype Phase = Idle | TrueBit | ComplementBit | Direction

  /** The slaves on the bus. `active` are the devices still taking part in the running search. */
  class Bus {
    const devices: set<Rom>
    var active: set<Rom>
    var position: nat
    var phase: Phase

    constructor (devices: set<Rom>)
      ensures this.devices == devices
    {
      this.devices := devices;
      active, position, phase := {}, 0, Idle;
    }

    /** A reset pulse; tells whether no device answered it. */
    method Reset() returns (absent: bool)
      modifies this
      ensures absent <==> devices == {}
      ensures active == {} && phase == Idle
    {
      active, position, phase := {}, 0, Idle;
      absent := devices == {};
    }

    method WriteByte(command: bv8)
      modifies this
      ensures command == SEARCH_ROM ==> active == devices && position == 0 && phase == TrueBit
      ensures command != SEARCH_ROM ==> active == {} && phase == Idle
    {
      active, position := {}, 0;
      phase := Idle;
      if command == SEARCH_ROM {
        active, phase := devices, TrueBit;
      }
    }

    /** The line is high unless some active device pulls it low. */
    method ReadBit() returns (high: bool)
      modifies this
      ensures active == old(active) && position == old(position)
      ensures old(phase) == TrueBit && position < 64 ==> phase == ComplementBit && (high <==> forall x :: x in active ==> x[position])
      ensures old(phase) == ComplementBit && position < 64 ==> phase == Direction && (high <==> forall x :: x in active ==> !x[position])
    {
      high := true;
      if position < 64 {
        match phase
        case TrueBit => high, phase := (forall x :: x in active ==> x[position]), ComplementBit;
        case ComplementBit => high, phase := (forall x :: x in active ==> !x[position]), Direction;
        case _ =>
      }
    }

    /** The written direction bit drops the devices with the other bit out of the search. */
    method WriteBit(b: bool)
      modifies this
      ensures old(phase) == Direction && old(position) < 64 ==>
        && active == (set x | x in old(active) && x[old(position)] == b)
        && position == old(position) + 1 && phase == TrueBit
    {
      if phase == Direction && position < 64 {
        active, position, phase := (set x | x in active && x[position] == b), position + 1, TrueBit;
      }
    }
  }

  /** A ROM number whose eight bytes pass the CRC and whose family code is not 0. */
  ghost predicate WellFormed(x: Rom) {
    exists bytes: seq<bv8> :: |bytes| == 8 && ToBits(bytes) == x && Accepted(bytes)
  }

  /** What the search checks of the bytes it has collected. */
  predicate Accepted(bytes: seq<bv8>)
    requires |bytes| == 8
  {
    Crc(DSCRC_TABLE, bytes) == 0 && bytes[0] != 0
  }

  lemma WellFormedBytes(bytes: seq<bv8>)
    requires |bytes| == 8
    ensures WellFormed(ToBits(bytes)) <==> Accepted(bytes)
  {
    if WellFormed(ToBits(bytes)) {
      var other: seq<bv8> :| |other| == 8 && ToBits(other) == ToBits(bytes) && Accepted(other);
      BytesFromBits(other, bytes);
    }
  }

  /** What makes a ROM number well formed, said of its 64 bits alone: dividing them by x^8 + x^5 + x^4 + 1, first bit first,
      leaves nothing, and the family code is not all zeros. */
  lemma WellFormedIs(x: Rom)
    ensures WellFormed(x) <==> Remainder(x) == ZEROS && exists n :: 0 <= n < 8 && x[n]
  {
    var bytes := BytesFrom(x);
    BytesFromBack(x);
    WellFormedBytes(bytes);
    CrcIsRemainder(bytes);
    FamilyNotZero(bytes);
  }

  lemma FamilyNotZero(bytes: seq<bv8>)
    requires |bytes| == 8
    ensures bytes[0] != 0 <==> exists n :: 0 <= n < 8 && ToBits(bytes)[n]
  {
    if forall n :: 0 <= n < 8 ==> !ToBits(bytes)[n] {
      forall k: nat | k < 8
        ensures ByteBit(bytes[0], k) == ByteBit(0, k)
      {
        assert !ToBits(bytes)[k];
      }
      ByteByBits(bytes[0], 0);
    }
  }

  /** Every family code but 0 and every serial number occur in a well-formed ROM number: the CRC completes them. */
  lemma CrcCompletes(bytes: seq<bv8>)
    requires |bytes| == 7 && bytes[0] != 0
    ensures WellFormed(ToBits(bytes + [Crc(DSCRC_TABLE, bytes)]))
  {
    var crc := Crc(DSCRC_TABLE, bytes);
    CrcAppend(DSCRC_TABLE, bytes, crc);
    TableZero();
    CrcStepZero(DSCRC_TABLE, crc, crc);
    WellFormedBytes(bytes + [crc]);
  }

  /** Two well-formed ROM numbers cannot differ in the last bit only. */
  lemma LastBitDecided(x: Rom, y: Rom)
    requires WellFormed(x) && WellFormed(y) && Agree(x, y, 63)
    ensures x == y
  {
    var a: seq<bv8> :| |a| == 8 && ToBits(a) == x && Accepted(a);
    var b: seq<bv8> :| |b| == 8 && ToBits(b) == y && Accepted(b);
    assert Agree(x, y, 8 * 7);
    AgreeOnBytes(a, b, 7);
    TableZero();
    SevenBytesDecide(DSCRC_TABLE, a, b);
  }

  ghost predicate AllWellFormed(devices: set<Rom>) {
    forall x :: x in devices ==> WellFormed(x)
  }

  lemma NoLastConflict(devices: set<Rom>, x: Rom)
    requires AllWellFormed(devices)
    ensures !Conflict(devices, x, 63)
  {
    if Conflict(devices, x, 63) {
      var y, z :| y in devices && z in devices && Agree(x, y, 63) && Agree(x, z, 63) && !y[63] && z[63];
      assert Agree(y, z, 63) by {
        assert forall i: nat :: i < 63 ==> x[i] == y[i];
      }
      LastBitDecided(y, z);
    }
  }

  /** A search told to follow `x` throughout selects `x` exactly when `x` is there, unless `x` has a 0
      as its last bit and a twin differing in that bit only. */
  lemma FollowingSelects(devices: set<Rom>, x: Rom)
    ensures Selected(devices, x, 64, x) <==> x in devices && (Conflict(devices, x, 63) ==> x[63])
  {
    if x in devices && (Conflict(devices, x, 63) ==> x[63]) {
      forall n: nat | n < 64 && Conflict(devices, x, n)
        ensures x[n] == Choice(x, 64, n)
      {
      }
    }
    if Selected(devices, x, 64, x) && Conflict(devices, x, 63) {
      assert x[63] == Choice(x, 64, 63);
    }
  }

  lemma DeviceAccepted(devices: set<Rom>, bytes: seq<bv8>)
    requires AllWellFormed(devices) && |bytes| == 8 && ToBits(bytes) in devices
    ensures Accepted(bytes)
  {
    WellFormedBytes(bytes);
  }

  /** A target as OWTargetSetup leaves it: the family code, then zeros. */
  ghost predicate TargetOf(target: Rom, family: seq<bool>) {
    Family(target) == family && forall n: nat :: 8 <= n < 64 ==> !target[n]
  }

  /** Following a target keeps to its family code as long as some device has that code. */
  lemma TargetKeepsFamily(devices: set<Rom>, target: Rom, x: Rom, member: Rom)
    requires Selected(devices, target, 64, x)
    requires member in devices && Agree(member, target, 8)
    ensures Agree(x, member, 8)
  {
    var n := 0;
    while n < 8
      invariant n <= 8 && Agree(x, member, n)
    {
      if x[n] != member[n] {
        assert Agree(x, x, n);
        assert Conflict(devices, x, n);
        assert false;
      }
      n := n + 1;
    }
  }

  /** Beyond the family code the target's zeros lead to the first device. */
  lemma TargetLeadsFirst(devices: set<Rom>, target: Rom, family: seq<bool>, x: Rom, z: Rom)
    requires AllWellFormed(devices) && TargetOf(target, family) && Selected(devices, target, 64, x)
    requires z in devices && Agree(x, z, 8)
    ensures z == x || Less(x, z)
  {
    if x != z {
      assert !Agree(x, z, 64);
      var k := FirstDifference(x, z, 64);
      if SplitsAt(z, x, k) {
        GreaterMeansConflict(devices, z, x, k);
        PrefixDecides(devices, z, x, k);
        NoLastConflict(devices, x);
        assert false;
      }
    }
  }

  /** Following a target selects the least device of its family, if the family is there. */
  lemma TargetSelectsLeast(devices: set<Rom>, target: Rom, family: seq<bool>, x: Rom)
    requires AllWellFormed(devices) && TargetOf(target, family) && Selected(devices, target, 64, x)
    requires exists z :: z in devices && Family(z) == family
    ensures Family(x) == family && LeastOfFamily(devices, x)
  {
    var member :| member in devices && Family(member) == family;
    SameFamilyAgree(member, target);
    TargetKeepsFamily(devices, target, x, member);
    assert Family(x) == Family(member);
    forall z | z in devices && Family(z) == Family(x)
      ensures z == x || Less(x, z)
    {
      SameFamilyAgree(x, z);
      TargetLeadsFirst(devices, target, family, x, z);
    }
  }

  /** The master: the search state kept between calls and the operations on it. */
  class Searcher {
    const bus: Bus
    const romNo: array<bv8>
    var lastDiscrepancy: int
    var lastFamilyDiscrepancy: int
    var lastDeviceFlag: bool
    var crc8: bv8

    ghost predicate Valid() {
      romNo.Length == 8
    }

    /** The ROM number in the buffer. */
    ghost function Shown(): Rom
      requires Valid()
      reads romNo
    {
      ToBits(romNo[..])
    }

    constructor (bus: Bus)
      ensures Valid() && fresh(romNo) && this.bus == bus
    {
      this.bus := bus;
      romNo := new bv8[8](_ => 0);
      lastDiscrepancy, lastFamilyDiscrepancy, lastDeviceFlag, crc8 := 0, 0, false, 0;
    }

    /** Accumulates the CRC of one more byte, byte `k` of the buffer. */
    method DoCrc8(value: bv8, ghost k: nat)
      requires Valid() && k < 8 && value == romNo[k] && crc8 == Crc(DSCRC_TABLE, romNo[..k])
      modifies this`crc8
      ensures crc8 == Crc(DSCRC_TABLE, romNo[..k + 1])
    {
      crc8 := CrcStep(DSCRC_TABLE, crc8, value);
      CrcAppend(DSCRC_TABLE, romNo[..k], value);
      assert romNo[..k + 1] == romNo[..k] + [value];
    }

    /** Moves number and mask on to the next bit; at the end of a byte its CRC is accumulated. */
    method NextBit(idBitNumber: int, romByteNumber: nat, romByteMask: bv8) returns (number: int, byteNumber: nat, mask: bv8)
      requires Valid() && 1 <= idBitNumber <= 64
      requires romByteNumber == (idBitNumber - 1) / 8 && romByteMask == Mask((idBitNumber - 1) % 8)
      requires crc8 == Crc(DSCRC_TABLE, romNo[..romByteNumber])
      modifies this`crc8
      ensures number == idBitNumber + 1 && byteNumber == (number - 1) / 8 && mask == Mask((number - 1) % 8)
      ensures byteNumber <= 8 && crc8 == Crc(DSCRC_TABLE, romNo[..byteNumber])
    {
      NextMask((idBitNumber - 1) % 8);
      number, byteNumber := idBitNumber + 1, romByteNumber;
      mask := romByteMask << 1;
      if mask == 0 {
        DoCrc8(romNo[byteNumber], byteNumber);
        byteNumber := byteNumber + 1;
        mask := 1;
      }
    }

    /** The pass that started from `previous` has settled `n` bits, and bus and records say so. */
    ghost predicate Walking(previous: Rom, before: int, n: nat, lastZero: int)
      requires Valid()
      reads `lastDiscrepancy, `lastFamilyDiscrepancy, romNo, bus
    {
      && Progress(bus.devices, previous, lastDiscrepancy, Shown(), n)
      && (n < 64 ==> bus.active == Remaining(bus.devices, Shown(), n) && bus.position == n && bus.phase == TrueBit)
      && lastZero == DeepestZero(bus.devices, Shown(), n)
      && lastFamilyDiscrepancy == FamilyDiscrepancy(bus.devices, Shown(), n, before)
    }

    /** The bit of the previous ROM number under the mask. */
    method BitUnderMask(romByteNumber: nat, romByteMask: bv8, ghost n: nat) returns (b: bool)
      requires Valid() && n < 64 && romByteNumber == n / 8 && romByteMask == Mask(n % 8)
      ensures b == Shown()[n]
    {
      b := romNo[romByteNumber] & romByteMask != 0;
      assert romNo[..][n / 8] == romNo[romByteNumber];
    }

    /** Sets or clears the bit under the mask in one byte of the buffer. */
    method StoreBit(romByteNumber: nat, romByteMask: bv8, b: bool, ghost n: nat)
      requires Valid() && n < 64 && romByteNumber == n / 8 && romByteMask == Mask(n % 8)
      modifies romNo
      ensures Shown() == old(Shown())[n := b]
      ensures romNo[..romByteNumber] == old(romNo[..romByteNumber])
    {
      EditBit(romNo[..], n, b);
      var edited := EditByte(romNo[romByteNumber], romByteMask, b, n % 8);
      ghost var bytes := romNo[..];
      romNo[romByteNumber] := edited;
      assert romNo[..] == bytes[romByteNumber := edited];
    }

    method EditByte(byte: bv8, mask: bv8, b: bool, ghost k: nat) returns (edited: bv8)
      requires k < 8 && mask == Mask(k)
      ensures edited == WithBit(byte, k, b)
    {
      edited := if b then byte | mask else byte & !mask;
    }

    /** Reads a bit and its complement and settles the direction to take; a choice of 0 is recorded. */
    method Choose(idBitNumber: int, romByteNumber: nat, romByteMask: bv8, lastZero: int, ghost previous: Rom, ghost before: int)
      returns (silent: bool, searchDirection: bool, newLastZero: int)
      requires Valid() && 1 <= idBitNumber <= 64
      requires romByteNumber == (idBitNumber - 1) / 8 && romByteMask == Mask((idBitNumber - 1) % 8)
      requires Walking(previous, before, idBitNumber - 1, lastZero)
      modifies this`lastFamilyDiscrepancy, bus
      ensures !silent
      ensures bus.active == old(bus.active) && bus.position == old(bus.position) && bus.phase == Direction
      ensures var n, shown := idBitNumber - 1, Shown();
        && (exists x :: x in Remaining(bus.devices, shown, n) && x[n] == searchDirection)
        && (Conflict(bus.devices, shown, n) ==> searchDirection == Choice(previous, lastDiscrepancy, n))
        && var zero := Conflict(bus.devices, shown, n) && !searchDirection;
           && newLastZero == (if zero then n + 1 else lastZero)
           && lastFamilyDiscrepancy == (if zero && n + 1 < 9 then n + 1 else old(lastFamilyDiscrepancy))
    {
      ghost var devices, n, shown := bus.devices, idBitNumber - 1, Shown();
      newLastZero, searchDirection := lastZero, false;
      ghost var some :| some in devices && Agree(shown, some, n);
      assert some in Remaining(devices, shown, n);
      ConflictFromReads(devices, shown, n);
      var idBit := bus.ReadBit();
      var cmpIdBit := bus.ReadBit();
      silent := idBit && cmpIdBit;
      if silent {
        return;
      }
      if idBit != cmpIdBit {
        searchDirection := idBit;
        assert some[n] == searchDirection;
      } else {
        if idBitNumber < lastDiscrepancy {
          searchDirection := BitUnderMask(romByteNumber, romByteMask, n);
        } else {
          searchDirection := idBitNumber == lastDiscrepancy;
        }
        if !searchDirection {
          newLastZero := idBitNumber;
          if newLastZero < 9 {
            lastFamilyDiscrepancy := newLastZero;
          }
        }
      }
    }

    /** One bit of a pass: choose it, store it and announce it. */
    method SearchBit(idBitNumber: int, romByteNumber: nat, romByteMask: bv8, lastZero: int, ghost previous: Rom, ghost before: int)
      returns (silent: bool, newLastZero: int)
      requires Valid() && 1 <= idBitNumber <= 64
      requires romByteNumber == (idBitNumber - 1) / 8 && romByteMask == Mask((idBitNumber - 1) % 8)
      requires Walking(previous, before, idBitNumber - 1, lastZero)
      modifies this`lastFamilyDiscrepancy, romNo, bus
      ensures !silent && Walking(previous, before, idBitNumber, newLastZero)
      ensures romNo[..romByteNumber] == old(romNo[..romByteNumber])
    {
      var searchDirection;
      ghost var n, shown := idBitNumber - 1, Shown();
      silent, searchDirection, newLastZero := Choose(idBitNumber, romByteNumber, romByteMask, lastZero, previous, before);
      if silent {
        return;
      }
      StoreBit(romByteNumber, romByteMask, searchDirection, n);
      ghost var x :| x in Remaining(bus.devices, shown, n) && x[n] == searchDirection;
      TakeBit(bus.devices, previous, lastDiscrepancy, shown, n, Shown(), x, before);
      bus.WriteBit(searchDirection);
    }

    /** One pass of the search from the kept state. */
    method Search() returns (found: bool)
      requires Valid()
      modifies this, romNo, bus
      ensures Valid()
      ensures found <==> !old(lastDeviceFlag) && bus.devices != {} && Accepted(romNo[..])
      ensures !old(lastDeviceFlag) && bus.devices != {} ==>
        Selected(bus.devices, old(Shown()), old(lastDiscrepancy), Shown())
      ensures old(lastDeviceFlag) || bus.devices == {} ==> romNo[..] == old(romNo[..])
      ensures found ==>
        && lastDiscrepancy == DeepestZero(bus.devices, Shown(), 64)
        && (lastDeviceFlag <==> lastDiscrepancy == 0)
        && lastFamilyDiscrepancy == FamilyDiscrepancy(bus.devices, Shown(), 64, old(lastFamilyDiscrepancy))
      ensures !found ==> lastDiscrepancy == 0 && !lastDeviceFlag && lastFamilyDiscrepancy == 0
    {
      found := false;
      crc8 := 0;
      if !lastDeviceFlag {
        var absent := bus.Reset();
        if absent {
          lastDiscrepancy, lastDeviceFlag, lastFamilyDiscrepancy := 0, false, 0;
          return false;
        }
        bus.WriteByte(SEARCH_ROM);
        var silent, lastZero := WalkBits();
        if !(silent || crc8 != 0) {
          lastDiscrepancy := lastZero;
          if lastDiscrepancy == 0 {
            lastDeviceFlag := true;
          }
          found := true;
        }
      }
      if !found || romNo[0] == 0 {
        lastDiscrepancy, lastDeviceFlag, lastFamilyDiscrepancy := 0, false, 0;
        found := false;
      }
    }

    /** The loop over the 64 bits; `short` when it was left before the last of them. */
    method WalkBits() returns (short: bool, lastZero: int)
      requires Valid() && crc8 == 0 && bus.devices != {}
      requires bus.active == bus.devices && bus.position == 0 && bus.phase == TrueBit
      modifies this`crc8, this`lastFamilyDiscrepancy, romNo, bus
      ensures !short && crc8 == Crc(DSCRC_TABLE, romNo[..])
      ensures Selected(bus.devices, old(Shown()), lastDiscrepancy, Shown())
      ensures lastZero == DeepestZero(bus.devices, Shown(), 64)
      ensures lastFamilyDiscrepancy == FamilyDiscrepancy(bus.devices, Shown(), 64, old(lastFamilyDiscrepancy))
    {
      var idBitNumber, romByteNumber, romByteMask: bv8 := 1, 0, 1;
      lastZero := 0;
      ghost var previous, before := Shown(), lastFamilyDiscrepancy;
      WalkStarts(bus.devices, previous, lastDiscrepancy);
      assert romNo[..0] == [];
      while romByteNumber < 8
        invariant 0 <= romByteNumber <= 8 && 1 <= idBitNumber <= 65
        invariant romByteNumber == (idBitNumber - 1) / 8 && romByteMask == Mask((idBitNumber - 1) % 8)
        invariant Walking(previous, before, idBitNumber - 1, lastZero)
        invariant crc8 == Crc(DSCRC_TABLE, romNo[..romByteNumber])
        decreases 65 - idBitNumber
      {
        var silent;
        silent, lastZero := SearchBit(idBitNumber, romByteNumber, romByteMask, lastZero, previous, before);
        if silent {
          break;
        }
        idBitNumber, romByteNumber, romByteMask := NextBit(idBitNumber, romByteNumber, romByteMask);
      }
      short := idBitNumber < 65;
      ProgressEnds(bus.devices, previous, lastDiscrepancy, Shown());
      assert romNo[..8] == romNo[..];
    }

    /** Finds the first device. */
    method First() returns (found: bool)
      requires Valid()
      modifies this, romNo, bus
      ensures found <==> bus.devices != {} && Accepted(romNo[..])
      ensures bus.devices != {} ==> Selected(bus.devices, old(Shown()), 0, Shown())
      ensures found ==>
        && lastDiscrepancy == DeepestZero(bus.devices, Shown(), 64)
        && (lastDeviceFlag <==> lastDiscrepancy == 0)
        && lastFamilyDiscrepancy == DeepestZero(bus.devices, Shown(), 8)
    {
      lastDiscrepancy, lastDeviceFlag, lastFamilyDiscrepancy := 0, false, 0;
      found := Search();
    }

    /** Finds the next device, leaving the search state alone. */
    method Next() returns (found: bool)
      requires Valid()
      modifies this, romNo, bus
      ensures found <==> !old(lastDeviceFlag) && bus.devices != {} && Accepted(romNo[..])
      ensures !old(lastDeviceFlag) && bus.devices != {} ==>
        Selected(bus.devices, old(Shown()), old(lastDiscrepancy), Shown())
      ensures found ==>
        && lastDiscrepancy == DeepestZero(bus.devices, Shown(), 64)
        && (lastDeviceFlag <==> lastDiscrepancy == 0)
        && lastFamilyDiscrepancy == FamilyDiscrepancy(bus.devices, Shown(), 64, old(lastFamilyDiscrepancy))
      ensures !found ==> lastDiscrepancy == 0 && !lastDeviceFlag && lastFamilyDiscrepancy == 0
    {
      found := Search();
    }

    /** Is the device in the buffer on the bus? All search state is left as it was. */
    method Verify() returns (present: bool)
      requires Valid()
      modifies this, romNo, bus
      ensures romNo[..] == old(romNo[..]) && lastDiscrepancy == old(lastDiscrepancy)
      ensures lastDeviceFlag == old(lastDeviceFlag) && lastFamilyDiscrepancy == old(lastFamilyDiscrepancy)
      ensures present <==>
        && Shown() in bus.devices && Accepted(romNo[..])
        && (Conflict(bus.devices, Shown(), 63) ==> Shown()[63])
      ensures AllWellFormed(bus.devices) ==> (present <==> Shown() in bus.devices)
    {
      var romBackup := romNo[..];
      var ldBackup, ldfBackup, lfdBackup := lastDiscrepancy, lastDeviceFlag, lastFamilyDiscrepancy;
      lastDiscrepancy, lastDeviceFlag := 64, false;
      var found := Search();
      present := found && romNo[..] == romBackup;
      VerifyOutcome(bus.devices, romBackup, romNo[..], found);
      Restore(romBackup);
      lastDiscrepancy, lastDeviceFlag, lastFamilyDiscrepancy := ldBackup, ldfBackup, lfdBackup;
    }

    method Restore(backup: seq<bv8>)
      requires Valid() && |backup| == 8
      modifies romNo
      ensures romNo[..] == backup
    {
      var i := 0;
      while i < 8
        invariant 0 <= i <= 8 && romNo[..i] == backup[..i]
      {
        romNo[i] := backup[i];
        i := i + 1;
      }
      assert romNo[..] == romNo[..8] && backup == backup[..8];
    }

    /** Sets the search up to find the first device of a family next. */
    method TargetSetup(familyCode: bv8)
      requires Valid()
      modifies this, romNo
      ensures romNo[..] == [familyCode, 0, 0, 0, 0, 0, 0, 0]
      ensures lastDiscrepancy == 64 && lastFamilyDiscrepancy == 0 && !lastDeviceFlag
    {
      romNo[0] := familyCode;
      var i := 1;
      while i < 8
        invariant 1 <= i <= 8 && romNo[0] == familyCode
        invariant forall j :: 1 <= j < i ==> romNo[j] == 0
      {
        romNo[i] := 0;
        i := i + 1;
      }
      lastDiscrepancy, lastFamilyDiscrepancy, lastDeviceFlag := 64, 0, false;
    }

    /** Sets the search up to skip the rest of the current family next. */
    method FamilySkipSetup()
      requires Valid()
      modifies this
      ensures lastDiscrepancy == old(lastFamilyDiscrepancy) && lastFamilyDiscrepancy == 0
      ensures lastDeviceFlag <==> old(lastDeviceFlag) || lastDiscrepancy == 0
    {
      lastDiscrepancy := lastFamilyDiscrepancy;
      lastFamilyDiscrepancy := 0;
      if lastDiscrepancy == 0 {
        lastDeviceFlag := true;
      }
    }

    /** Finds a device of a family: the first of them in bus order. */
    method FindFamily(familyCode: bv8) returns (found: bool)
      requires Valid() && AllWellFormed(bus.devices)
      requires exists z :: z in bus.devices && Family(z) == FamilyBits(familyCode)
      modifies this, romNo, bus
      ensures found && Family(Shown()) == FamilyBits(familyCode) && LeastOfFamily(bus.devices, Shown())
    {
      TargetSetup(familyCode);
      TargetBits(romNo[..], familyCode);
      ghost var target := Shown();
      found := Next();
      TargetSelectsLeast(bus.devices, target, FamilyBits(familyCode), Shown());
      DeviceAccepted(bus.devices, romNo[..]);
    }

    /** The discrepancy is that of the device in the buffer, as it is after First or Next. */
    ghost predicate DiscrepancyKnown()
      requires Valid()
      reads `lastDiscrepancy, `lastDeviceFlag, romNo, bus
    {
      lastDiscrepancy == DeepestZero(bus.devices, Shown(), 64) && (lastDeviceFlag <==> lastDiscrepancy == 0)
    }

    /** The next search after a device has been found. */
    method NextListed() returns (found: bool)
      requires Valid() && DiscrepancyKnown() && bus.devices != {}
      modifies this, romNo, bus
      ensures old(lastDiscrepancy) > 0 ==> Selected(bus.devices, old(Shown()), old(lastDiscrepancy), Shown())
      ensures found <==> old(lastDiscrepancy) > 0 && Accepted(romNo[..])
      ensures found ==> DiscrepancyKnown()
    {
      found := Next();
    }

    /** One round of the bus scan: lists the device in the buffer and searches for the next. */
    method ScanOne(ids: seq<Rom>) returns (longer: seq<Rom>, found: bool)
      requires Valid() && DiscrepancyKnown() && Scanning(bus.devices, ids, romNo[..], true)
      modifies this, romNo, bus
      ensures longer == ids + [old(Shown())]
      ensures Scanning(bus.devices, longer, romNo[..], found) && (found ==> DiscrepancyKnown())
    {
      ghost var bytes, discrepancy := romNo[..], lastDiscrepancy;
      longer := ids + [ToBits(romNo[..])];
      found := NextListed();
      ScanStep(bus.devices, ids, bytes, discrepancy, romNo[..]);
    }

    /** Lists the devices on the bus, as the demo's bus scan does: on any bus, up to the first that is not well formed. */
    method ScanBus() returns (ids: seq<Rom>)
      requires Valid()
      modifies this, romNo, bus
      ensures ListedToFlaw(bus.devices, ids)
      ensures AllWellFormed(bus.devices) ==> AllListed(bus.devices, ids)
    {
      ghost var previous := Shown();
      var res := First();
      ScanFirst(bus.devices, previous, romNo[..]);
      ids := ScanOn(res);
      if AllWellFormed(bus.devices) { ListOfSoundBus(bus.devices, ids); }
    }

    /** The loop of the bus scan, after the first search. */
    method ScanOn(found: bool) returns (ids: seq<Rom>)
      requires Valid() && (found ==> DiscrepancyKnown()) && Scanning(bus.devices, [], romNo[..], found)
      modifies this, romNo, bus
      ensures ListedToFlaw(bus.devices, ids)
    {
      ids := [];
      var res := found;
      while res
        invariant res ==> DiscrepancyKnown()
        invariant Scanning(bus.devices, ids, romNo[..], res)
        decreases bus.devices - (set x | x in ids), res
      {
        ghost var before, id := ids, Shown();
        ids, res := ScanOne(ids);
        Shrinks(bus.devices, before, id);
      }
    }

    /** The family discrepancy is that of the device in the buffer, as it is after First or NextFamily. */
    ghost predicate FamilyDiscrepancyKnown()
      requires Valid()
      reads `lastFamilyDiscrepancy, `lastDeviceFlag, romNo, bus
    {
      && lastFamilyDiscrepancy == DeepestZero(bus.devices, Shown(), 8)
      && (lastDeviceFlag ==> lastFamilyDiscrepancy == 0)
    }

    /** Skips the rest of the current family and finds the next device. */
    method NextFamily() returns (found: bool)
      requires Valid() && FamilyDiscrepancyKnown() && bus.devices != {}
      modifies this, romNo, bus
      ensures old(lastFamilyDiscrepancy) > 0 ==> Selected(bus.devices, old(Shown()), old(lastFamilyDiscrepancy), Shown())
      ensures found <==> old(lastFamilyDiscrepancy) > 0 && Accepted(romNo[..])
      ensures found ==> FamilyDiscrepancyKnown()
      ensures AllWellFormed(bus.devices) ==> (found <==> old(lastFamilyDiscrepancy) > 0)
    {
      FamilySkipSetup();
      found := Next();
      if AllWellFormed(bus.devices) && !found && old(lastFamilyDiscrepancy) > 0 {
        DeviceAccepted(bus.devices, romNo[..]);
      }
    }

    /** Lists one device of each family: the first search, then skip to the next family until there is none,
        or until the device found is not well formed. */
    method ListFamilies() returns (ids: seq<Rom>)
      requires Valid()
      modifies this, romNo, bus
      ensures FamiliesToFlaw(bus.devices, ids)
      ensures AllWellFormed(bus.devices) ==> FamiliesListed(bus.devices, ids)
    {
      ids := [];
      ghost var devices, previous := bus.devices, Shown();
      var res := First();
      FamilyFirst(devices, previous, romNo[..]);
      while res
        invariant res ==> FamilyDiscrepancyKnown()
        invariant FamilyScanning(devices, ids, romNo[..], res)
        decreases devices - (set x | x in ids), res
      {
        var id := ToBits(romNo[..]);
        ghost var before, bytes, discrepancy := ids, romNo[..], lastFamilyDiscrepancy;
        ids := ids + [id];
        res := NextFamily();
        FamilyStep(devices, before, bytes, discrepancy, romNo[..]);
        Shrinks(devices, before, id);
      }
      if AllWellFormed(devices) { FamiliesOfSoundBus(devices, ids); }
    }
  }

  /** `ids` holds the devices, each once, in bus order. */
  ghost predicate AllListed(devices: set<Rom>, ids: seq<Rom>) {
    && (forall x :: x in ids <==> x in devices)
    && forall i, j :: 0 <= i < j < |ids| ==> Less(ids[i], ids[j])
  }

  /** `ids` holds the least device of each family present, each family once, in family order. */
  ghost predicate FamiliesListed(devices: set<Rom>, ids: seq<Rom>) {
    && (forall x :: x in ids <==> LeastOfFamily(devices, x))
    && (forall z :: z in devices ==> FamilyListed(ids, Family(z)))
    && forall i, j :: 0 <= i < j < |ids| ==> FamilyLess(ids[i], ids[j])
  }

  /** The device and all devices before it in bus order are well formed. */
  ghost predicate SoundUpTo(devices: set<Rom>, x: Rom) {
    forall z :: z in devices && (z == x || Less(z, x)) ==> WellFormed(z)
  }

  /** `ids` holds the devices before the first that is not well formed, each once, in bus order. */
  ghost predicate ListedToFlaw(devices: set<Rom>, ids: seq<Rom>) {
    && (forall x :: x in ids <==> x in devices && SoundUpTo(devices, x))
    && forall i, j :: 0 <= i < j < |ids| ==> Less(ids[i], ids[j])
  }

  /** The device is the first of its family, and it and the first devices of all earlier families are well formed. */
  ghost predicate SoundFamilyUpTo(devices: set<Rom>, x: Rom) {
    && LeastOfFamily(devices, x)
    && forall z :: LeastOfFamily(devices, z) && (z == x || FamilyLess(z, x)) ==> WellFormed(z)
  }

  /** `ids` holds the least devices of the families before the first that is not well formed, in family order. */
  ghost predicate FamiliesToFlaw(devices: set<Rom>, ids: seq<Rom>) {
    && (forall x :: x in ids <==> SoundFamilyUpTo(devices, x))
    && forall i, j :: 0 <= i < j < |ids| ==> FamilyLess(ids[i], ids[j])
  }

  ghost predicate AllSound(ids: seq<Rom>) {
    ids != [] ==> WellFormed(ids[|ids| - 1]) && AllSound(ids[..|ids| - 1])
  }

  lemma {:induction false} SoundMember(ids: seq<Rom>, x: Rom)
    requires AllSound(ids) && x in ids
    ensures WellFormed(x)
    decreases |ids|
  {
    if x != ids[|ids| - 1] { SoundMember(ids[..|ids| - 1], x); }
  }

  /** Where a bus scan stands: `ids` listed so far and, unless the search is over, one more in the buffer. */
  ghost predicate Scanning(devices: set<Rom>, ids: seq<Rom>, bytes: seq<bv8>, more: bool)
    requires |bytes| == 8
  {
    if more then
      var x := ToBits(bytes);
      x in devices && x !in ids && Scanned(devices, ids + [x]) && AllSound(ids + [x])
    else ListedToFlaw(devices, ids)
  }

  ghost predicate FamilyScanning(devices: set<Rom>, ids: seq<Rom>, bytes: seq<bv8>, more: bool)
    requires |bytes| == 8
  {
    if more then
      var x := ToBits(bytes);
      x in devices && x !in ids && FamiliesScanned(devices, ids + [x]) && AllSound(ids + [x])
    else FamiliesToFlaw(devices, ids)
  }

  /** When the next device in bus order is not well formed, what has been listed is what comes before it. */
  lemma StopsAtFlaw(devices: set<Rom>, ids: seq<Rom>, y: Rom)
    requires Scanned(devices, ids + [y]) && AllSound(ids) && !WellFormed(y) && y !in ids
    ensures ListedToFlaw(devices, ids)
  {
    var all := ids + [y];
    assert all[|ids|] == y;
    forall i, j | 0 <= i < j < |ids|
      ensures Less(ids[i], ids[j])
    {
      assert all[i] == ids[i] && all[j] == ids[j];
    }
    forall x
      ensures x in ids <==> x in devices && SoundUpTo(devices, x)
    {
      if x in ids {
        forall z | z in devices && (z == x || Less(z, x))
          ensures WellFormed(z)
        {
          ListedBefore(devices, ids, y, x, z);
          SoundMember(ids, z);
        }
        assert x in all;
      } else if x in devices {
        BeyondIsFlawed(devices, ids, y, x);
      }
    }
  }

  lemma BeyondIsFlawed(devices: set<Rom>, ids: seq<Rom>, y: Rom, x: Rom)
    requires Scanned(devices, ids + [y]) && !WellFormed(y) && x in devices && x !in ids
    ensures !SoundUpTo(devices, x)
  {
    var all := ids + [y];
    assert all[|ids|] == y;
    assert y in all;
    if x in all { assert x == y; }
  }

  /** What comes before a listed device is listed. */
  lemma ListedBefore(devices: set<Rom>, ids: seq<Rom>, y: Rom, x: Rom, z: Rom)
    requires Scanned(devices, ids + [y]) && x in ids && z in devices && (z == x || Less(z, x))
    ensures x in devices && z in ids
  {
    var all := ids + [y];
    var i :| 0 <= i < |ids| && ids[i] == x;
    assert all[i] == x && all[|ids|] == y && Less(x, y);
    if z != x {
      LessTransitive(z, x, y);
      LessIsTotal(z, y);
      assert z in all;
    }
  }

  lemma EndsWithoutFlaw(devices: set<Rom>, ids: seq<Rom>)
    requires AllListed(devices, ids) && AllSound(ids)
    ensures ListedToFlaw(devices, ids)
  {
    forall z | z in devices
      ensures WellFormed(z)
    {
      SoundMember(ids, z);
    }
  }

  lemma ScanFirst(devices: set<Rom>, previous: Rom, bytes: seq<bv8>)
    requires |bytes| == 8
    requires devices != {} ==> Selected(devices, previous, 0, ToBits(bytes))
    ensures Scanning(devices, [], bytes, devices != {} && Accepted(bytes))
  {
    var x := ToBits(bytes);
    if devices != {} {
      WellFormedBytes(bytes);
      ScanStarts(devices, previous, x);
      assert [] + [x] == [x];
      if !Accepted(bytes) { StopsAtFlaw(devices, [], x); }
    }
  }

  /** One round of the bus scan: the search goes on exactly when there is another well-formed device to list. */
  lemma ScanStep(devices: set<Rom>, before: seq<Rom>, shown: seq<bv8>, d: int, bytes: seq<bv8>)
    requires |shown| == |bytes| == 8 && Scanning(devices, before, shown, true)
    requires d == DeepestZero(devices, ToBits(shown), 64) && (d > 0 ==> Selected(devices, ToBits(shown), d, ToBits(bytes)))
    ensures Scanning(devices, before + [ToBits(shown)], bytes, d > 0 && Accepted(bytes))
  {
    var ids, y := before + [ToBits(shown)], ToBits(bytes);
    if d > 0 {
      WellFormedBytes(bytes);
      ScanContinues(devices, ids, y);
      if !Accepted(bytes) { StopsAtFlaw(devices, ids, y); }
    } else {
      ScanEnds(devices, ids);
      EndsWithoutFlaw(devices, ids);
    }
  }

  lemma FamilyFirst(devices: set<Rom>, previous: Rom, bytes: seq<bv8>)
    requires |bytes| == 8
    requires devices != {} ==> Selected(devices, previous, 0, ToBits(bytes))
    ensures FamilyScanning(devices, [], bytes, devices != {} && Accepted(bytes))
  {
    var x := ToBits(bytes);
    if devices != {} {
      WellFormedBytes(bytes);
      FamilyScanStarts(devices, previous, x);
      assert [] + [x] == [x];
      if !Accepted(bytes) { FamiliesStopAtFlaw(devices, [], x); }
    }
  }

  lemma FamilyStep(devices: set<Rom>, before: seq<Rom>, shown: seq<bv8>, d: int, bytes: seq<bv8>)
    requires |shown| == |bytes| == 8 && FamilyScanning(devices, before, shown, true)
    requires d == DeepestZero(devices, ToBits(shown), 8) && (d > 0 ==> Selected(devices, ToBits(shown), d, ToBits(bytes)))
    ensures FamilyScanning(devices, before + [ToBits(shown)], bytes, d > 0 && Accepted(bytes))
  {
    var ids, y := before + [ToBits(shown)], ToBits(bytes);
    if d > 0 {
      WellFormedBytes(bytes);
      FamilyScanContinues(devices, ids, y);
      if !Accepted(bytes) { FamiliesStopAtFlaw(devices, ids, y); }
    } else {
      FamilyScanEnds(devices, ids);
      FamiliesEndWithoutFlaw(devices, ids);
    }
  }

  lemma FamiliesEndWithoutFlaw(devices: set<Rom>, ids: seq<Rom>)
    requires FamiliesListed(devices, ids) && AllSound(ids)
    ensures FamiliesToFlaw(devices, ids)
  {
    forall z | LeastOfFamily(devices, z)
      ensures WellFormed(z)
    {
      SoundMember(ids, z);
    }
  }

  /** Two first devices of the same family are the same. */
  lemma OneLeast(devices: set<Rom>, x: Rom, z: Rom)
    requires LeastOfFamily(devices, x) && LeastOfFamily(devices, z) && Family(x) == Family(z)
    ensures x == z
  {
    LessIsTotal(x, z);
  }

  /** A first device of a family that is listed is listed itself; one that is not comes after the list. */
  lemma LeastListed(devices: set<Rom>, ids: seq<Rom>, z: Rom)
    requires FamiliesScanned(devices, ids) && LeastOfFamily(devices, z)
    ensures z in ids || FamilyLess(ids[|ids| - 1], z)
  {
    if FamilyListed(ids, Family(z)) {
      var i :| 0 <= i < |ids| && Family(ids[i]) == Family(z);
      assert LeastOfFamily(devices, ids[i]);
      OneLeast(devices, ids[i], z);
    }
  }

  lemma FamiliesStopAtFlaw(devices: set<Rom>, ids: seq<Rom>, y: Rom)
    requires FamiliesScanned(devices, ids + [y]) && AllSound(ids) && !WellFormed(y) && y !in ids
    ensures FamiliesToFlaw(devices, ids)
  {
    var all := ids + [y];
    assert all[|ids|] == y;
    forall i, j | 0 <= i < j < |ids|
      ensures FamilyLess(ids[i], ids[j])
    {
      assert all[i] == ids[i] && all[j] == ids[j];
    }
    forall x
      ensures x in ids <==> SoundFamilyUpTo(devices, x)
    {
      if x in ids {
        var i :| 0 <= i < |ids| && ids[i] == x;
        assert all[i] == x && LeastOfFamily(devices, all[i]);
        forall z | LeastOfFamily(devices, z) && (z == x || FamilyLess(z, x))
          ensures WellFormed(z)
        {
          FamilyListedBefore(devices, ids, y, x, z);
          SoundMember(ids, z);
        }
      } else if LeastOfFamily(devices, x) {
        FamilyBeyondIsFlawed(devices, ids, y, x);
      }
    }
  }

  lemma FamilyBeyondIsFlawed(devices: set<Rom>, ids: seq<Rom>, y: Rom, x: Rom)
    requires FamiliesScanned(devices, ids + [y]) && !WellFormed(y) && LeastOfFamily(devices, x) && x !in ids
    ensures !SoundFamilyUpTo(devices, x)
  {
    var all := ids + [y];
    assert all[|ids|] == y && LeastOfFamily(devices, all[|ids|]);
    LeastListed(devices, all, x);
    if x in all { assert x == y; }
  }

  lemma FamilyListedBefore(devices: set<Rom>, ids: seq<Rom>, y: Rom, x: Rom, z: Rom)
    requires FamiliesScanned(devices, ids + [y]) && x in ids && LeastOfFamily(devices, z) && (z == x || FamilyLess(z, x))
    ensures LeastOfFamily(devices, x) && z in ids
  {
    var all := ids + [y];
    var i :| 0 <= i < |ids| && ids[i] == x;
    assert all[i] == x && all[|ids|] == y && LeastOfFamily(devices, all[i]) && FamilyLess(x, y);
    if z != x {
      LeastListed(devices, all, z);
      FamilyLessTransitive(z, x, y);
      FamilyLessIsTotal(z, y);
      assert z in all;
    }
  }

  /** Without a flaw on the bus the lists are complete. */
  lemma ListOfSoundBus(devices: set<Rom>, ids: seq<Rom>)
    requires AllWellFormed(devices) && ListedToFlaw(devices, ids)
    ensures AllListed(devices, ids)
  {
  }

  lemma FamiliesOfSoundBus(devices: set<Rom>, ids: seq<Rom>)
    requires AllWellFormed(devices) && FamiliesToFlaw(devices, ids)
    ensures FamiliesListed(devices, ids)
  {
    forall z | z in devices
      ensures FamilyListed(ids, Family(z))
    {
      var x := LeastMember(devices, z, devices);
      assert SoundFamilyUpTo(devices, x);
      assert x in ids;
    }
  }

  /** Every family present has a first device. */
  lemma {:induction false} LeastMember(devices: set<Rom>, z: Rom, rest: set<Rom>) returns (x: Rom)
    requires z in devices && rest <= devices
    requires forall y :: y in devices && y !in rest && Family(y) == Family(z) ==> y == z || Less(z, y)
    ensures LeastOfFamily(devices, x) && Family(x) == Family(z)
    decreases |rest|
  {
    if y :| y in rest && Family(y) == Family(z) && Less(y, z) {
      forall w | w in devices && w !in rest - {y} && Family(w) == Family(y)
        ensures w == y || Less(y, w)
      {
        if w !in rest && w != z { LessTransitive(y, z, w); }
      }
      x := LeastMember(devices, y, rest - {y});
    } else {
      x := z;
      forall w | w in devices && Family(w) == Family(z)
        ensures w == z || Less(z, w)
      {
        LessIsTotal(z, w);
      }
    }
  }

  /** Listing one more device leaves fewer to list. */
  lemma Shrinks(devices: set<Rom>, ids: seq<Rom>, x: Rom)
    requires x in devices && x !in ids
    ensures devices - (set y | y in ids + [x]) < devices - (set y | y in ids)
  {
    assert x in ids + [x];
    assert x in devices - (set y | y in ids);
    forall y | y in ids
      ensures y in ids + [x]
    {
      var i :| 0 <= i < |ids| && ids[i] == y;
      assert (ids + [x])[i] == y;
    }
  }

  /** The bits of a family code. */
  function FamilyBits(familyCode: bv8): seq<bool> {
    seq(8, n requires 0 <= n < 8 => ByteBit(familyCode, n))
  }

  lemma TargetBits(bytes: seq<bv8>, familyCode: bv8)
    requires bytes == [familyCode, 0, 0, 0, 0, 0, 0, 0]
    ensures TargetOf(ToBits(bytes), FamilyBits(familyCode))
  {
    forall n | 8 <= n < 64
      ensures !ToBits(bytes)[n]
    {
      assert bytes[n / 8] == 0;
    }
  }

  /** When following the buffered ROM number comes back with the same bytes. */
  lemma VerifyOutcome(devices: set<Rom>, before: seq<bv8>, after: seq<bv8>, found: bool)
    requires |before| == |after| == 8
    requires devices != {} ==> Selected(devices, ToBits(before), 64, ToBits(after))
    requires found <==> devices != {} && Accepted(after)
    ensures var x := ToBits(before);
      (found && after == before) <==> x in devices && Accepted(before) && (Conflict(devices, x, 63) ==> x[63])
    ensures AllWellFormed(devices) ==> (found && after == before <==> ToBits(before) in devices)
  {
    var x := ToBits(before);
    FollowingSelects(devices, x);
    if x in devices && (Conflict(devices, x, 63) ==> x[63]) {
      SelectedIsUnique(devices, x, 64, x, ToBits(after));
      BytesFromBits(before, after);
    }
    if AllWellFormed(devices) {
      NoLastConflict(devices, x);
      WellFormedBytes(before);
    }
  }

  lemma WalkStarts(devices: set<Rom>, previous: Rom, discrepancy: int)
    requires devices != {}
    ensures Progress(devices, previous, discrepancy, previous, 0)
    ensures Remaining(devices, previous, 0) == devices
  {
    var x :| x in devices;
    assert Agree(previous, x, 0);
  }

  /** The family discrepancy after `n` bits: the deepest 0 choice within the family code, else as before. */
  ghost function FamilyDiscrepancy(devices: set<Rom>, x: Rom, n: nat, before: int): int
    requires n <= 64
  {
    var d := DeepestZero(devices, x, if n < 8 then n else 8);
    if d > 0 then d else before
  }

  /** What taking bit `n` as remaining device `x` has it does to the pass and its two records. */
  lemma TakeBit(devices: set<Rom>, previous: Rom, discrepancy: int, shown: Rom, n: nat, next: Rom, x: Rom, before: int)
    requires n < 64 && Progress(devices, previous, discrepancy, shown, n)
    requires x in devices && Agree(shown, x, n) && next == shown[n := x[n]]
    requires Conflict(devices, shown, n) ==> x[n] == Choice(previous, discrepancy, n)
    ensures Progress(devices, previous, discrepancy, next, n + 1)
    ensures Remaining(devices, next, n + 1) == set y | y in Remaining(devices, shown, n) && y[n] == x[n]
    ensures var zero := Conflict(devices, shown, n) && !x[n];
      && DeepestZero(devices, next, n + 1) == (if zero then n + 1 else DeepestZero(devices, shown, n))
      && FamilyDiscrepancy(devices, next, n + 1, before) ==
         if zero && n + 1 < 9 then n + 1 else FamilyDiscrepancy(devices, shown, n, before)
  {
    Advance(devices, previous, discrepancy, shown, n, next, x);
    BitNarrows(devices, shown, n, x[n]);
  }

  /** What the two reads tell about the devices still in the search. */
  lemma ConflictFromReads(devices: set<Rom>, shown: Rom, n: nat)
    requires n < 64 && exists x :: x in Remaining(devices, shown, n)
    ensures var allOnes := forall x :: x in Remaining(devices, shown, n) ==> x[n];
      var allZeros := forall x :: x in Remaining(devices, shown, n) ==> !x[n];
      !(allOnes && allZeros) && (Conflict(devices, shown, n) <==> !allOnes && !allZeros)
  {
    var x :| x in Remaining(devices, shown, n);
    ConflictIsSplit(devices, shown, n, x[n]);
  }
}
