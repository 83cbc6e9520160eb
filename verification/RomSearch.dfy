/** What one pass of the ROM search selects, stated without reference to how the bus is read,
    and what follows for whole runs of the search. */
module RomSearch {
  import opened RomOrder

  /** Two devices that agree with `x` before bit `n` answer bit `n` differently. */
  ghost predicate Conflict(devices: set<Rom>, x: Rom, n: nat)
    requires n < 64
  {
    exists y, z :: y in devices && z in devices && Agree(x, y, n) && Agree(x, z, n) && !y[n] && z[n]
  }

  /** The bit chosen at conflict `n`, given the previous ROM number and its last discrepancy. */
  predicate Choice(previous: Rom, discrepancy: int, n: nat)
    requires n < 64
  {
    if n + 1 < discrepancy then previous[n] else n + 1 == discrepancy
  }

  /** `x` is the device a search starting from `previous` and `discrepancy` arrives at. */
  ghost predicate Selected(devices: set<Rom>, previous: Rom, discrepancy: int, x: Rom) {
    && x in devices
    && forall n: nat :: n < 64 && Conflict(devices, x, n) ==> x[n] == Choice(previous, discrepancy, n)
  }

  /** The position (from 1) of the last conflict within the first `limit` bits at which `x` took 0; 0 if none. */
  ghost function DeepestZero(devices: set<Rom>, x: Rom, limit: nat): (d: nat)
    requires limit <= 64
    ensures d <= limit
    ensures d > 0 ==> Conflict(devices, x, d - 1) && !x[d - 1]
    ensures forall n: nat :: d <= n < limit && Conflict(devices, x, n) ==> x[n]
  {
    if limit == 0 then 0
    else if Conflict(devices, x, limit - 1) && !x[limit - 1] then limit
    else DeepestZero(devices, x, limit - 1)
  }

  /** Conflicts and zero choices below bit `n` depend on the first `n` bits only. */
  lemma {:induction false} PrefixDecides(devices: set<Rom>, x: Rom, y: Rom, n: nat)
    requires n <= 64 && Agree(x, y, n)
    ensures forall i: nat :: i < 64 && i <= n ==> Conflict(devices, x, i) == Conflict(devices, y, i)
    ensures DeepestZero(devices, x, n) == DeepestZero(devices, y, n)
  {
    forall i: nat | i < 64 && i <= n
      ensures Conflict(devices, x, i) == Conflict(devices, y, i)
    {
      assert forall z :: Agree(x, z, i) == Agree(y, z, i) by {
        forall z
          ensures Agree(x, z, i) == Agree(y, z, i)
        {
          assert forall j: nat :: j < i ==> x[j] == y[j];
        }
      }
    }
    if n > 0 {
      PrefixDecides(devices, x, y, n - 1);
      assert x[n - 1] == y[n - 1];
    }
  }

  /** Where a device stays behind `x` at a bit that `x` answers with 0, `x` met a conflict. */
  lemma GreaterMeansConflict(devices: set<Rom>, x: Rom, z: Rom, k: nat)
    requires x in devices && z in devices && SplitsAt(x, z, k)
    ensures Conflict(devices, x, k)
  {
    assert Agree(x, x, k) && Agree(x, z, k);
  }

  /** The search starting from given values selects one device only. */
  lemma SelectedIsUnique(devices: set<Rom>, previous: Rom, d: int, x: Rom, y: Rom)
    requires Selected(devices, previous, d, x) && Selected(devices, previous, d, y)
    ensures x == y
  {
    if !Agree(x, y, 64) {
      var k := FirstDifference(x, y, 64);
      var lo, hi := if SplitsAt(x, y, k) then x else y, if SplitsAt(x, y, k) then y else x;
      GreaterMeansConflict(devices, lo, hi, k);
      PrefixDecides(devices, lo, hi, k);
      assert false;
    }
    assert x == y;
  }

  /** Among the devices sharing its first `d` bits, the selected one comes first. */
  lemma LeastBeyond(devices: set<Rom>, previous: Rom, d: nat, y: Rom, z: Rom)
    requires d <= 64 && Selected(devices, previous, d, y) && z in devices && Agree(y, z, d)
    ensures z == y || exists k: nat :: d <= k && SplitsAt(y, z, k)
  {
    if Agree(y, z, 64) {
      assert y == z;
    } else {
      var k := FirstDifference(y, z, 64);
      if SplitsAt(z, y, k) {
        GreaterMeansConflict(devices, z, y, k);
        PrefixDecides(devices, z, y, k);
        assert false;
      }
    }
  }

  /** Following a previous device `x` up to a bit where it took 0 at a conflict, the search
      keeps to `x` before that bit and takes 1 there. */
  lemma TurnsAt(devices: set<Rom>, x: Rom, d: nat, y: Rom)
    requires x in devices && 0 < d <= 64 && Selected(devices, x, d, y)
    requires Conflict(devices, x, d - 1) && !x[d - 1]
    ensures SplitsAt(x, y, d - 1)
  {
    var n := 0;
    while n < d - 1
      invariant n <= d - 1 && Agree(x, y, n)
    {
      if x[n] != y[n] {
        assert Agree(y, y, n) && Agree(y, x, n);
        assert Conflict(devices, y, n);
        assert false;
      }
      n := n + 1;
    }
    PrefixDecides(devices, x, y, d - 1);
  }

  /** Any device splitting off above `x` does so at or before the deepest 0 choice of `x`. */
  lemma SplitBelowDeepest(devices: set<Rom>, x: Rom, z: Rom, k: nat, limit: nat)
    requires x in devices && z in devices && SplitsAt(x, z, k) && k < limit <= 64
    ensures k < DeepestZero(devices, x, limit)
  {
    GreaterMeansConflict(devices, x, z, k);
  }

  /** Where a device `z` that splits off above `x` stands to the device `y` the search turned to. */
  lemma AfterTurn(devices: set<Rom>, x: Rom, d: nat, y: Rom, z: Rom, k: nat)
    requires 0 < d <= 64 && Selected(devices, x, d, y) && z in devices
    requires SplitsAt(x, y, d - 1) && SplitsAt(x, z, k) && k < d
    ensures k < d - 1 ==> SplitsAt(y, z, k)
    ensures z == y || Less(y, z)
  {
    if k == d - 1 {
      assert Agree(y, z, d);
      LeastBeyond(devices, x, d, y, z);
    } else {
      assert SplitsAt(y, z, k);
    }
  }

  // ---- One pass, bit by bit --------------------------------------------------------------

  /** After `n` bits the pass shows `shown`: its first bits are those of some device and follow the choice
      rule, the rest is still the previous ROM number. */
  ghost predicate Progress(devices: set<Rom>, previous: Rom, discrepancy: int, shown: Rom, n: nat) {
    && n <= 64
    && (exists x :: x in devices && Agree(shown, x, n))
    && (forall i: nat :: i < n && Conflict(devices, shown, i) ==> shown[i] == Choice(previous, discrepancy, i))
    && (forall i: nat :: n <= i < 64 ==> shown[i] == previous[i])
  }

  ghost function Remaining(devices: set<Rom>, shown: Rom, n: nat): set<Rom>
    requires n <= 64
  {
    set x | x in devices && Agree(shown, x, n)
  }

  /** Setting bit `n` keeps the devices of the same answer, and everything below bit `n`. */
  lemma BitNarrows(devices: set<Rom>, shown: Rom, n: nat, b: bool)
    requires n < 64
    ensures Remaining(devices, shown[n := b], n + 1) == set x | x in Remaining(devices, shown, n) && x[n] == b
    ensures forall i: nat :: i <= n ==>
      && Conflict(devices, shown[n := b], i) == Conflict(devices, shown, i)
      && DeepestZero(devices, shown[n := b], i) == DeepestZero(devices, shown, i)
  {
    var next: Rom := shown[n := b];
    forall i: nat | i <= n
      ensures Conflict(devices, shown, i) == Conflict(devices, next, i)
      ensures DeepestZero(devices, shown, i) == DeepestZero(devices, next, i)
    {
      PrefixDecides(devices, shown, next, i);
    }
    forall x
      ensures Agree(next, x, n + 1) <==> Agree(shown, x, n) && x[n] == b
    {
      assert Agree(next, x, n + 1) ==> next[n] == x[n];
      assert Agree(next, x, n + 1) ==> forall i: nat :: i < n ==> next[i] == shown[i];
    }
  }

  /** Taking the next bit as all remaining devices have it, or by the choice rule where they differ,
      for some remaining device `x` that has this bit. */
  lemma Advance(devices: set<Rom>, previous: Rom, discrepancy: int, shown: Rom, n: nat, next: Rom, x: Rom)
    requires n < 64 && Progress(devices, previous, discrepancy, shown, n)
    requires x in devices && Agree(shown, x, n) && next == shown[n := x[n]]
    requires Conflict(devices, shown, n) ==> x[n] == Choice(previous, discrepancy, n)
    ensures Progress(devices, previous, discrepancy, next, n + 1)
  {
    assert Agree(next, x, n + 1);
    forall i: nat | i < n + 1 && Conflict(devices, next, i)
      ensures next[i] == Choice(previous, discrepancy, i)
    {
      PrefixDecides(devices, shown, next, i);
    }
  }

  lemma ConflictIsSplit(devices: set<Rom>, shown: Rom, n: nat, b: bool)
    requires n < 64 && exists x :: x in Remaining(devices, shown, n) && x[n] == b
    ensures Conflict(devices, shown, n) <==> exists x :: x in Remaining(devices, shown, n) && x[n] != b
  {
    var x :| x in Remaining(devices, shown, n) && x[n] == b;
    if exists y :: y in Remaining(devices, shown, n) && y[n] != b {
      var y :| y in Remaining(devices, shown, n) && y[n] != b;
      var lo, hi := if b then y else x, if b then x else y;
      assert Agree(shown, lo, n) && Agree(shown, hi, n) && !lo[n] && hi[n];
    }
    if Conflict(devices, shown, n) {
      var y, z :| y in devices && z in devices && Agree(shown, y, n) && Agree(shown, z, n) && !y[n] && z[n];
      assert y in Remaining(devices, shown, n) && z in Remaining(devices, shown, n);
    }
  }

  /** A pass that got through all bits shows the selected device. */
  lemma ProgressEnds(devices: set<Rom>, previous: Rom, discrepancy: int, shown: Rom)
    requires Progress(devices, previous, discrepancy, shown, 64)
    ensures Selected(devices, previous, discrepancy, shown)
  {
    var x :| x in devices && Agree(shown, x, 64);
    assert x == shown;
  }

  // ---- Whole runs over all devices ------------------------------------------------------

  /** `found` lists devices in strictly increasing order, and omits only devices after its last. */
  ghost predicate Scanned(devices: set<Rom>, found: seq<Rom>) {
    && found != []
    && (forall i, j :: 0 <= i < j < |found| ==> Less(found[i], found[j]))
    && (forall x :: x in found ==> x in devices)
    && (forall z :: z in devices && z !in found ==> Less(found[|found| - 1], z))
  }

  /** The first search of a run selects the least device. */
  lemma ScanStarts(devices: set<Rom>, previous: Rom, x: Rom)
    requires Selected(devices, previous, 0, x)
    ensures Scanned(devices, [x])
  {
    forall z | z in devices && z !in [x]
      ensures Less(x, z)
    {
      assert Agree(x, z, 0);
      LeastBeyond(devices, previous, 0, x, z);
    }
  }

  /** With the discrepancy of the last device found, the next search selects its successor. */
  lemma NextIsSuccessor(devices: set<Rom>, x: Rom, y: Rom)
    requires x in devices && DeepestZero(devices, x, 64) > 0
    requires Selected(devices, x, DeepestZero(devices, x, 64), y)
    ensures Less(x, y)
    ensures forall z :: z in devices && Less(x, z) ==> z == y || Less(y, z)
  {
    var d := DeepestZero(devices, x, 64);
    TurnsAt(devices, x, d, y);
    forall z | z in devices && Less(x, z)
      ensures z == y || Less(y, z)
    {
      var k: nat :| SplitsAt(x, z, k);
      SplitBelowDeepest(devices, x, z, k, 64);
      AfterTurn(devices, x, d, y, z, k);
    }
  }

  lemma ScanContinues(devices: set<Rom>, found: seq<Rom>, y: Rom)
    requires Scanned(devices, found)
    requires var x := found[|found| - 1];
      DeepestZero(devices, x, 64) > 0 && Selected(devices, x, DeepestZero(devices, x, 64), y)
    ensures Scanned(devices, found + [y])
    ensures y !in found
  {
    var x := found[|found| - 1];
    assert x in found;
    NextIsSuccessor(devices, x, y);
    ExtendsScan(devices, found, y);
  }

  lemma ExtendsScan(devices: set<Rom>, found: seq<Rom>, y: Rom)
    requires Scanned(devices, found) && y in devices
    requires var x := found[|found| - 1];
      Less(x, y) && forall z :: z in devices && Less(x, z) ==> z == y || Less(y, z)
    ensures Scanned(devices, found + [y])
    ensures y !in found
  {
    var x, all := found[|found| - 1], found + [y];
    forall i | 0 <= i < |found|
      ensures Less(found[i], y) && found[i] != y
    {
      if i < |found| - 1 { LessTransitive(found[i], x, y); }
      LessIsTotal(found[i], y);
    }
    forall i, j | 0 <= i < j < |all|
      ensures Less(all[i], all[j])
    {
      assert j < |found| ==> all[j] == found[j];
    }
    forall z | z in devices && z !in all
      ensures Less(y, z)
    {
      assert all[|found|] == y;
    }
  }

  /** No conflict left to turn at is the same as nothing left to find. */
  lemma LastDeviceIff(devices: set<Rom>, x: Rom)
    requires x in devices
    ensures DeepestZero(devices, x, 64) == 0 <==> forall z :: z in devices ==> z == x || Less(z, x)
  {
    var d := DeepestZero(devices, x, 64);
    if d == 0 {
      forall z | z in devices
        ensures z == x || Less(z, x)
      {
        LessIsTotal(x, z);
        if Less(x, z) {
          var k: nat :| SplitsAt(x, z, k);
          GreaterMeansConflict(devices, x, z, k);
        }
      }
    } else {
      var y, z :| y in devices && z in devices && Agree(x, y, d - 1) && Agree(x, z, d - 1) && !y[d - 1] && z[d - 1];
      assert SplitsAt(x, z, d - 1);
      LessIsTotal(x, z);
    }
  }

  /** A run that stops at a device without a conflict left has found every device once. */
  lemma ScanEnds(devices: set<Rom>, found: seq<Rom>)
    requires Scanned(devices, found) && DeepestZero(devices, found[|found| - 1], 64) == 0
    ensures forall z :: z in devices <==> z in found
    ensures forall i, j :: 0 <= i < j < |found| ==> found[i] != found[j]
  {
    LastDeviceIff(devices, found[|found| - 1]);
    forall z | z in devices
      ensures z in found
    {
      LessIsTotal(found[|found| - 1], z);
    }
    forall i, j | 0 <= i < j < |found|
      ensures found[i] != found[j]
    {
      LessIsTotal(found[i], found[j]);
    }
  }

  // ---- Runs that skip from family to family ---------------------------------------------

  ghost predicate LeastOfFamily(devices: set<Rom>, x: Rom) {
    x in devices && forall z :: z in devices && Family(z) == Family(x) ==> z == x || Less(x, z)
  }

  ghost predicate FamilyListed(found: seq<Rom>, family: seq<bool>) {
    exists i :: 0 <= i < |found| && Family(found[i]) == family
  }

  /** `found` holds the least device of each family in family order, and omits only later families. */
  ghost predicate FamiliesScanned(devices: set<Rom>, found: seq<Rom>) {
    && found != []
    && (forall i :: 0 <= i < |found| ==> LeastOfFamily(devices, found[i]))
    && (forall i, j :: 0 <= i < j < |found| ==> FamilyLess(found[i], found[j]))
    && (forall z :: z in devices && !FamilyListed(found, Family(z)) ==> FamilyLess(found[|found| - 1], z))
  }

  /** A device of the family of `x` agrees with `x` on the first eight bits. */
  lemma SameFamilyAgree(x: Rom, z: Rom)
    requires Family(x) == Family(z)
    ensures Agree(x, z, 8)
  {
    forall i: nat | i < 8
      ensures x[i] == z[i]
    {
      assert x[i] == Family(x)[i] && z[i] == Family(z)[i];
    }
  }

  lemma FamilyScanStarts(devices: set<Rom>, previous: Rom, x: Rom)
    requires Selected(devices, previous, 0, x)
    ensures FamiliesScanned(devices, [x])
  {
    ScanStarts(devices, previous, x);
    forall z | z in devices && z != x
      ensures Less(x, z) && (Family(z) != Family(x) ==> FamilyLess(x, z))
    {
      assert z !in [x];
      var k: nat :| SplitsAt(x, z, k);
      if k >= 8 {
        assert Family(x) == Family(z);
      }
    }
    assert [x][0] == x;
  }

  /** Turning within the family code selects a device that comes first in its family. */
  lemma TurnedIsLeastOfFamily(devices: set<Rom>, previous: Rom, d: nat, y: Rom)
    requires d <= 8 && Selected(devices, previous, d, y)
    ensures LeastOfFamily(devices, y)
  {
    forall z | z in devices && Family(z) == Family(y)
      ensures z == y || Less(y, z)
    {
      SameFamilyAgree(y, z);
      LeastBeyond(devices, previous, d, y, z);
    }
  }

  /** The discrepancy within the family code leads to the next family there is. */
  lemma NextFamily(devices: set<Rom>, x: Rom, y: Rom)
    requires x in devices && DeepestZero(devices, x, 8) > 0
    requires Selected(devices, x, DeepestZero(devices, x, 8), y)
    ensures FamilyLess(x, y)
    ensures forall z :: z in devices && FamilyLess(x, z) ==> Family(z) == Family(y) || FamilyLess(y, z)
  {
    var d := DeepestZero(devices, x, 8);
    TurnsAt(devices, x, d, y);
    forall z | z in devices && FamilyLess(x, z)
      ensures Family(z) == Family(y) || FamilyLess(y, z)
    {
      var k: nat :| k < 8 && SplitsAt(x, z, k);
      SplitBelowDeepest(devices, x, z, k, 8);
      AfterTurn(devices, x, d, y, z, k);
      NotBefore(y, z);
    }
  }

  lemma NotBefore(y: Rom, z: Rom)
    requires z == y || Less(y, z)
    ensures Family(z) == Family(y) || FamilyLess(y, z)
  {
    if z != y {
      var k: nat :| SplitsAt(y, z, k);
      if k >= 8 { assert Family(z) == Family(y); }
    }
  }

  lemma FamilyScanContinues(devices: set<Rom>, found: seq<Rom>, y: Rom)
    requires FamiliesScanned(devices, found)
    requires var x := found[|found| - 1];
      DeepestZero(devices, x, 8) > 0 && Selected(devices, x, DeepestZero(devices, x, 8), y)
    ensures FamiliesScanned(devices, found + [y]) && y !in found
  {
    var x := found[|found| - 1];
    assert LeastOfFamily(devices, x);
    NextFamily(devices, x, y);
    TurnedIsLeastOfFamily(devices, x, DeepestZero(devices, x, 8), y);
    ExtendsFamilies(devices, found, y);
  }

  lemma ExtendsFamilies(devices: set<Rom>, found: seq<Rom>, y: Rom)
    requires FamiliesScanned(devices, found) && LeastOfFamily(devices, y)
    requires var x := found[|found| - 1];
      && FamilyLess(x, y)
      && forall z :: z in devices && FamilyLess(x, z) ==> Family(z) == Family(y) || FamilyLess(y, z)
    ensures FamiliesScanned(devices, found + [y]) && y !in found
  {
    var x, all := found[|found| - 1], found + [y];
    forall i | 0 <= i < |found|
      ensures FamilyLess(found[i], y) && found[i] != y
    {
      if i < |found| - 1 { FamilyLessTransitive(found[i], x, y); }
      FamilyLessIsTotal(found[i], y);
    }
    forall i, j | 0 <= i < j < |all|
      ensures FamilyLess(all[i], all[j])
    {
      assert j < |found| ==> all[j] == found[j];
    }
    forall z | z in devices && !FamilyListed(all, Family(z))
      ensures FamilyLess(y, z)
    {
      ListedStays(found, y, Family(z));
    }
  }

  lemma ListedStays(found: seq<Rom>, y: Rom, family: seq<bool>)
    ensures FamilyListed(found + [y], family) <==> FamilyListed(found, family) || Family(y) == family
  {
    var all := found + [y];
    if FamilyListed(found, family) {
      var i :| 0 <= i < |found| && Family(found[i]) == family;
      assert Family(all[i]) == family;
    }
    assert all[|found|] == y;
  }

  /** When the family code of the last device met no conflict to turn at, every family has been listed,
      by its least device, once. */
  lemma FamilyScanEnds(devices: set<Rom>, found: seq<Rom>)
    requires FamiliesScanned(devices, found) && DeepestZero(devices, found[|found| - 1], 8) == 0
    ensures forall x :: x in found <==> LeastOfFamily(devices, x)
    ensures forall z :: z in devices ==> FamilyListed(found, Family(z))
    ensures forall i, j :: 0 <= i < j < |found| ==> Family(found[i]) != Family(found[j])
  {
    var last := found[|found| - 1];
    assert LeastOfFamily(devices, last);
    forall z | z in devices
      ensures FamilyListed(found, Family(z))
    {
      if FamilyLess(last, z) {
        var k: nat :| k < 8 && SplitsAt(last, z, k);
        GreaterMeansConflict(devices, last, z, k);
        assert false;
      }
    }
    forall x | LeastOfFamily(devices, x)
      ensures x in found
    {
      var i :| 0 <= i < |found| && Family(found[i]) == Family(x);
      assert LeastOfFamily(devices, found[i]);
      LessIsTotal(x, found[i]);
    }
    forall i, j | 0 <= i < j < |found|
      ensures Family(found[i]) != Family(found[j])
    {
      FamilyLessIsTotal(found[i], found[j]);
    }
  }
}
