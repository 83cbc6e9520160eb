/** ROM identifiers of 1-Wire devices as the bus sees them: 64 bits, least significant bit
    of byte 0 first, ordered by the first bit in which two of them differ. */
module RomOrder {

  /** A ROM number: family code, six serial bytes and CRC, as the 64 bits that go over the wire. */
  type Rom = r: seq<bool> | |r| == 64 witness seq(64, _ => false)

  /** The eight bits of the family code. */
  function Family(r: Rom): seq<bool> {
    r[..8]
  }

  /** `x` and `y` agree on their first `n` bits. */
  ghost predicate Agree(x: Rom, y: Rom, n: nat)
    requires n <= 64
  {
    forall i: nat :: i < n ==> x[i] == y[i]
  }

  /** `k` is the first bit in which `x` and `y` differ, and `x` has the 0 there. */
  ghost predicate SplitsAt(x: Rom, y: Rom, k: nat) {
    k < 64 && Agree(x, y, k) && !x[k] && y[k]
  }

  ghost predicate Less(x: Rom, y: Rom) {
    exists k: nat :: SplitsAt(x, y, k)
  }

  /** `x` and `y` are of different families, that of `x` being earlier in bus order. */
  ghost predicate FamilyLess(x: Rom, y: Rom) {
    exists k: nat :: k < 8 && SplitsAt(x, y, k)
  }

  /** Two ROM numbers that do not agree on `n` bits have a first difference below `n`. */
  lemma FirstDifference(x: Rom, y: Rom, n: nat) returns (k: nat)
    requires n <= 64 && !Agree(x, y, n)
    ensures k < n && (SplitsAt(x, y, k) || SplitsAt(y, x, k))
  {
    k := 0;
    while x[k] == y[k]
      invariant k < n && Agree(x, y, k)
      decreases n - k
    {
      k := k + 1;
      if k == n { assert Agree(x, y, n); }
    }
  }

  /** Bus order is a strict total order. */
  lemma LessIsTotal(x: Rom, y: Rom)
    ensures Less(x, y) || Less(y, x) || x == y
    ensures !(Less(x, y) && Less(y, x))
    ensures !Less(x, x)
  {
    if !Agree(x, y, 64) {
      var k := FirstDifference(x, y, 64);
    } else {
      assert x == y;
    }
  }

  lemma LessTransitive(x: Rom, y: Rom, z: Rom)
    requires Less(x, y) && Less(y, z)
    ensures Less(x, z)
  {
    var i: nat :| SplitsAt(x, y, i);
    var j: nat :| SplitsAt(y, z, j);
    assert SplitsAt(x, z, if i < j then i else j);
  }

  /** Families are compared by their codes alone. */
  lemma FamilyLessIsTotal(x: Rom, y: Rom)
    ensures FamilyLess(x, y) || FamilyLess(y, x) || Family(x) == Family(y)
    ensures Family(x) == Family(y) ==> !FamilyLess(x, y)
    ensures !(FamilyLess(x, y) && FamilyLess(y, x))
  {
    if !Agree(x, y, 8) {
      var k := FirstDifference(x, y, 8);
    } else {
      assert Family(x) == Family(y);
    }
    forall k: nat | k < 8 && Family(x) == Family(y)
      ensures x[k] == y[k]
    {
      assert x[k] == Family(x)[k] && y[k] == Family(y)[k];
    }
  }

  lemma FamilyLessTransitive(x: Rom, y: Rom, z: Rom)
    requires FamilyLess(x, y) && FamilyLess(y, z)
    ensures FamilyLess(x, z)
  {
    var i: nat :| i < 8 && SplitsAt(x, y, i);
    var j: nat :| j < 8 && SplitsAt(y, z, j);
    assert SplitsAt(x, z, if i < j then i else j);
  }
}
