/** The trial division of the dual-core primes demo, in 32-bit unsigned arithmetic. */
module Primes {
  import opened Bits

  /** `d` divides `n`. */
  ghost predicate Divides(d: nat, n: nat)
    requires d > 0
  {
    n % d == 0
  }

  ghost predicate Prime(n: nat) {
    n >= 2 && forall d :: 2 <= d < n ==> !Divides(d, n)
  }

  /** `i*i` as the machine computes it. */
  function Square32(i: nat): nat {
    (i * i) % TWO32
  }

  /** The largest square of a 32-bit number, as the machine computes squares. From there on `i*i <= n` never fails. */
  const LARGEST_SQUARE: nat := 4294967289

  /** A 32-bit number whose square wraps around to the largest. */
  const ITS_ROOT: nat := 479772853

  lemma SmallDivisor(n: nat, i: nat)
    requires 2 <= n < i * i
    requires forall j :: 2 <= j < i ==> !Divides(j, n)
    ensures Prime(n)
  {
    forall d | 2 <= d < n
      ensures !Divides(d, n)
    {
      if Divides(d, n) {
        CoDivisor(n, d, i);
      }
    }
  }

  /** Of a divisor and its cofactor, one is below the root. */
  lemma CoDivisor(n: nat, d: nat, i: nat)
    requires 2 <= d < n < i * i && Divides(d, n)
    ensures exists j :: 2 <= j < i && Divides(j, n)
  {
    var e := n / d;
    DivModEquation(n, d);
    assert n == e * d;
    if d >= i {
      CofactorBounds(e, d, i);
      MultipleOf(e, d);
    }
  }

  lemma CofactorBounds(e: nat, d: nat, i: nat)
    requires d < e * d < i * i && i <= d
    ensures 2 <= e < i
  {
    if e <= 1 { MulMonotone(e, 1, d); }
    if e >= i {
      MulMonotone(i, e, d);
      MulMonotone(i, d, i);
    }
  }

  lemma MultipleOf(e: nat, d: nat)
    requires e > 0
    ensures Divides(e, e * d)
  {
    TimesIsMul(e, d);
    QuotRestUnique(e * d, e, d, 0);
    QuotIsDiv(e * d, e);
  }

  /** Some trial divisor up to `n` has a machine square beyond `n`. */
  ghost predicate Escapes(n: nat) {
    exists i :: 2 <= i <= n && Square32(i) > n
  }

  /** What an even and an odd square leave. */
  predicate SquareRest(i: nat, square: nat) {
    square % 16 in if i % 2 == 0 then {0, 4} else {1, 9}
  }

  lemma {:induction false} SquareMod16(i: nat)
    ensures SquareRest(i, i * i)
  {
    if i >= 4 {
      SquareMod16(i - 4);
      SquareStep(i - 4);
      SquareRestStep(i - 4, (i - 4) * (i - 4));
    } else {
      assert i * i == if i == 0 then 0 else if i == 1 then 1 else if i == 2 then 4 else 9;
    }
  }

  lemma SquareStep(i: nat)
    ensures (i + 4) * (i + 4) == i * i + 8 * i + 16
  {
  }

  lemma SquareRestStep(i: nat, square: nat)
    requires SquareRest(i, square)
    ensures SquareRest(i + 4, square + 8 * i + 16)
  {
    var h := i / 2;
    if i % 2 == 0 {
      assert square + 8 * i + 16 == square + 16 * (h + 1);
    } else {
      assert square + 8 * i + 16 == square + 8 + 16 * (h + 1);
    }
  }

  lemma SquareBound(i: nat)
    ensures Square32(i) <= LARGEST_SQUARE
  {
    SquareMod16(i);
    WrapMod16(i * i);
  }

  /** The six words beyond leave 10 to 15 modulo 16, which no square does. */
  lemma WrapMod16(s: nat)
    requires s % 16 in {0, 1, 4, 9}
    ensures s % TWO32 <= LARGEST_SQUARE
  {
  }

  /** The loop can end exactly for the numbers below the largest machine square. */
  lemma EscapesIff(n: nat)
    requires 2 <= n < TWO32
    ensures Escapes(n) <==> n < LARGEST_SQUARE
  {
    if n < LARGEST_SQUARE {
      if n < 65535 {
        MulMonotone(n, 65535, n);
        MulMonotone(2, n, n);
        assert Square32(n) > n;
      } else if n < 65535 * 65535 {
        assert Square32(65535) > n;
      } else {
        assert Square32(ITS_ROOT) == LARGEST_SQUARE;
      }
    } else if i :| 2 <= i <= n && Square32(i) > n {
      SquareBound(i);
    }
  }

  /** What the trial division says: right for every prime below the largest machine square, and 0 beyond. */
  ghost predicate Reported(n: nat) {
    Prime(n) && n < LARGEST_SQUARE
  }

  /** The loop has gone past all divisors below `i`. */
  ghost predicate Tried(n: nat, i: nat) {
    forall j :: 2 <= j < i ==> !Divides(j, n) && Square32(j) <= n
  }

  lemma FoundDivisor(n: nat, i: nat)
    requires 2 <= i <= n < TWO32 && Divides(i, n) && Tried(n, i) && Square32(i) <= n
    ensures !Reported(n)
  {
    if i == n { EscapesIff(n); }
  }

  lemma SelfDivides(n: nat)
    requires n > 0
    ensures Divides(n, n)
  {
    QuotRestUnique(n, n, 1, 0);
    QuotIsDiv(n, n);
  }

  lemma TriedOneMore(n: nat, i: nat)
    requires 2 <= i && !Divides(i, n) && Tried(n, i) && Square32(i) <= n
    ensures Tried(n, i + 1)
  {
    forall j | 2 <= j < i + 1
      ensures !Divides(j, n) && Square32(j) <= n
    {
      if j < i {
        assert !Divides(j, n);
      }
    }
  }

  lemma LoopEnd(n: nat, i: nat)
    requires 2 <= i <= n < TWO32 && Tried(n, i) && Square32(i) > n
    ensures Reported(n)
  {
    EscapesIff(n);
    DivModEquation(i * i, TWO32);
    SmallDivisor(n, i);
  }

  method IsPrime(n: nat) returns (r: nat)
    requires n < TWO32
    ensures r == if Reported(n) then 1 else 0
  {
    if n < 2 {
      return 0;
    }
    var i := 2;
    while Square32(i) <= n
      invariant 2 <= i <= n && Tried(n, i)
      decreases n - i
    {
      if n % i == 0 {
        FoundDivisor(n, i);
        return 0;
      }
      SelfDivides(n);
      TriedOneMore(n, i);
      i := (i + 1) % TWO32;
    }
    LoopEnd(n, i);
    return 1;
  }

  /** Where nothing wraps the answer is exact. */
  lemma ExactWithoutWrap(n: nat)
    requires n < 65535 * 65535
    ensures Reported(n) <==> Prime(n)
  {
  }

  /** The answer is exact for every 32-bit number but one. */
  lemma ExactButOne(n: nat)
    requires n < TWO32 && n != 4294967291
    ensures Reported(n) <==> Prime(n)
  {
    if n >= LARGEST_SQUARE {
      var d := if n % 2 == 0 then 2 else if n % 3 == 0 then 3 else 9241;
      assert n % 2 == 1 ==> n in {4294967289, 4294967293, 4294967295};
      assert Divides(d, n);
    }
  }

  // ---- Counting --------------------------------------------------------------------------

  ghost function PrimesIn(beg: nat, end: nat): set<nat> {
    set p: nat | beg <= p < end && Prime(p)
  }

  ghost function ReportedIn(beg: nat, end: nat): set<nat> {
    set p: nat | beg <= p < end && Reported(p)
  }

  lemma OneMorePrime(beg: nat, end: nat)
    requires beg <= end
    ensures |PrimesIn(beg, end + 1)| == |PrimesIn(beg, end)| + if Prime(end) then 1 else 0
  {
    assert PrimesIn(beg, end + 1) == PrimesIn(beg, end) + if Prime(end) then {end} else {};
  }

  lemma OneMoreReported(beg: nat, end: nat)
    requires beg <= end
    ensures |ReportedIn(beg, end + 1)| == |ReportedIn(beg, end)| + if Reported(end) then 1 else 0
  {
    assert ReportedIn(beg, end + 1) == ReportedIn(beg, end) + if Reported(end) then {end} else {};
  }

  lemma SplitCount(beg: nat, mid: nat, end: nat)
    requires beg <= mid <= end
    ensures |PrimesIn(beg, end)| == |PrimesIn(beg, mid)| + |PrimesIn(mid, end)|
  {
    assert PrimesIn(beg, end) == PrimesIn(beg, mid) + PrimesIn(mid, end);
  }

  lemma {:induction false} CardinalityMonotone(a: set<nat>, b: set<nat>)
    requires a <= b
    ensures |a| <= |b|
  {
    if a != {} {
      var x :| x in a;
      CardinalityMonotone(a - {x}, b - {x});
    }
  }

  method CountPrimes(beg: nat, end: nat) returns (count: nat)
    requires beg < TWO32 && end < TWO32
    ensures count == |ReportedIn(beg, end)| && count < TWO32
  {
    assert ReportedIn(beg, beg) == {};
    count := 0;
    var i := beg;
    while i < end
      invariant beg <= i && (i <= end || i == beg)
      invariant count == |ReportedIn(beg, i)| && count <= i - beg
    {
      var one := IsPrime(i);
      if one != 0 {
        count := (count + 1) % TWO32;
      }
      OneMoreReported(beg, i);
      i := (i + 1) % TWO32;
    }
    assert i > end ==> ReportedIn(beg, end) == {};
  }
}
