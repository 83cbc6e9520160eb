/** One enciphering cycle of `Xtea` in the operators of the C, on 32-bit vectors. */
module XteaWords {
  import opened Bits
  import opened Xtea

  ghost function Bit(b: bv32): nat {
    if b == 1 then 1 else 0
  }

  /** The number that the low `n` bits of `x` write. */
  ghost function Low(x: bv32, n: nat): (r: nat)
    ensures r < Pow2(n)
    decreases n, x
  {
    if n == 0 then 0 else Bit(x & 1) + 2 * Low(x >> 1, n - 1)
  }

  ghost function Value(x: bv32): Word {
    TwoTo32();
    Low(x, 32)
  }

  // ---- Xor and and -----------------------------------------------------------------------

  lemma HalfXor(x: bv32, y: bv32, s: bv32)
    requires s == x ^ y
    ensures s >> 1 == (x >> 1) ^ (y >> 1)
    ensures Bit(s & 1) == if Bit(x & 1) == Bit(y & 1) then 0 else 1
  {
  }

  lemma {:induction false} LowXor(x: bv32, y: bv32, s: bv32, n: nat)
    requires s == x ^ y
    ensures Low(s, n) == BitXor(Low(x, n), Low(y, n), n)
    decreases n
  {
    if n > 0 {
      HalfXor(x, y, s);
      LowXor(x >> 1, y >> 1, s >> 1, n - 1);
      LowXorStep(x, y, s, x >> 1, y >> 1, s >> 1, n);
    }
  }

  lemma BitXorStep(p: nat, q: nat, x: nat, y: nat, n: nat)
    requires n > 0 && p <= 1 && q <= 1
    ensures BitXor(p + 2 * x, q + 2 * y, n) == (if p == q then 0 else 1) + 2 * BitXor(x, y, n - 1)
  {
    assert (p + 2 * x) / 2 == x && (q + 2 * y) / 2 == y;
    assert (p + 2 * x) % 2 == p && (q + 2 * y) % 2 == q;
  }

  lemma LowXorStep(x: bv32, y: bv32, s: bv32, a: bv32, b: bv32, z: bv32, n: nat)
    requires n > 0 && a == x >> 1 && b == y >> 1 && z == s >> 1
    requires Bit(s & 1) == if Bit(x & 1) == Bit(y & 1) then 0 else 1
    requires Low(z, n - 1) == BitXor(Low(a, n - 1), Low(b, n - 1), n - 1)
    ensures Low(s, n) == BitXor(Low(x, n), Low(y, n), n)
  {
    BitXorStep(Bit(x & 1), Bit(y & 1), Low(a, n - 1), Low(b, n - 1), n);
  }

  lemma ValueXor(x: bv32, y: bv32)
    ensures Value(x ^ y) == Xor(Value(x), Value(y))
  {
    LowXor(x, y, x ^ y, 32);
  }

  // ---- Addition --------------------------------------------------------------------------

  lemma HalfAnd(x: bv32, y: bv32, c: bv32)
    requires c == x & y
    ensures c >> 1 == (x >> 1) & (y >> 1)
    ensures Bit(c & 1) == if Bit(x & 1) == 1 && Bit(y & 1) == 1 then 1 else 0
  {
  }

  lemma {:induction false} LowAnd(x: bv32, y: bv32, c: bv32, n: nat)
    requires c == x & y
    ensures Low(c, n) == BitAnd(Low(x, n), Low(y, n))
    decreases n
  {
    if n > 0 {
      HalfAnd(x, y, c);
      LowAnd(x >> 1, y >> 1, c >> 1, n - 1);
      LowAndStep(x, y, c, x >> 1, y >> 1, c >> 1, n);
    }
  }

  lemma BitAndStep(p: nat, q: nat, x: nat, y: nat, a: nat, b: nat)
    requires p <= 1 && q <= 1 && a == p + 2 * x && b == q + 2 * y
    ensures BitAnd(a, b) == (if p == 1 && q == 1 then 1 else 0) + 2 * BitAnd(x, y)
  {
    assert a / 2 == x && b / 2 == y && a % 2 == p && b % 2 == q;
  }

  lemma LowAndStep(x: bv32, y: bv32, c: bv32, a: bv32, b: bv32, z: bv32, n: nat)
    requires n > 0 && a == x >> 1 && b == y >> 1 && z == c >> 1
    requires Bit(c & 1) == if Bit(x & 1) == 1 && Bit(y & 1) == 1 then 1 else 0
    requires Low(z, n - 1) == BitAnd(Low(a, n - 1), Low(b, n - 1))
    ensures Low(c, n) == BitAnd(Low(x, n), Low(y, n))
  {
    BitAndStep(Bit(x & 1), Bit(y & 1), Low(a, n - 1), Low(b, n - 1), Low(x, n), Low(y, n));
  }

  /** Two numbers are their sum without carries and the carries into the next places. */
  lemma {:induction false} SumIsPair(a: nat, b: nat, n: nat)
    requires a < Pow2(n) && b < Pow2(n)
    ensures a + b == BitXor(a, b, n) + 2 * BitAnd(a, b)
  {
    if n > 0 {
      SumIsPair(a / 2, b / 2, n - 1);
      BitXorStep(a % 2, b % 2, a / 2, b / 2, n);
      BitAndStep(a % 2, b % 2, a / 2, b / 2, a, b);
      assert a % 2 + 2 * (a / 2) == a && b % 2 + 2 * (b / 2) == b;
    }
  }

  lemma ValuePair(x: bv32, y: bv32)
    ensures Value(x) + Value(y) == Value(x ^ y) + 2 * Value(x & y)
  {
    TwoTo32();
    LowXor(x, y, x ^ y, 32);
    LowAnd(x, y, x & y, 32);
    SumIsPair(Value(x), Value(y), 32);
  }

  // ---- Shifts and masks ------------------------------------------------------------------

  /** No bit of `x` above the lowest `n` is set. */
  ghost predicate Fits(x: bv32, n: nat)
    decreases n, x
  {
    if n == 0 then x == 0 else Fits(x >> 1, n - 1)
  }

  lemma FitsMore(x: bv32, n: nat)
    requires Fits(x >> 4, n)
    ensures Fits(x, n + 4)
  {
    assert Fits(x >> 3, n + 1) by { assert (x >> 3) >> 1 == x >> 4; }
    assert Fits(x >> 2, n + 2) by { assert (x >> 2) >> 1 == x >> 3; }
    assert Fits(x >> 1, n + 3) by { assert (x >> 1) >> 1 == x >> 2; }
  }

  lemma HalfWithin(x: bv32, m: bv32)
    requires x & m == x
    ensures (x >> 1) & (m >> 1) == x >> 1 && (m == 0 ==> x == 0)
  {
  }

  lemma {:induction false} FitsWithin(x: bv32, m: bv32, n: nat)
    requires Fits(m, n) && x & m == x
    ensures Fits(x, n)
    decreases n
  {
    HalfWithin(x, m);
    if n > 0 {
      FitsWithin(x >> 1, m >> 1, n - 1);
    }
  }

  lemma AllOnes(x: bv32)
    ensures x & 0xffff_ffff == x
  {
  }

  lemma AllFit(x: bv32)
    ensures Fits(x, 32)
  {
    FitsMore(0xf, 0);
    FitsMore(0xff, 4);
    FitsMore(0xfff, 8);
    FitsMore(0xffff, 12);
    FitsMore(0xf_ffff, 16);
    FitsMore(0xff_ffff, 20);
    FitsMore(0xfff_ffff, 24);
    FitsMore(0xffff_ffff, 28);
    AllOnes(x);
    FitsWithin(x, 0xffff_ffff, 32);
  }

  lemma {:induction false} LowFits(x: bv32, n: nat)
    requires Fits(x, n)
    ensures Low(x, n + 1) == Low(x, n)
    decreases n
  {
    if n > 0 {
      LowFits(x >> 1, n - 1);
    }
  }

  lemma ValueHalf(x: bv32)
    ensures Value(x >> 1) == Value(x) / 2
  {
    AllFit(x);
    LowFits(x >> 1, 31);
  }

  lemma {:induction false} LowTop(x: bv32, n: nat)
    ensures Low(x, n + 1) == Low(x, n) || Low(x, n + 1) == Low(x, n) + Pow2(n)
    decreases n
  {
    if n > 0 {
      LowTop(x >> 1, n - 1);
    }
  }

  lemma MaskStep(x: bv32, y: bv32, m: bv32)
    requires x & m == y & m && m & 1 == 1
    ensures x & 1 == y & 1 && (x >> 1) & (m >> 1) == (y >> 1) & (m >> 1)
  {
  }

  lemma {:induction false} LowAgrees(x: bv32, y: bv32, m: bv32, n: nat)
    requires Covers(m, n) && x & m == y & m
    ensures Low(x, n) == Low(y, n)
    decreases n
  {
    if n > 0 {
      MaskStep(x, y, m);
      LowAgrees(x >> 1, y >> 1, m >> 1, n - 1);
    }
  }

  /** The low `n` bits of `m` are set. */
  ghost predicate Covers(m: bv32, n: nat)
    decreases n, m
  {
    n == 0 || (m & 1 == 1 && Covers(m >> 1, n - 1))
  }

  lemma CoversMore(m: bv32, n: nat)
    requires m & 15 == 15 && Covers(m >> 4, n)
    ensures Covers(m, n + 4)
  {
    assert Covers(m >> 3, n + 1) by { assert (m >> 3) >> 1 == m >> 4 && (m >> 3) & 1 == 1; }
    assert Covers(m >> 2, n + 2) by { assert (m >> 2) >> 1 == m >> 3 && (m >> 2) & 1 == 1; }
    assert Covers(m >> 1, n + 3) by { assert (m >> 1) >> 1 == m >> 2 && (m >> 1) & 1 == 1; }
    assert m & 1 == 1;
  }

  lemma CoversAll()
    ensures Covers(0x7fff_ffff, 31)
  {
    assert Covers(1, 1);
    assert Covers(3, 2);
    CoversMore(0x7f, 3);
    CoversMore(0x7ff, 7);
    CoversMore(0x7fff, 11);
    CoversMore(0x7_ffff, 15);
    CoversMore(0x7f_ffff, 19);
    CoversMore(0x7ff_ffff, 23);
    CoversMore(0x7fff_ffff, 27);
  }

  lemma TwiceHalf(x: bv32)
    ensures (x << 1) & 1 == 0 && ((x << 1) >> 1) & 0x7fff_ffff == x & 0x7fff_ffff
  {
  }

  lemma ValueTwice(x: bv32)
    ensures Value(x << 1) == 2 * Value(x) % TWO32
  {
    TwiceHalf(x);
    CoversAll();
    LowAgrees((x << 1) >> 1, x, 0x7fff_ffff, 31);
    LowTop(x, 31);
    TwoTo32();
    TwiceWraps(Value(x), Low(x, 31), Value(x << 1));
  }

  lemma TwiceWraps(v: Word, w: nat, d: Word)
    requires (v == w || v == w + 0x8000_0000) && d == 2 * w
    ensures d == 2 * v % TWO32
  {
  }

  // ---- Addition --------------------------------------------------------------------------

  lemma {:induction false} CoversLess(m: bv32, n: nat, k: nat)
    requires Covers(m, n) && k <= n
    ensures Covers(m, k)
    decreases n
  {
    if k > 0 {
      CoversLess(m >> 1, n - 1, k - 1);
    }
  }

  lemma ZeroHalf(x: bv32)
    requires Bit(x & 1) == 0 && x >> 1 == 0
    ensures x == 0
  {
  }

  lemma {:induction false} LowZero(x: bv32, n: nat)
    requires Fits(x, n) && Low(x, n) == 0
    ensures x == 0
    decreases n
  {
    if n > 0 {
      LowZero(x >> 1, n - 1);
      ZeroHalf(x);
    }
  }

  /** The carries are 0 one place further up. */
  lemma CarriesMoveUp(x: bv32, y: bv32, c: bv32, k: nat)
    requires k < 32 && Low(y, k) == 0 && c == x & y
    ensures Low(c << 1, k + 1) == 0
  {
    LowAnd(x, y, c, k);
    TwiceHalf(c);
    CoversAll();
    CoversLess(0x7fff_ffff, 31, k);
    LowAgrees((c << 1) >> 1, c, 0x7fff_ffff, k);
  }

  /** `f` may take the sum without carries, and the carries one place further up. */
  ghost predicate Carries(f: (bv32, bv32) -> bv32, x: bv32, y: bv32) {
    f(x, 0) == x && f(x ^ y, (x & y) << 1) == f(x, y)
  }

  /** Whatever carries in this way adds: after 32 rounds no carry is left. */
  lemma {:induction false} CarryingAdds(f: (bv32, bv32) -> bv32, x: bv32, y: bv32, k: nat)
    requires k <= 32 && Low(y, k) == 0 && forall a, b :: Carries(f, a, b)
    ensures Value(f(x, y)) == Add(Value(x), Value(y))
    decreases 32 - k
  {
    assert Carries(f, x, y);
    if k == 32 {
      NoCarryLeft(y);
    } else {
      var s, c := x ^ y, (x & y) << 1;
      CarriesMoveUp(x, y, x & y, k);
      CarryingAdds(f, s, c, k + 1);
      SumOnePlaceUp(x, y, s, c);
    }
  }

  lemma NoCarryLeft(y: bv32)
    requires Low(y, 32) == 0
    ensures y == 0 && Value(y) == 0
  {
    AllFit(y);
    LowZero(y, 32);
  }

  lemma SumOnePlaceUp(x: bv32, y: bv32, s: bv32, c: bv32)
    requires s == x ^ y && c == (x & y) << 1
    ensures Add(Value(s), Value(c)) == Add(Value(x), Value(y))
  {
    ValuePair(x, y);
    ValueTwice(x & y);
    AddTwice(Value(s), Value(x & y), Value(x), Value(y));
  }

  lemma AddTwice(s: Word, c: Word, x: Word, y: Word)
    requires x + y == s + 2 * c
    ensures Add(s, 2 * c % TWO32) == Add(x, y)
  {
  }

  ghost function Plus(x: bv32, y: bv32): bv32 {
    x + y
  }

  lemma SumCarries(x: bv32, y: bv32)
    ensures (x ^ y) + ((x & y) << 1) == x + y
  {
  }

  lemma PlusCarries(x: bv32, y: bv32)
    ensures Carries(Plus, x, y)
  {
    SumCarries(x, y);
  }

  lemma ValueSum(x: bv32, y: bv32)
    ensures Value(x + y) == Add(Value(x), Value(y))
  {
    forall a, b ensures Carries(Plus, a, b) {
      PlusCarries(a, b);
    }
    CarryingAdds(Plus, x, y, 0);
  }

  // ---- Longer shifts, the mask and the constant ------------------------------------------

  ghost function Right(x: bv32, k: nat): bv32
    decreases k
  {
    if k == 0 then x else Right(x >> 1, k - 1)
  }

  ghost function Left(x: bv32, k: nat): bv32
    decreases k
  {
    if k == 0 then x else Left(x << 1, k - 1)
  }

  lemma ShiftsMeet(x: bv32)
    ensures Left(x, 4) == x << 4 && Right(x, 5) == x >> 5 && Right(x, 11) == x >> 11
  {
  }

  lemma {:induction false} ValueRight(x: bv32, k: nat)
    ensures Value(Right(x, k)) == ShiftRight(Value(x), k)
    decreases k
  {
    if k > 0 {
      ValueHalf(x);
      ValueRight(x >> 1, k - 1);
    }
  }

  lemma ValueRight5(x: bv32)
    ensures Value(x >> 5) == Value(x) / 32
  {
    ShiftsMeet(x);
    ValueRight(x, 5);
    ShiftRight5(Value(x));
  }

  lemma ValueRight11(x: bv32)
    ensures Value(x >> 11) == Value(x) / 2048
  {
    ShiftsMeet(x);
    ValueRight(x, 11);
    ShiftRight11(Value(x));
  }

  lemma {:induction false} ShiftSteps(v: nat, m: nat, n: nat)
    ensures ShiftRight(v, m + n) == ShiftRight(ShiftRight(v, m), n)
  {
    if m > 0 {
      ShiftSteps(v / 2, m - 1, n);
    }
  }

  lemma ShiftRight5(v: nat)
    ensures ShiftRight(v, 5) == v / 32
  {
    var a := v / 2;
    var b := a / 2;
    var c := b / 2;
    var d := c / 2;
    var e := d / 2;
    assert v == 32 * e + 16 * (d % 2) + 8 * (c % 2) + 4 * (b % 2) + 2 * (a % 2) + v % 2;
    assert v / 32 == e;
    assert ShiftRight(v, 5) == ShiftRight(a, 4) == ShiftRight(b, 3) == ShiftRight(c, 2) == ShiftRight(d, 1) == e;
  }

  lemma ShiftRight11(v: nat)
    ensures ShiftRight(v, 11) == v / 2048
  {
    ShiftSteps(v, 5, 6);
    ShiftSteps(ShiftRight(v, 5), 5, 1);
    ShiftRight5(v);
    ShiftRight5(v / 32);
    assert ShiftRight(v / 32 / 32, 1) == v / 32 / 32 / 2;
  }

  ghost function Doubled(v: Word, k: nat): Word
    decreases k
  {
    if k == 0 then v else Doubled(2 * v % TWO32, k - 1)
  }

  lemma {:induction false} ValueLeft(x: bv32, k: nat)
    ensures Value(Left(x, k)) == Doubled(Value(x), k)
    decreases k
  {
    if k > 0 {
      ValueTwice(x);
      ValueLeft(x << 1, k - 1);
    }
  }

  lemma ModTwice(v: nat)
    ensures 2 * (v % TWO32) % TWO32 == 2 * v % TWO32
  {
  }

  lemma DoubledFour(v: Word)
    ensures Doubled(v, 4) == v * 16 % TWO32
  {
    var a := 2 * v % TWO32;
    var b := 2 * a % TWO32;
    var c := 2 * b % TWO32;
    ModTwice(2 * v);
    assert b == 4 * v % TWO32;
    ModTwice(4 * v);
    assert c == 8 * v % TWO32;
    ModTwice(8 * v);
    assert Doubled(v, 4) == Doubled(a, 3) == Doubled(b, 2) == Doubled(c, 1) == 2 * c % TWO32;
  }

  lemma ValueLeft4(x: bv32)
    ensures Value(x << 4) == Value(x) * 16 % TWO32
  {
    ShiftsMeet(x);
    ValueLeft(x, 4);
    DoubledFour(Value(x));
  }

  lemma {:induction false} LowZeros(n: nat)
    ensures Low(0, n) == 0
  {
    if n > 0 {
      assert (0 as bv32) >> 1 == 0;
      LowZeros(n - 1);
    }
  }

  /** The two lowest places. */
  lemma LowTwo(x: bv32, h: bv32, n: nat)
    requires h == x >> 2
    ensures Low(x, n + 2) == Bit(x & 1) + 2 * Bit((x >> 1) & 1) + 4 * Low(h, n)
  {
    assert x >> 1 >> 1 == h;
    assert Low(x >> 1, n + 1) == Bit((x >> 1) & 1) + 2 * Low(h, n);
  }

  lemma MaskBits(x: bv32)
    ensures (x & 3) & 1 == x & 1 && ((x & 3) >> 1) & 1 == (x >> 1) & 1 && (x & 3) >> 2 == 0
  {
  }

  lemma ValueMask3(x: bv32)
    ensures Value(x & 3) == Value(x) % 4
  {
    assert Value(x & 3) == Bit(x & 1) + 2 * Bit((x >> 1) & 1) by {
      MaskBits(x);
      LowZeros(30);
      LowTwo(x & 3, 0, 30);
    }
    LowTwo(x, x >> 2, 30);
    RestOfFour(Value(x), Bit(x & 1), Bit((x >> 1) & 1), Low(x >> 2, 30));
  }

  lemma RestOfFour(v: nat, b: nat, c: nat, q: nat)
    requires v == b + 2 * c + 4 * q && b <= 1 && c <= 1
    ensures v % 4 == b + 2 * c
  {
  }

  /** The four lowest places. */
  lemma LowDigit(x: bv32, h: bv32, n: nat)
    requires h == x >> 4
    ensures Low(x, n + 4) == Bit(x & 1) + 2 * Bit((x >> 1) & 1) + 4 * Bit((x >> 2) & 1) + 8 * Bit((x >> 3) & 1)
                             + 16 * Low(h, n)
  {
    LowTwo(x, x >> 2, n + 2);
    LowTwo(x >> 2, h, n);
    assert x >> 2 >> 1 == x >> 3;
  }

  lemma DeltaByte()
    ensures Low(0x9e, 8) == 0x9e
  {
    LowDigit(0x9, 0, 0);
    LowDigit(0x9e, 0x9, 4);
  }

  lemma DeltaHalf()
    ensures Low(0x9e37, 16) == 0x9e37
  {
    DeltaByte();
    LowDigit(0x9e3, 0x9e, 8);
    LowDigit(0x9e37, 0x9e3, 12);
  }

  lemma DeltaThree()
    ensures Low(0x9e_3779, 24) == 0x9e_3779
  {
    DeltaHalf();
    LowDigit(0x9_e377, 0x9e37, 16);
    LowDigit(0x9e_3779, 0x9_e377, 20);
  }

  lemma ValueDelta()
    ensures Value(0x9e37_79b9) == DELTA
  {
    DeltaThree();
    LowDigit(0x9e3_779b, 0x9e_3779, 24);
    LowDigit(0x9e37_79b9, 0x9e3_779b, 28);
  }

  // ---- The cycle -------------------------------------------------------------------------

  /** The operators of the C that the cycle is written in. */
  datatype Operators<!T> = Operators(
    plus: (T, T) -> T,
    xor: (T, T) -> T,
    left4: T -> T,
    right5: T -> T,
    right11: T -> T,
    and3: T -> T,
    delta: T)

  // The operators on vectors, as functions.
  ghost function Exclusive(x: bv32, y: bv32): bv32 { x ^ y }
  ghost function Left4(x: bv32): bv32 { x << 4 }
  ghost function Right5(x: bv32): bv32 { x >> 5 }
  ghost function Right11(x: bv32): bv32 { x >> 11 }
  ghost function And3(x: bv32): bv32 { x & 3 }

  ghost function OnVectors(): Operators<bv32> {
    Operators(Plus, Exclusive, Left4, Right5, Right11, And3, 0x9e37_79b9)
  }

  /** The round of the C's loop; `value` is the index that a word is. */
  ghost function Round<T(!new)>(o: Operators<T>, value: T -> Word, k: seq<T>, v0: T, v1: T, sum: T): (T, T)
    requires |k| == 4 && forall x :: value(o.and3(x)) < 4
  {
    var w0 := o.plus(v0, Term(o, v1, o.plus(sum, k[value(o.and3(sum))])));
    var s := o.plus(sum, o.delta);
    (w0, o.plus(v1, Term(o, w0, o.plus(s, k[value(o.and3(o.right11(s)))]))))
  }

  ghost function Term<T>(o: Operators<T>, v: T, key: T): T {
    o.xor(o.plus(o.xor(o.left4(v), o.right5(v)), v), key)
  }

  /** The operators compute on the values as the cipher does on words. */
  ghost predicate Computes<T(!new)>(o: Operators<T>, value: T -> Word) {
    (forall x, y :: value(o.plus(x, y)) == Add(value(x), value(y))) &&
    (forall x, y :: value(o.xor(x, y)) == Xor(value(x), value(y))) &&
    (forall x :: value(o.left4(x)) == value(x) * 16 % TWO32) &&
    (forall x :: value(o.right5(x)) == value(x) / 32) &&
    (forall x :: value(o.right11(x)) == value(x) / 2048) &&
    (forall x :: value(o.and3(x)) == value(x) % 4) &&
    value(o.delta) == DELTA
  }

  ghost function Words<T>(value: T -> Word, k: seq<T>): seq<Word> {
    seq(|k|, i requires 0 <= i < |k| => value(k[i]))
  }

  lemma RoundIsCycle<T(!new)>(o: Operators<T>, value: T -> Word, k: seq<T>, v0: T, v1: T, sum: T)
    requires |k| == 4 && Computes(o, value)
    ensures var (w0, w1) := Round(o, value, k, v0, v1, sum);
            EncCycle(Words(value, k), Block(value(v0), value(v1)), value(sum)) == Block(value(w0), value(w1))
  {
  }

  lemma VectorsCompute()
    ensures Computes(OnVectors(), Value)
  {
    forall x, y ensures Value(Plus(x, y)) == Add(Value(x), Value(y)) {
      ValueSum(x, y);
    }
    forall x, y ensures Value(Exclusive(x, y)) == Xor(Value(x), Value(y)) {
      ValueXor(x, y);
    }
    forall x ensures Value(Left4(x)) == Value(x) * 16 % TWO32 {
      ValueLeft4(x);
    }
    forall x ensures Value(Right5(x)) == Value(x) / 32 {
      ValueRight5(x);
    }
    forall x ensures Value(Right11(x)) == Value(x) / 2048 {
      ValueRight11(x);
    }
    forall x ensures Value(And3(x)) == Value(x) % 4 {
      ValueMask3(x);
    }
    ValueDelta();
  }

  /** An enciphering cycle is the round of the C with its operators on 32-bit vectors. */
  lemma CycleIs(k: seq<bv32>, v0: bv32, v1: bv32, sum: bv32)
    requires |k| == 4
    ensures Computes(OnVectors(), Value)
    ensures var (w0, w1) := Round(OnVectors(), Value, k, v0, v1, sum);
            EncCycle(Words(Value, k), Block(Value(v0), Value(v1)), Value(sum)) == Block(Value(w0), Value(w1))
  {
    VectorsCompute();
    RoundIsCycle(OnVectors(), Value, k, v0, v1, sum);
  }

  /** Every word is the value of a vector. */
  lemma {:induction false} EveryWord(w: Word) returns (x: bv32)
    ensures Value(x) == w
  {
    if w == 0 {
      LowZeros(32);
      x := 0;
    } else {
      var y := EveryWord(w - 1);
      NextWord(y, w);
      x := y + 1;
    }
  }

  lemma NextWord(x: bv32, w: Word)
    requires w == Value(x) + 1
    ensures Value(x + 1) == w
  {
    ValueSum(x, 1);
    ValueOne();
  }

  lemma ValueOne()
    ensures Value(1) == 1
  {
    LowZeros(31);
  }
}
