/** Bitwise AND of unsigned machine words seen as numbers, and the masks for which it is a remainder. */
module Bits {

  const TWO32: nat := 0x1_0000_0000

  function Pow2(k: nat): (p: nat)
    ensures p >= 1
  {
    if k == 0 then 1 else 2 * Pow2(k - 1)
  }

  lemma TwoTo32()
    ensures Pow2(32) == TWO32
  {
    assert Pow2(8) == 256;
    assert Pow2(16) == 0x1_0000;
    assert Pow2(24) == 0x100_0000;
  }

  /** The `^` operator on the low `w` bits, bit by bit. */
  function BitXor(a: nat, b: nat, w: nat): (r: nat)
    ensures r < Pow2(w)
  {
    if w == 0 then 0
    else (if a % 2 != b % 2 then 1 else 0) + 2 * BitXor(a / 2, b / 2, w - 1)
  }

  /** The `&` operator, bit by bit. */
  function BitAnd(a: nat, b: nat): (r: nat)
    ensures r <= b
  {
    if a == 0 || b == 0 then 0
    else (if a % 2 == 1 && b % 2 == 1 then 1 else 0) + 2 * BitAnd(a / 2, b / 2)
  }

  /** How many times `c` fits into `s`, and what is left over. */
  ghost function Quot(s: nat, c: nat): nat {
    if c == 0 || s < c then 0 else 1 + Quot(s - c, c)
  }

  ghost function Rest(s: nat, c: nat): nat {
    if c == 0 || s < c then s else Rest(s - c, c)
  }

  /** The product of `c` and `n`, by adding up. */
  function Times(c: nat, n: nat): nat {
    if n == 0 then 0 else Times(c, n - 1) + c
  }

  lemma {:induction false} TimesIsMul(c: nat, n: nat)
    ensures Times(c, n) == c * n
  {
    if n > 0 {
      TimesIsMul(c, n - 1);
      assert c * n == c * (n - 1) + c;
    }
  }

  lemma {:induction false} TimesMonotone(c: nat, m: nat, n: nat)
    requires m <= n
    ensures Times(c, m) <= Times(c, n)
    decreases n
  {
    if m < n { TimesMonotone(c, m, n - 1); }
  }

  lemma {:induction false} TimesScale(c: nat, k: nat, n: nat)
    ensures Times(c * k, n) == k * Times(c, n)
  {
    if n > 0 {
      TimesScale(c, k, n - 1);
      assert k * (Times(c, n - 1) + c) == k * Times(c, n - 1) + c * k;
    }
  }

  lemma {:induction false} QuotRest(s: nat, c: nat)
    requires c > 0
    ensures s == Times(c, Quot(s, c)) + Rest(s, c) && Rest(s, c) < c
  {
    if s >= c {
      QuotRest(s - c, c);
    }
  }

  lemma {:induction false} QuotRestUnique(s: nat, c: nat, q: nat, r: nat)
    requires c > 0 && s == Times(c, q) + r && r < c
    ensures Quot(s, c) == q && Rest(s, c) == r
    decreases q
  {
    if q > 0 {
      QuotRestUnique(s - c, c, q - 1, r);
    }
  }

  lemma QuotIsDiv(s: nat, c: nat)
    requires c > 0
    ensures Quot(s, c) == s / c && Rest(s, c) == s % c
  {
    DivModEquation(s, c);
    TimesIsMul(c, s / c);
    QuotRestUnique(s, c, s / c, s % c);
  }

  /** What stepping on by one does to quotient and rest. */
  lemma QuotStep(s: nat, c: nat)
    requires c > 0
    ensures Rest(s + 1, c) == 0 ==> Quot(s + 1, c) == Quot(s, c) + 1 && Rest(s, c) == c - 1
    ensures Rest(s + 1, c) != 0 ==> Quot(s + 1, c) == Quot(s, c) && Rest(s + 1, c) == Rest(s, c) + 1
  {
    QuotRest(s, c);
    var q, r := Quot(s, c), Rest(s, c);
    if r + 1 < c {
      QuotRestUnique(s + 1, c, q, r + 1);
    } else {
      QuotRestUnique(s + 1, c, q + 1, 0);
    }
  }

  /** A number below a multiple has a quotient below it. */
  lemma QuotBound(s: nat, c: nat, n: nat)
    requires s < Times(c, n)
    ensures Quot(s, c) < n
  {
    if c > 0 {
      QuotRest(s, c);
      if Quot(s, c) >= n { TimesMonotone(c, n, Quot(s, c)); }
    } else {
      TimesIsMul(c, n);
    }
  }

  lemma MulMonotone(a: nat, b: nat, c: nat)
    requires a <= b
    ensures a * c <= b * c
  {
  }

  lemma HalfRest(a: nat, p: nat)
    requires p > 0
    ensures Rest(a, 2 * p) == a % 2 + 2 * Rest(a / 2, p)
  {
    QuotRest(a / 2, p);
    var q, r := Quot(a / 2, p), Rest(a / 2, p);
    TimesScale(p, 2, q);
    QuotRestUnique(a, 2 * p, q, a % 2 + 2 * r);
  }

  /** `a` shifted right by `k`. */
  function ShiftRight(a: nat, k: nat): nat {
    if k == 0 then a else ShiftRight(a / 2, k - 1)
  }

  /** A mask of a single one tests one bit. */
  lemma {:induction false} BitTest(a: nat, k: nat)
    ensures BitAnd(a, Pow2(k)) == if ShiftRight(a, k) % 2 == 1 then Pow2(k) else 0
    decreases k
  {
    if k > 0 {
      BitTest(a / 2, k - 1);
      BitAndEven(a, Pow2(k - 1));
    } else {
      assert BitAnd(a / 2, 0) == 0;
    }
  }

  /** A mask of `k` low ones keeps the remainder. */
  lemma {:induction false} LowMask(a: nat, k: nat)
    ensures BitAnd(a, Pow2(k) - 1) == Rest(a, Pow2(k))
  {
    if k == 0 {
      QuotRest(a, 1);
    } else {
      var p := Pow2(k - 1);
      LowMask(a / 2, k - 1);
      HalfRest(a, p);
      LowMaskStep(a, p);
    }
  }

  lemma LowMaskStep(a: nat, p: nat)
    requires p > 0
    ensures BitAnd(a, 2 * p - 1) == a % 2 + 2 * BitAnd(a / 2, p - 1)
  {
    assert (2 * p - 1) / 2 == p - 1;
  }

  lemma {:induction false} Pow2Monotone(k: nat, w: nat)
    requires k <= w
    ensures Pow2(k) <= Pow2(w)
    decreases w
  {
    if k < w { Pow2Monotone(k, w - 1); }
  }

  /** A mask `m` of `w` bits whose `k` low ones are cleared rounds down. */
  lemma {:induction false} HighMask(a: nat, w: nat, k: nat, m: nat)
    requires k <= w && a < Pow2(w) && m == Pow2(w) - Pow2(k)
    ensures BitAnd(a, m) == a - Rest(a, Pow2(k))
  {
    if k == 0 {
      FullMask(a, w);
      QuotRest(a, 1);
    } else {
      Pow2Monotone(k - 1, w - 1);
      var h := Pow2(w - 1) - Pow2(k - 1);
      HighMask(a / 2, w - 1, k - 1, h);
      HighMaskStep(a, Pow2(k - 1), h, m);
    }
  }

  lemma HighMaskStep(a: nat, p: nat, h: nat, m: nat)
    requires p > 0 && m == 2 * h && BitAnd(a / 2, h) == a / 2 - Rest(a / 2, p)
    ensures BitAnd(a, m) == a - Rest(a, 2 * p)
  {
    HalfRest(a, p);
    BitAndEven(a, h);
  }

  lemma BitAndEven(a: nat, h: nat)
    ensures BitAnd(a, 2 * h) == 2 * BitAnd(a / 2, h)
  {
    assert (2 * h) / 2 == h;
  }

  lemma FullMask(a: nat, w: nat)
    requires a < Pow2(w)
    ensures BitAnd(a, Pow2(w) - 1) == a
  {
    LowMask(a, w);
  }

  lemma DivModEquation(a: int, d: int)
    requires d > 0
    ensures d * (a / d) + a % d == a && 0 <= a % d < d
  {
  }
}
