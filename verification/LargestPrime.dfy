/** The largest 32-bit prime, 4294967291, is prime: the one number for which the trial division is wrong. */
module LargestPrime {
  import opened Bits
  import opened Primes

  const LARGEST: nat := 4294967291

  /** A prime factor of the number before it. */
  const FACTOR: nat := 22605091

  // ---- Divisibility ----------------------------------------------------------------------

  lemma Distribute(x: int, y: int, z: int)
    ensures x * (y + z) == x * y + x * z
  {
  }

  lemma DividesMul(d: nat, q: nat)
    requires d > 0
    ensures Divides(d, d * q)
  {
    TimesIsMul(d, q);
    QuotRestUnique(d * q, d, q, 0);
    QuotIsDiv(d * q, d);
  }

  lemma Cofactor(d: nat, a: nat) returns (q: nat)
    requires d > 0 && Divides(d, a)
    ensures a == d * q
  {
    DivModEquation(a, d);
    q := a / d;
  }

  lemma SameRestDiff(d: nat, a: nat, b: nat)
    requires d > 0 && b <= a && a % d == b % d
    ensures Divides(d, a - b)
  {
    DivModEquation(a, d);
    DivModEquation(b, d);
    var q := a / d - b / d;
    Distribute(d, b / d, q);
    DividesMul(d, q);
  }

  lemma DividesSum(d: nat, a: nat, b: nat)
    requires d > 0 && Divides(d, a)
    ensures Divides(d, a + b) <==> Divides(d, b)
  {
    var x := Cofactor(d, a);
    if Divides(d, b) {
      var y := Cofactor(d, b);
      Distribute(d, x, y);
      DividesMul(d, x + y);
    }
    if Divides(d, a + b) {
      SameRestDiff(d, a + b, a);
    }
  }

  lemma Associate(x: int, y: int, z: int)
    ensures x * y * z == x * (y * z)
  {
  }

  lemma Commute(x: int, y: int)
    ensures x * y == y * x
  {
  }

  lemma DividesProduct(d: nat, a: nat, b: nat)
    requires d > 0 && Divides(d, a)
    ensures Divides(d, a * b) && Divides(d, b * a)
  {
    var x := Cofactor(d, a);
    DividesMul(d, x * b);
    Associate(d, x, b);
    Commute(a, b);
  }

  lemma DividesTrans(d: nat, e: nat, a: nat)
    requires d > 0 && e > 0 && Divides(d, e) && Divides(e, a)
    ensures Divides(d, a)
  {
    var x := Cofactor(e, a);
    DividesProduct(d, e, x);
  }

  lemma OddHalf(d: nat, x: nat)
    requires d % 2 == 1 && Divides(d, 2 * x)
    ensures Divides(d, x)
  {
    var y := Cofactor(d, 2 * x);
    OddFactor(d, y);
    assert x == d * (y / 2);
    DividesMul(d, y / 2);
  }

  lemma OddFactor(d: nat, y: nat)
    requires d % 2 == 1 && d * y % 2 == 0
    ensures y % 2 == 0 && d * y == 2 * (d * (y / 2))
  {
    var h := d / 2;
    assert d * y == 2 * (h * y) + y;
    assert d * y == d * (2 * (y / 2));
  }

  // ---- Powers of two modulo an odd number ------------------------------------------------

  lemma {:induction false} Pow2Sum(a: nat, b: nat)
    ensures Pow2(a + b) == Pow2(a) * Pow2(b)
  {
    if a > 0 {
      Pow2Sum(a - 1, b);
    }
  }

  /** `2^k` leaves 1. */
  ghost predicate One(k: nat, d: nat)
    requires d > 0
  {
    Divides(d, Pow2(k) - 1)
  }

  lemma {:induction false} CancelPower(d: nat, a: nat, x: nat)
    requires d % 2 == 1 && Divides(d, Pow2(a) * x)
    ensures Divides(d, x)
  {
    if a > 0 {
      assert Pow2(a) * x == 2 * (Pow2(a - 1) * x);
      OddHalf(d, Pow2(a - 1) * x);
      CancelPower(d, a - 1, x);
    }
  }

  /** Equal powers cancel. */
  lemma CancelEqual(d: nat, a: nat, b: nat, k: nat)
    requires d % 2 == 1 && b == a + k && Pow2(b) % d == Pow2(a) % d
    ensures One(k, d)
  {
    PowerDifference(a, k);
    SameRestDiff(d, Pow2(b), Pow2(a));
    CancelPower(d, a, Pow2(k) - 1);
  }

  lemma PowerDifference(a: nat, k: nat)
    ensures Pow2(a + k) >= Pow2(a) && Pow2(a + k) - Pow2(a) == Pow2(a) * (Pow2(k) - 1)
  {
    Pow2Sum(a, k);
    Distribute(Pow2(a), Pow2(k) - 1, 1);
    Pow2Monotone(a, a + k);
  }

  lemma OneMinus(a: nat, b: nat, d: nat)
    requires d % 2 == 1 && One(a, d) && One(a + b, d)
    ensures One(b, d)
  {
    SplitOne(a, b);
    DividesSum(d, Pow2(a) - 1, Pow2(a) * (Pow2(b) - 1));
    CancelPower(d, a, Pow2(b) - 1);
  }

  lemma SplitOne(a: nat, b: nat)
    ensures Pow2(a + b) - 1 == (Pow2(a) - 1) + Pow2(a) * (Pow2(b) - 1)
  {
    Pow2Sum(a, b);
    Distribute(Pow2(a), Pow2(b) - 1, 1);
  }

  lemma OnePlus(a: nat, b: nat, d: nat)
    requires d > 0 && One(a, d) && One(b, d)
    ensures One(a + b, d)
  {
    SplitOne(a, b);
    DividesProduct(d, Pow2(b) - 1, Pow2(a));
    DividesSum(d, Pow2(a) - 1, Pow2(a) * (Pow2(b) - 1));
  }

  lemma {:induction false} OneTimes(a: nat, n: nat, d: nat)
    requires d > 0 && One(a, d)
    ensures One(a * n, d)
  {
    if n == 0 {
      DividesMul(d, 0);
    } else {
      OneTimes(a, n - 1, d);
      Distribute(a, n - 1, 1);
      OnePlus(a * (n - 1), a, d);
    }
  }

  lemma OneDifference(m: nat, a: nat, b: nat, d: nat)
    requires d % 2 == 1 && a < b && One(m * a, d) && One(m * b, d)
    ensures One(m * (b - a), d)
  {
    Distribute(m, a, b - a);
    OneMinus(m * a, m * (b - a), d);
  }

  /** Euclid's algorithm in the exponent. */
  lemma {:induction false} OneGcd(m: nat, a: nat, b: nat, d: nat) returns (g: nat)
    requires d % 2 == 1 && a > 0 && b > 0 && One(m * a, d) && One(m * b, d)
    ensures 0 < g <= a && Divides(g, a) && Divides(g, b) && One(m * g, d)
    decreases a + b
  {
    if a == b {
      g := a;
      SelfDivides(a);
    } else if a < b {
      OneDifference(m, a, b, d);
      g := OneGcd(m, a, b - a, d);
      DividesSum(g, a, b - a);
    } else {
      OneDifference(m, b, a, d);
      g := OneGcd(m, a - b, b, d);
      DividesSum(g, b, a - b);
    }
  }

  // ---- Some power leaves 1 ---------------------------------------------------------------

  ghost function Below(n: nat): set<nat> {
    if n == 0 then {} else Below(n - 1) + {n - 1}
  }

  lemma {:induction false} BelowIs(n: nat, i: nat)
    ensures i in Below(n) <==> i < n
  {
    if n > 0 { BelowIs(n - 1, i); }
  }

  lemma {:induction false} BelowSize(n: nat)
    ensures |Below(n)| == n
  {
    if n > 0 {
      BelowSize(n - 1);
      BelowIs(n - 1, n - 1);
    }
  }

  ghost function Residue(m: nat, d: nat, i: nat): (r: nat)
    requires d > 0
    ensures r < d
  {
    DivModEquation(Pow2(m * i), d);
    Pow2(m * i) % d
  }

  ghost function Residues(m: nat, d: nat, n: nat): set<nat>
    requires d > 0
  {
    if n == 0 then {} else Residues(m, d, n - 1) + {Residue(m, d, n - 1)}
  }

  lemma Collision(m: nat, d: nat, i: nat, j: nat)
    requires d % 2 == 1 && i < j && Residue(m, d, i) == Residue(m, d, j)
    ensures One(m * (j - i), d)
  {
    Distribute(m, i, j - i);
    CancelEqual(d, m * i, m * j, m * (j - i));
  }

  /** As long as no power leaves 1, the powers leave different residues. */
  lemma {:induction false} NewResidues(m: nat, d: nat, n: nat)
    requires d % 2 == 1
    requires forall k: nat :: 0 < k < n ==> !One(m * k, d)
    ensures Residues(m, d, n) <= Below(d) && |Residues(m, d, n)| == n
  {
    if n > 0 {
      NewResidues(m, d, n - 1);
      NewResidue(m, d, n - 1, Residue(m, d, n - 1));
      OneElementMore(Residues(m, d, n - 1), Residue(m, d, n - 1), Below(d));
    }
  }

  lemma OneElementMore(s: set<nat>, x: nat, all: set<nat>)
    requires s <= all && x in all && x !in s
    ensures s + {x} <= all && |s + {x}| == |s| + 1
  {
  }

  lemma NewResidue(m: nat, d: nat, n: nat, r: nat)
    requires d % 2 == 1 && r == Residue(m, d, n)
    requires forall k: nat :: 0 < k <= n ==> !One(m * k, d)
    ensures r in Below(d) && r !in Residues(m, d, n)
  {
    BelowIs(d, r);
    if r in Residues(m, d, n) {
      var i := FoundResidue(m, d, n, r);
      Collision(m, d, i, n);
    }
  }

  lemma {:induction false} FoundResidue(m: nat, d: nat, n: nat, r: nat) returns (i: nat)
    requires d > 0 && r in Residues(m, d, n)
    ensures i < n && Residue(m, d, i) == r
  {
    if r == Residue(m, d, n - 1) { i := n - 1; } else { i := FoundResidue(m, d, n - 1, r); }
  }

  /** Among `d + 1` powers two leave the same, so one leaves 1. */
  lemma Order(m: nat, d: nat) returns (k: nat)
    requires d % 2 == 1
    ensures 0 < k <= d && One(m * k, d)
  {
    if i: nat :| 0 < i <= d && One(m * i, d) {
      k := i;
    } else {
      NewResidues(m, d, d + 1);
      CardinalityMonotone(Residues(m, d, d + 1), Below(d));
      BelowSize(d);
    }
  }

  // ---- The certificate -------------------------------------------------------------------

  lemma FactorMod(a: nat, r: nat, b: nat, p: nat)
    requires p > 0 && r == a % p
    ensures r * b % p == a * b % p
  {
    DivModEquation(a, p);
    Expand(p, a / p, r, b);
    SameRest(p, a / p * b, r * b);
  }

  lemma Expand(p: nat, q: nat, r: nat, b: nat)
    ensures (p * q + r) * b == p * (q * b) + r * b
  {
  }

  lemma ProductMod(a: nat, r: nat, b: nat, s: nat, p: nat)
    requires p > 0 && r == a % p && s == b % p
    ensures r * s % p == a * b % p
  {
    FactorMod(a, r, b, p);
    FactorMod(b, s, r, p);
    Commute(r, s);
    Commute(r, b);
  }

  lemma SameRest(p: nat, t: nat, r: nat)
    requires p > 0
    ensures (p * t + r) % p == r % p
  {
    DivModEquation(r, p);
    TimesIsMul(p, t + r / p);
    assert p * t + r == p * (t + r / p) + r % p;
    QuotRestUnique(p * t + r, p, t + r / p, r % p);
    QuotIsDiv(p * t + r, p);
  }

  /** What twice the exponent, or one more, leaves. */
  lemma Next(k: nat, r: nat, s: nat, p: nat, bit: nat, q: nat) returns (l: nat)
    requires p > 0 && bit <= 1 && Pow2(k) % p == r
    requires (if bit == 0 then r * r else 2 * (r * r)) == p * q + s && s < p
    ensures l == 2 * k + bit && Pow2(l) % p == s
  {
    l := 2 * k + bit;
    ProductMod(Pow2(k), r, Pow2(k), r, p);
    Pow2Sum(k, k);
    DoubleMod(Pow2(k + k), r * r, p);
    SameRest(p, q, s);
    TooSmallRest(p, s);
  }

  lemma TooSmallRest(p: nat, s: nat)
    requires s < p
    ensures s % p == s
  {
    QuotRestUnique(s, p, 0, s);
    QuotIsDiv(s, p);
  }

  lemma DoubleMod(a: nat, b: nat, p: nat)
    requires p > 0 && a % p == b % p
    ensures 2 * a % p == 2 * b % p
  {
    FactorMod(a, a % p, 2, p);
    FactorMod(b, b % p, 2, p);
  }

  /** If `2^(m*e)` leaves 1 modulo `p` and every divisor of `e` up to `d` divides `f`, where `2^(m*f) - 1` has
      no divisor in common with `p`, then `p` is not a multiple of `d`. */
  lemma Certificate(p: nat, m: nat, e: nat, f: nat, j: nat, k: nat, c: nat, u: nat, v: nat, d: nat)
    requires p % 2 == 1 && e > 0 && j == m * e && k == m * f
    requires p > 1 && Pow2(j) % p == 1 && Pow2(k) % p == c
    requires forall g :: 1 <= g <= d && Divides(g, e) ==> Divides(g, f)
    requires c >= 1 && u * (c - 1) == v * p + 1
    requires d >= 2
    ensures !Divides(d, p)
  {
    if Divides(d, p) {
      if d % 2 == 0 { DividesTrans(2, d, p); }
      LeavesOne(j, p, 1, d);
      SmallExponent(m, e, f, d);
      LeavesOne(k, p, c, d);
      NoCommonDivisor(c - 1, p, u, v, d);
    }
  }

  lemma SmallExponent(m: nat, e: nat, f: nat, d: nat)
    requires d % 2 == 1 && e > 0 && One(m * e, d)
    requires forall k :: 1 <= k <= d && Divides(k, e) ==> Divides(k, f)
    ensures One(m * f, d)
  {
    var k := Order(m, d);
    var g := OneGcd(m, k, e, d);
    var t := Cofactor(g, f);
    OneTimes(m * g, t, d);
    Associate(m, g, t);
  }

  lemma NoCommonDivisor(a: nat, b: nat, u: nat, v: nat, d: nat)
    requires d >= 2 && u * a == v * b + 1 && Divides(d, b)
    ensures !Divides(d, a)
  {
    if Divides(d, a) {
      DividesProduct(d, a, u);
      DividesProduct(d, b, v);
      DividesSum(d, v * b, 1);
    }
  }

  /** What a power leaves modulo a multiple of `d`, and modulo `d`. */
  lemma LeavesOne(k: nat, p: nat, c: nat, d: nat)
    requires p > 0 && d > 0 && Divides(d, p) && Pow2(k) % p == c && c >= 1
    ensures One(k, d) <==> Divides(d, c - 1)
  {
    DivModEquation(Pow2(k), p);
    var q := Pow2(k) / p;
    DividesProduct(d, p, q);
    DividesSum(d, p * q, c - 1);
  }

  // ---- The certificates ------------------------------------------------------------------

  /** 181 * 181 has no divisors but 1, 181 and itself. */
  lemma DivisorsOfSquare(k: nat)
    requires 0 < k < 181 * 181 && Divides(k, 181 * 181)
    ensures Divides(k, 181)
  {
  }

  lemma SmallPowers()
    ensures Pow2(15) == 0x8000 && Pow2(21) == 0x20_0000 && Pow2(23) == 0x80_0000 && Pow2(31) == 0x8000_0000
  {
    assert Pow2(8) == 0x100;
    assert Pow2(16) == 0x1_0000;
    assert Pow2(24) == 0x100_0000;
  }

  lemma FactorPower() returns (k: nat)
    ensures k == 22605090 && Pow2(k) % FACTOR == 1
  {
    k := 21;
    SmallPowers();
    k := Next(k, 2097152, 12288, 22605091, 1, 389120);
    k := Next(k, 12288, 15364398, 22605091, 0, 6);
    k := Next(k, 15364398, 9245405, 22605091, 0, 10442989);
    k := Next(k, 9245405, 1417176, 22605091, 0, 3781339);
    k := Next(k, 1417176, 9194889, 22605091, 1, 177693);
    k := Next(k, 9194889, 9440982, 22605091, 1, 7480260);
    k := Next(k, 9440982, 14705555, 22605091, 1, 7886023);
    k := Next(k, 14705555, 4214518, 22605091, 0, 9566577);
    k := Next(k, 4214518, 16546510, 22605091, 1, 1571518);
    k := Next(k, 16546510, 16623520, 22605091, 1, 24223480);
    k := Next(k, 16623520, 11828878, 22605091, 0, 12224742);
    k := Next(k, 11828878, 12323248, 22605091, 1, 12379720);
    k := Next(k, 12323248, 15810771, 22605091, 0, 6718063);
    k := Next(k, 15810771, 1122569, 22605091, 0, 11058592);
    k := Next(k, 1122569, 12908659, 22605091, 1, 111493);
    k := Next(k, 12908659, 3661599, 22605091, 0, 7371502);
    k := Next(k, 3661599, 1713791, 22605091, 0, 593110);
    k := Next(k, 1713791, 118051, 22605091, 0, 129930);
    k := Next(k, 118051, 22605090, 22605091, 1, 1232);
    k := Next(k, 22605090, 1, 22605091, 0, 22605089);
  }

  lemma FactorRootPower() returns (k: nat)
    ensures k == 690 * 181 && Pow2(k) % FACTOR == 13954217
  {
    k := 15;
    SmallPowers();
    k := Next(k, 32768, 11302547, 22605091, 0, 47);
    k := Next(k, 11302547, 5651275, 22605091, 0, 5651274);
    k := Next(k, 5651275, 14128192, 22605091, 1, 2825638);
    k := Next(k, 14128192, 14834796, 22605091, 1, 17660252);
    k := Next(k, 14834796, 19377874, 22605091, 1, 19470938);
    k := Next(k, 19377874, 13741681, 22605091, 1, 33222781);
    k := Next(k, 13741681, 20502141, 22605091, 1, 16707191);
    k := Next(k, 20502141, 6514533, 22605091, 0, 18594828);
    k := Next(k, 6514533, 6576648, 22605091, 1, 3754830);
    k := Next(k, 6576648, 720283, 22605091, 1, 3826775);
    k := Next(k, 720283, 20761639, 22605091, 0, 22950);
    k := Next(k, 20761639, 3051820, 22605091, 1, 38137042);
    k := Next(k, 3051820, 13954217, 22605091, 0, 412013);
  }

  lemma FactorIsPrime()
    ensures Prime(FACTOR)
  {
    var j := FactorPower();
    var k := FactorRootPower();
    forall d | 2 <= d < 4755
      ensures !Divides(d, FACTOR)
    {
      forall g | 1 <= g <= d && Divides(g, 181 * 181)
        ensures Divides(g, 181)
      {
        DivisorsOfSquare(g);
      }
      Certificate(FACTOR, 690, 181 * 181, 181, j, k, 13954217, 19569746, 12080485, d);
    }
    SmallDivisor(FACTOR, 4755);
  }

  lemma LargestPower() returns (k: nat)
    ensures k == 4294967290 && Pow2(k) % LARGEST == 1
  {
    k := 31;
    SmallPowers();
    k := Next(k, 2147483648, 2147483658, 4294967291, 1, 2147483650);
    k := Next(k, 2147483658, 2147483958, 4294967291, 1, 2147483670);
    k := Next(k, 2147483958, 2147678958, 4294967291, 1, 2147484270);
    k := Next(k, 2147678958, 1132017720, 4294967291, 1, 2147874288);
    k := Next(k, 1132017720, 3026704579, 4294967291, 1, 596728231);
    k := Next(k, 3026704579, 2956805791, 4294967291, 1, 4265895401);
    k := Next(k, 2956805791, 1942866765, 4294967291, 1, 4071137167);
    k := Next(k, 1942866765, 3714305848, 4294967291, 1, 1757746222);
    k := Next(k, 3714305848, 3031303048, 4294967291, 1, 6424294760);
    k := Next(k, 3031303048, 353149209, 4294967291, 1, 4278867589);
    k := Next(k, 353149209, 1153410921, 4294967291, 1, 58074651);
    k := Next(k, 1153410921, 3236959824, 4294967291, 1, 619495638);
    k := Next(k, 3236959824, 1576914029, 4294967291, 1, 4879156553);
    k := Next(k, 1576914029, 578265673, 4294967291, 1, 1157940299);
    k := Next(k, 578265673, 2212816837, 4294967291, 1, 155713031);
    k := Next(k, 2212816837, 889384459, 4294967291, 1, 2280137669);
    k := Next(k, 889384459, 3033467628, 4294967291, 1, 368340274);
    k := Next(k, 3033467628, 289711946, 4294967291, 1, 4284980642);
    k := Next(k, 289711946, 1290348818, 4294967291, 1, 39084354);
    k := Next(k, 1290348818, 3653646841, 4294967291, 1, 775326077);
    k := Next(k, 3653646841, 4113184316, 4294967291, 1, 6216175506);
    k := Next(k, 4113184316, 2319251450, 4294967291, 1, 7878190482);
    k := Next(k, 2319251450, 1430430472, 4294967291, 1, 2504758208);
    k := Next(k, 1430430472, 2883293336, 4294967291, 1, 952804152);
    k := Next(k, 2883293336, 110536630, 4294967291, 0, 1935609726);
    k := Next(k, 110536630, 4294967290, 4294967291, 1, 5689610);
    k := Next(k, 4294967290, 1, 4294967291, 0, 4294967289);
  }

  lemma LargestRootPower() returns (k: nat)
    ensures k == 190 && Pow2(k) % LARGEST == 1073745729
  {
    k := 23;
    SmallPowers();
    k := Next(k, 8388608, 163840, 4294967291, 1, 32768);
    k := Next(k, 163840, 2147483708, 4294967291, 1, 12);
    k := Next(k, 2147483708, 1073745729, 4294967291, 0, 1073741885);
  }

  lemma LargestIsPrime()
    ensures Prime(LARGEST)
  {
    FactorIsPrime();
    var j := LargestPower();
    var k := LargestRootPower();
    forall d | 2 <= d < 65536
      ensures !Divides(d, LARGEST)
    {
      forall g | 1 <= g <= d && Divides(g, FACTOR)
        ensures Divides(g, 1)
      {
        SmallDivisorOfPrime(FACTOR, g);
      }
      Certificate(LARGEST, 190, FACTOR, 1, j, k, 1073745729, 1771216906, 442805837, d);
    }
    SmallDivisor(LARGEST, 65536);
  }

  lemma SmallDivisorOfPrime(p: nat, g: nat)
    requires Prime(p) && 1 <= g < p && Divides(g, p)
    ensures g == 1
  {
  }

  /** The input for which the answer is wrong: a prime that is not reported. */
  lemma WrongAnswer()
    ensures Prime(LARGEST) && !Reported(LARGEST)
  {
    LargestIsPrime();
  }

  /** The trial division is right for every 32-bit number except this prime, which it calls composite. */
  lemma ExactIff(n: nat)
    requires n < TWO32
    ensures (Reported(n) <==> Prime(n)) <==> n != LARGEST
  {
    LargestIsPrime();
    if n != LARGEST { ExactButOne(n); }
  }

  /** A range is counted exactly unless it holds this prime. */
  lemma CountExactIff(beg: nat, end: nat)
    requires end <= TWO32
    ensures |ReportedIn(beg, end)| == |PrimesIn(beg, end)| <==> !(beg <= LARGEST < end)
  {
    LargestIsPrime();
    assert ReportedIn(beg, end) <= PrimesIn(beg, end);
    if beg <= LARGEST < end {
      CardinalityMonotone(ReportedIn(beg, end), PrimesIn(beg, end) - {LARGEST});
    } else {
      forall p | p in PrimesIn(beg, end)
        ensures p in ReportedIn(beg, end)
      {
        ExactButOne(p);
      }
      assert ReportedIn(beg, end) == PrimesIn(beg, end);
    }
  }
}
