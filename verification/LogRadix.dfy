/** The estimate of a logarithm in base 10 from one in base 2. */
module LogRadix {
  import opened Powers
  import opened ExactScaling

  /** mul_log2_radix for radix 10. */
  function MulLog2(a: int): (r: int) {
    a * 0x4d104d / 0x100_0000
  }

  lemma Square(b: nat, n: nat, x: nat)
    requires Pow(b, n) == x
    ensures Pow(b, 2 * n) == x * x && Pow(b, 2 * n + 1) == b * (x * x)
  {
    PowAdd(b, n, n);
  }

  lemma FiveTo146()
    ensures Pow(5, 146) == 0x802221226be55a64c2494954da2c9789dd268b0e975528c76435158a6cb8a4d2356f9cfdcafd2279c77d9
  {
    assert Pow(5, 9) == 1953125;
    Square(5, 9, 0x1dcd65);
    Square(5, 18, 0x3782dace9d9);
    Square(5, 36, 0xc097ce7bc90715b34b9f1);
    Square(5, 73, 0x2d4744eba92922375aeaead8e62f6f9050d02cf0865);
  }

  lemma TwoTo339()
    ensures Pow(2, 339) == 0x8000000000000000000000000000000000000000000000000000000000000000000000000000000000000
  {
    assert Pow(2, 10) == 1024;
    Square(2, 10, 0x400);
    Square(2, 21, 0x200000);
    Square(2, 42, 0x40000000000);
    Square(2, 84, 0x1000000000000000000000);
    Square(2, 169, 0x2000000000000000000000000000000000000000000);
  }

  /** 5^n is at most m * 2^e. */
  ghost predicate AtMost(n: nat, m: nat, e: nat) {
    Pow(5, n) <= m * Pow(2, e)
  }

  /** A bound on a power gives one on its square, or on five times its square; the mantissa is cut to size. */
  lemma SquareBound(n: nat, m: nat, e: nat, odd: nat, k: nat, two: nat, cut: nat)
    requires odd <= 1 && AtMost(n, m, e) && two == Pow(2, k)
    requires (if odd == 1 then 5 else 1) * (m * m) <= cut * two
    ensures AtMost(2 * n + odd, cut, 2 * e + k)
  {
    var x, y, c := Pow(5, n), Pow(2, e), if odd == 1 then 5 else 1;
    Square(5, n, x);
    PowAdd(2, e, e);
    PowAdd(2, 2 * e, k);
    hide Pow;
    CutBound(x, m, y, c, m * m, y * y, two, cut);
  }

  lemma CutBound(x: nat, m: nat, y: nat, c: nat, mm: nat, yy: nat, two: nat, cut: nat)
    requires x <= m * y && mm == m * m && yy == y * y && c * mm <= cut * two
    ensures c * (x * x) <= cut * (yy * two)
  {
    SquareOfBound(x, m, y);
    MulMono(x * x, mm * yy, c);
    MulMono(c * mm, cut * two, yy);
    MulAssoc(c, mm, yy);
    MulAssoc(cut, two, yy);
  }

  lemma SquareOfBound(x: nat, m: nat, y: nat)
    requires x <= m * y
    ensures x * x <= m * m * (y * y)
  {
    MulMono(x, m * y, x);
    MulMono(x, m * y, m * y);
    MulAssoc(m, y, m * y);
    MulAssoc(y, m, y);
    MulAssoc(m, m, y * y);
    MulAssoc(m, y, y);
  }

  lemma CutPowers()
    ensures Pow(2, 0) == 1 && Pow(2, 32) == 0x1_0000_0000 && Pow(2, 40) == 0x100_0000_0000
      && Pow(2, 42) == 0x400_0000_0000
  {
    assert Pow(2, 8) == 256 && Pow(2, 10) == 1024 && Pow(2, 2) == 4;
    Square(2, 8, 0x100);
    Square(2, 16, 0x1_0000);
    Square(2, 10, 0x400);
    Square(2, 20, 0x10_0000);
    PowAdd(2, 40, 2);
  }

  /** From 5^7 by way of 5^15 and 5^31; then by way of 5^124 and 5^248. */
  lemma FiveTo62()
    ensures AtMost(62, 1069105884038, 104)
  {
    assert AtMost(7, 78125, 0) by { assert Pow(5, 7) == 78125 && Pow(2, 0) == 1; }
    CutPowers();
    hide Pow, AtMost;
    SquareBound(7, 78125, 0, 1, 0, 1, 30517578125);
    SquareBound(15, 30517578125, 0, 1, 32, 0x1_0000_0000, 1084202172486);
    SquareBound(31, 1084202172486, 32, 0, 40, 0x100_0000_0000, 1069105884038);
  }

  lemma FiveTo497()
    ensures AtMost(497, 1098188737126, 1114)
  {
    FiveTo62();
    CutPowers();
    hide Pow, AtMost;
    SquareBound(62, 1069105884038, 104, 0, 40, 0x100_0000_0000, 1039540976567);
    SquareBound(124, 1039540976567, 248, 0, 40, 0x100_0000_0000, 982841303960);
    SquareBound(248, 982841303960, 536, 1, 42, 0x400_0000_0000, 1098188737126);
  }

  lemma FiveBelowTwo(n: nat, m: nat, e: nat, k: nat)
    requires AtMost(n, m, e) && m < Pow(2, k)
    ensures Pow(5, n) < Pow(2, k + e)
  {
    PowAdd(2, k, e);
    hide Pow;
    MulStrict(m, Pow(2, k), Pow(2, e));
  }

  /** 485 log 2 < 146 log 10. */
  lemma LogAbove()
    ensures Pow(2, 485) < Pow(10, 146)
  {
    hide Pow;
    FiveTo146();
    TwoTo339();
    PowMul(5, 2, 146);
    PowAdd(2, 339, 146);
    MulStrict(Pow(2, 339), Pow(5, 146), Pow(2, 146));
  }

  /** 497 log 10 < 1651 log 2. */
  lemma LogBelow()
    ensures Pow(10, 497) < Pow(2, 1651)
  {
    hide Pow;
    FiveTo497();
    CutPowers();
    FiveBelowTwo(497, 1098188737126, 1114, 40);
    PowMul(5, 2, 497);
    PowAdd(2, 1154, 497);
    MulStrict(Pow(5, 497), Pow(2, 1154), Pow(2, 497));
  }

  lemma {:induction false} PowBaseStrict(a: nat, b: nat, e: nat)
    requires a < b && e > 0
    ensures Pow(a, e) < Pow(b, e)
  {
    if e > 1 {
      PowBaseStrict(a, b, e - 1);
      MulMono(Pow(a, e - 1), Pow(b, e - 1), a);
      MulStrict(a, b, Pow(b, e - 1));
    }
  }

  lemma PowSwap(p: nat, i: nat, n: nat)
    ensures Pow(Pow(p, i), n) == Pow(Pow(p, n), i)
  {
    hide Pow;
    PowPow(p, i, n);
    PowPow(p, n, i);
  }

  lemma RootStrict(x: nat, y: nat, i: nat)
    requires Pow(x, i) < Pow(y, i)
    ensures x < y
  {
    hide Pow;
    if x >= y { PowBaseMono(y, x, i); }
  }

  lemma PowGrows(q: nat, j: nat, n: nat, k: nat, i: nat)
    requires q > 0 && n * j <= k * i
    ensures Pow(Pow(q, j), n) <= Pow(Pow(q, k), i)
  {
    hide Pow;
    PowPow(q, j, n);
    PowPow(q, k, i);
    PowMono(q, j * n, k * i);
  }

  /** From one comparison of powers to all comparisons of exponents on the same side. */
  lemma PowersCompare(p: nat, i: nat, q: nat, j: nat, n: nat, k: nat)
    requires q > 0 && Pow(p, i) < Pow(q, j) && n * j <= k * i && n > 0
    ensures Pow(p, n) < Pow(q, k)
  {
    hide Pow;
    PowBaseStrict(Pow(p, i), Pow(q, j), n);
    PowSwap(p, i, n);
    PowGrows(q, j, n, k, i);
    RootStrict(Pow(p, n), Pow(q, k), i);
  }

  /** 10^r <= 2^a. */
  ghost predicate TenAtMost(r: int, a: int) {
    Num(1, -a, 10, r) <= Den(-a, 10, r)
  }

  lemma TenBelowTwo(r: nat, a: nat)
    requires 1651 * r <= 497 * a
    ensures Pow(10, r) <= Pow(2, a) && (a > 0 ==> Pow(10, r) < Pow(2, a))
  {
    hide Pow;
    if r == 0 {
      if a > 0 { PowStrict(2, 0, a); }
      PowZero(10);
      PowZero(2);
    } else {
      LogBelow();
      PowersCompare(10, 497, 2, 1651, r, a);
    }
  }

  lemma TwoBelowTen(a: nat, r: nat)
    requires 146 * a <= 485 * r && r > 0
    ensures Pow(2, a) < Pow(10, r)
  {
    hide Pow;
    if a > 0 {
      LogAbove();
      PowersCompare(2, 485, 10, 146, a, r);
    } else {
      PowStrict(10, 0, r);
      PowZero(10);
      PowZero(2);
    }
  }

  /** The multiplier is between 497/1651 and 146/485, and no fraction with a denominator below
      1651 + 485 lies strictly between these two. */
  lemma Farey(a: int, r: int)
    requires 0 <= a < 2136 && r >= 0
    ensures r * 0x100_0000 <= a * 0x4d104d ==> 1651 * r <= 497 * a
    ensures r * 0x100_0000 >= a * 0x4d104d ==> 485 * r >= 146 * a
  {
    var x, y := 1651 * r - 497 * a, 146 * a - 485 * r;
    assert a == 485 * x + 1651 * y;
  }

  lemma Fractions(r: int, a: int)
    ensures Num(1, -a, 10, r) == Pow(2, Neg(a)) * Pow(10, Pos(r)) && Den(-a, 10, r) == Pow(2, Pos(a)) * Pow(10, Neg(r))
  {
  }

  /** mul_log2_radix is the floor of the logarithm: 10^r <= 2^a < 10^(r+1). */
  lemma MulLog2IsFloor(a: int)
    requires -2048 <= a <= 2047
    ensures TenAtMost(MulLog2(a), a) && !TenAtMost(MulLog2(a) + 1, a)
  {
    hide Pow;
    var r := MulLog2(a);
    PowZero(2);
    PowZero(10);
    Fractions(r, a);
    Fractions(r + 1, a);
    if a >= 0 {
      Farey(a, r);
      Farey(a, r + 1);
      TenBelowTwo(r, a);
      TwoBelowTen(a, r + 1);
    } else {
      Farey(-a, -r);
      Farey(-a, -r - 1);
      TwoBelowTen(-a, -r);
      TenBelowTwo(-r - 1, -a);
    }
  }
}
