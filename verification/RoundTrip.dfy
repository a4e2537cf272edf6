/** When a number close enough to a double is rounded back to that very double. */
module RoundTrip {
  import opened Powers
  import opened Rounding
  import opened ExactScaling
  import opened Doubles

  /** Low bits a subnormal value cannot have. */
  function Missing(e: int): (r: nat) {
    Pos(-1021 - e)
  }

  /** m * 2^(e-53) is a finite double that is not zero, its significand normalised. */
  ghost predicate IsDouble(m: nat, e: int) {
    Pow(2, 52) <= m < Pow(2, 53) && -1073 <= e <= 1024 && m % Pow(2, Missing(e)) == 0
  }

  lemma UnitPowers(q: int, j: nat)
    ensures Pow(2, Pos(-(q + j))) * Pow(2, Neg(-q)) * Pow(2, j) == Pow(2, Pos(-q)) * Pow(2, Neg(-(q + j)))
  {
    hide Pow;
    PowZero(2);
    if q >= 0 {
      PowAdd(2, q, j);
    } else if q + j <= 0 {
      PowAdd(2, -(q + j), j);
    } else {
      PowAdd(2, -q, q + j);
    }
  }

  lemma UnitsCross(a: nat, p: nat, s: nat, x: nat, y: nat, z: nat, u: nat, v: nat)
    requires x * y * z == u * v
    ensures a * x * p * (y * s * z) == a * u * p * (v * s)
  {
    calc {
      a * x * p * (y * s * z);
      { FourFactors(a, x, p, y, s, z); }
      a * p * s * (x * y * z);
      a * p * s * (u * v);
      { FourFactors(a, u, p, v, s, 1); }
      a * u * p * (v * s);
    }
  }

  lemma FourFactors(a: nat, x: nat, p: nat, y: nat, s: nat, z: nat)
    ensures a * x * p * (y * s * z) == a * p * s * (x * y * z)
  {
    Exchange(a, x, p, 1);
    Exchange(a * p, x, s, y * z);
    MulAssoc(x, y, z);
    MulAssoc(y, s, z);
    MulAssoc(s, y, z);
  }

  /** The exact value counted in larger units. */
  lemma RoundInUnits(mode: Mode, a: nat, q: int, j: nat, radix: nat, f: int)
    requires radix > 0
    ensures Den(-q, radix, f) * Pow(2, j) > 0
    ensures RoundScaled(mode, a, -(q + j), radix, f) == Round(mode, Num(a, -q, radix, f), Den(-q, radix, f) * Pow(2, j))
  {
    hide Pow;
    Product(Den(-q, radix, f), Pow(2, j));
    UnitPowers(q, j);
    UnitsCross(a, Pow(radix, Pos(f)), Pow(radix, Neg(f)), Pow(2, Pos(-(q + j))), Pow(2, Neg(-q)), Pow(2, j),
               Pow(2, Pos(-q)), Pow(2, Neg(-(q + j))));
    RoundCross(mode, Num(a, -(q + j), radix, f), Den(-(q + j), radix, f), Num(a, -q, radix, f),
               Den(-q, radix, f) * Pow(2, j));
  }

  /** Less than half a unit away, the nearest multiple is unique. */
  lemma NearestMultiple(n: nat, d: nat, q: nat)
    requires d > 0 && -(d as int) < 2 * (n - q * d) < d
    ensures Round(NearestEven, n, d) == q
  {
    if n >= q * d {
      DivUnique(n, d, q, n - q * d);
    } else {
      MulDistrib(d, q, -1);
      DivUnique(n, d, q - 1, n - (q - 1) * d);
    }
  }

  // ----- integers: n / d is the number in quarters of the last place of m -----

  lemma OneQuotient(n: nat, d: nat)
    requires d > 0 && d <= n < 2 * d
    ensures Round(TowardZero, n, d) == 1
  {
    DivUnique(n, d, 1, n - d);
  }

  /** n / d lies between h and 2h when m does, in units of h / 2^52. */
  lemma QuarterBounds(n: int, d: int, m: int, h: int)
    requires d > 0 && h > 0 && h <= m < 2 * h && (4 * m - 2) * d < n < (4 * m + 2) * d && (m == h ==> 4 * m * d <= n)
    ensures d * (4 * h) <= n < 2 * (d * (4 * h))
  {
    if m > h {
      MulMono(4 * h, 4 * m - 2, d);
    }
    MulMono(4 * m + 2, 8 * h, d);
    assert 8 * h * d == 2 * (d * (4 * h));
  }

  lemma QuarterBelow(n: int, d: int, h: int)
    requires d > 0 && h > 0 && (4 * h - 1) * d < n < 4 * h * d
    ensures d * (2 * h) <= n < 2 * (d * (2 * h))
  {
    MulMono(2 * h, 4 * h - 1, d);
    assert 2 * (d * (2 * h)) == 4 * h * d;
  }

  /** Rounding n / d to a multiple of 4 * c gives m / c. */
  lemma QuarterRounds(n: nat, d: nat, m: nat, c: nat, units: nat)
    requires d > 0 && c > 0 && m == units * c && (4 * m - 2) * d < n < (4 * m + 2) * d
    ensures d * (4 * c) > 0 && Round(NearestEven, n, d * (4 * c)) == units
  {
    MulMono(1, c, d);
    var w := d * (4 * c);
    assert units * w == 4 * m * d by { Exchange(units, c, 4, d); }
    assert (4 * m - 2) * d == 4 * m * d - 2 * d && (4 * m + 2) * d == 4 * m * d + 2 * d by {
      MulDistrib(d, 4 * m, -2);
      MulDistrib(d, 4 * m, 2);
    }
    NearestMultiple(n, w, units);
  }

  /** The same just below a power of two, where places are half as large. */
  lemma EighthRounds(n: nat, d: nat, h: nat, c: nat, units: nat)
    requires d > 0 && c > 0 && 2 * h == units * c && (4 * h - 1) * d < n < 4 * h * d
    ensures d * (2 * c) > 0 && Round(NearestEven, n, d * (2 * c)) == units
  {
    MulMono(1, c, d);
    var w := d * (2 * c);
    assert units * w == 4 * h * d by { Exchange(units, c, 2, d); }
    assert (4 * h - 1) * d == 4 * h * d - d by { MulDistrib(d, 4 * h, -1); }
    NearestMultiple(n, w, units);
  }

  // ----- the nearest double -----

  lemma PowShift(k: nat, c: nat)
    requires k >= c
    ensures Pow(2, k) == Pow(2, k - c) * Pow(2, c)
  {
    PowAdd(2, k - c, c);
  }

  /** Values within half a place of m * 2^(e-53), and not below it when m is a power of two. */
  lemma SameBinade(a: nat, radix: nat, f: int, m: nat, e: int, n: nat, d: nat)
    requires radix > 0 && IsDouble(m, e) && n == Num(a, -(e - 55), radix, f) && d == Den(-(e - 55), radix, f)
    requires (4 * m - 2) * d < n < (4 * m + 2) * d && (m == Pow(2, 52) ==> 4 * m * d <= n)
    ensures IsNearest(a, radix, f, m, e)
  {
    hide Pow;
    var c := Missing(e);
    PowShift(54, 2);
    PowShift(53, 1);
    SmallShifts();
    QuarterBounds(n, d, m, Pow(2, 52));
    RoundInUnits(TowardZero, a, e - 55, 54, radix, f);
    OneQuotient(n, d * Pow(2, 54));
    assert InBinade(a, radix, f, e);
    var units := m / Pow(2, c);
    DivParts(m, Pow(2, c));
    PowShift(2 + c, c);
    QuarterRounds(n, d, m, Pow(2, c), units);
    RoundInUnits(NearestEven, a, e - 55, 2 + c, radix, f);
    assert RoundScaled(NearestEven, a, -Unit(e), radix, f) == units;
    assert Assemble(e, units) == (m, e);
  }

  lemma SmallShifts()
    ensures Pow(2, 1) == 2 && Pow(2, 2) == 4
  {
  }

  /** Values less than a quarter of a place below a power of two. */
  lemma LowerBinade(a: nat, radix: nat, f: int, e: int, n: nat, d: nat)
    requires radix > 0 && -1073 <= e <= 1024 && n == Num(a, -(e - 55), radix, f) && d == Den(-(e - 55), radix, f)
    requires (4 * Pow(2, 52) - 1) * d < n < 4 * Pow(2, 52) * d
    ensures IsNearest(a, radix, f, Pow(2, 52), e)
  {
    hide Pow;
    var c, h := Pos(-1020 - e), Pow(2, 52);
    PowShift(53, 1);
    SmallShifts();
    QuarterBelow(n, d, h);
    RoundInUnits(TowardZero, a, e - 55, 53, radix, f);
    OneQuotient(n, d * Pow(2, 53));
    assert InBinade(a, radix, f, e - 1);
    PowShift(53, c);
    PowShift(1 + c, c);
    EighthRounds(n, d, h, Pow(2, c), Pow(2, 53 - c));
    RoundInUnits(NearestEven, a, e - 55, 1 + c, radix, f);
    assert RoundScaled(NearestEven, a, -Unit(e - 1), radix, f) == Pow(2, 53 - c);
    assert Assemble(e - 1, Pow(2, 53 - c)) == (h, e);
  }

  /** A number less than half a place from a double, or less than a quarter below a power of two,
      is rounded to that double. */
  lemma ConvertsBack(a: nat, radix: nat, f: int, m: nat, e: int, n: nat, d: nat)
    requires radix > 0 && IsDouble(m, e) && n == Num(a, -(e - 55), radix, f) && d == Den(-(e - 55), radix, f)
    requires (4 * m - 2) * d < n < (4 * m + 2) * d && (m == Pow(2, 52) ==> (4 * m - 1) * d < n)
    ensures IsNearest(a, radix, f, m, e)
  {
    hide Pow;
    if m == Pow(2, 52) && n < 4 * m * d {
      LowerBinade(a, radix, f, e, n, d);
    } else {
      SameBinade(a, radix, f, m, e, n, d);
    }
  }

  /** A number lies in one binade only. */
  lemma BinadeUnique(a: nat, radix: nat, f: int, x: int, y: int)
    requires radix > 0 && InBinade(a, radix, f, x) && InBinade(a, radix, f, y)
    ensures x == y
  {
    if x < y {
      NotHigher(a, radix, f, x, y);
    } else if y < x {
      NotHigher(a, radix, f, y, x);
    }
  }

  lemma NotHigher(a: nat, radix: nat, f: int, x: int, y: int)
    requires radix > 0 && InBinade(a, radix, f, x) && x < y
    ensures !InBinade(a, radix, f, y)
  {
    var n, d, j := Num(a, -(x - 1), radix, f), Den(-(x - 1), radix, f), y - x;
    RoundInUnits(TowardZero, a, x - 1, j, radix, f);
    assert n < 2 * d by { DivParts(n, d); }
    PowMono(2, 1, j);
    PowOne(2);
    MulMono(2, Pow(2, j), d);
    DivSmaller(n, d * Pow(2, j));
  }

  lemma PowOne(b: nat)
    ensures Pow(b, 1) == b
  {
  }

  /** The nearest double is one double. */
  lemma NearestUnique(a: nat, radix: nat, f: int, m: nat, e: int, n: nat, g: int)
    requires radix > 0 && IsNearest(a, radix, f, m, e) && IsNearest(a, radix, f, n, g)
    ensures m == n && e == g
  {
    hide Pow, RoundScaled;
    var x :| InBinade(a, radix, f, x) && (m, e) == Assemble(x, RoundScaled(NearestEven, a, -Unit(x), radix, f));
    var y :| InBinade(a, radix, f, y) && (n, g) == Assemble(y, RoundScaled(NearestEven, a, -Unit(y), radix, f));
    BinadeUnique(a, radix, f, x, y);
  }
}
