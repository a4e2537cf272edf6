/** The decimal mantissas tried by the free-format conversion, compared with the double they stand for. */
module DecimalDigits {
  import opened Powers
  import opened Rounding
  import opened ExactScaling
  import opened LogRadix
  import opened Doubles
  import opened RoundTrip

  /** Shifting an integer exponent by s, with its positive and negative parts kept apart. */
  lemma ExponentShift(b: nat, i: int, s: nat)
    ensures Pow(b, Pos(i + s)) * Pow(b, Neg(i)) == Pow(b, s) * Pow(b, Neg(i + s)) * Pow(b, Pos(i))
  {
    hide Pow;
    PowZero(b);
    if i >= 0 {
      PowAdd(b, s, i);
    } else if i + s <= 0 {
      PowAdd(b, s, -(i + s));
    } else {
      PowAdd(b, i + s, -i);
    }
  }

  lemma Substitute(m: int, p: int, q: int, s: int, t: int)
    requires p == q && s == t
    ensures m * p * s == m * q * t
  {
  }

  lemma NumParts(m: nat, e: int, f: int)
    ensures Num(m, e, 10, f) == m * Pow(2, Pos(e)) * Pow(10, Pos(f))
  {
  }

  lemma DenParts(e: int, f: int)
    ensures Den(e, 10, f) == Pow(2, Neg(e)) * Pow(10, Neg(f))
  {
  }

  /** x = m * pk * tf, y = nk * nf, n = na * tr and d = pa * nr as in Magnitude. */
  lemma MagnitudeFactors(x: nat, y: nat, n: nat, d: nat, m: nat, pk: nat, nk: nat, pa: nat, na: nat, c: nat,
                         tf: nat, nf: nat, tr: nat, nr: nat, t: nat)
    requires pa * nk == c * na * pk && tf * tr == t * nf * nr
    requires x == m * pk * tf && y == nk * nf && n == 1 * na * tr && d == pa * nr
    ensures x * c * n == m * t * d * y
  {
    assert x * c * n == m * (c * na * pk) * (tf * tr);
    Substitute(m, c * na * pk, pa * nk, tf * tr, t * nf * nr);
    assert m * (pa * nk) * (t * nf * nr) == m * t * d * y;
  }

  /** m * 2^(a-52) * 10^(s-r) against 10^s * 2^a / 10^r. */
  lemma Magnitude(m: nat, a: int, r: int, s: nat)
    ensures Num(m, a - 52, 10, s - r) * Pow(2, 52) * Num(1, -a, 10, r)
         == m * Pow(10, s) * Den(-a, 10, r) * Den(a - 52, 10, s - r)
  {
    hide Pow, Num, Den;
    ExponentShift(2, a - 52, 52);
    ExponentShift(10, -r, s);
    NumParts(m, a - 52, s - r);
    DenParts(a - 52, s - r);
    NumParts(1, -a, r);
    DenParts(-a, r);
    MagnitudeFactors(Num(m, a - 52, 10, s - r), Den(a - 52, 10, s - r), Num(1, -a, 10, r), Den(-a, 10, r), m,
                     Pow(2, Pos(a - 52)), Pow(2, Neg(a - 52)), Pow(2, Pos(a)), Pow(2, Neg(a)), Pow(2, 52),
                     Pow(10, Pos(s - r)), Pow(10, Neg(s - r)), Pow(10, Pos(r)), Pow(10, Neg(r)), Pow(10, s));
  }

  // ----- the size of the mantissa -----

  lemma RatioAtLeast(x: nat, u: nat, v: nat, w: nat)
    requires x * u == v * w && 0 < u <= v
    ensures w <= x
  {
    MulMono(u, v, w);
    MulCancel(w, x, u);
  }

  lemma RatioBelow(x: nat, u: nat, v: nat, w: nat)
    requires x * u == v * w && 0 < u && v < 2 * u && w > 0
    ensures x < 2 * w
  {
    MulStrict(v, 2 * u, w);
    MulCancelStrict(x, 2 * w, u);
  }

  lemma AtLeastFactors(x: nat, c: nat, n: nat, m: nat, t: nat, d: nat, y: nat)
    requires x * c * n == m * t * d * y && c > 0 && n > 0 && c <= m && n <= d
    ensures t * y <= x
  {
    MulMono(c, m, d);
    MulMono(n, d, c);
    Product(c, n);
    assert m * t * d * y == (m * d) * (t * y);
    RatioAtLeast(x, c * n, m * d, t * y);
  }

  lemma BelowFactors(x: nat, c: nat, n: nat, m: nat, t: nat, d: nat, y: nat)
    requires x * c * n == m * t * d * y && c > 0 && n > 0 && m < 2 * c && d < n && t > 0 && y > 0
    ensures x < 2 * (t * y)
  {
    MulMono(m, 2 * c, d);
    MulStrict(d, n, 2 * c);
    Product(c, n);
    Product(t, y);
    assert m * t * d * y == (m * d) * (t * y);
    RatioBelow(x, c * n, m * d, t * y);
  }

  /** At least 10^s when 10^r <= 2^a. */
  lemma ScaledAtLeast(m: nat, a: int, r: int, s: nat)
    requires Pow(2, 52) <= m && TenAtMost(r, a)
    ensures Pow(10, s) * Den(a - 52, 10, s - r) <= Num(m, a - 52, 10, s - r)
  {
    hide Pow, Den;
    Magnitude(m, a, r, s);
    NumPositive(-a, r);
    AtLeastFactors(Num(m, a - 52, 10, s - r), Pow(2, 52), Num(1, -a, 10, r), m, Pow(10, s), Den(-a, 10, r),
                   Den(a - 52, 10, s - r));
  }

  /** Less than 2 * 10^s when 2^a < 10^r. */
  lemma ScaledBelow(m: nat, a: int, r: int, s: nat)
    requires m < Pow(2, 53) && !TenAtMost(r, a)
    ensures Num(m, a - 52, 10, s - r) < 2 * (Pow(10, s) * Den(a - 52, 10, s - r))
  {
    assert Pow(2, 53) == 2 * Pow(2, 52);
    hide Pow, Den;
    Magnitude(m, a, r, s);
    NumPositive(-a, r);
    BelowFactors(Num(m, a - 52, 10, s - r), Pow(2, 52), Num(1, -a, 10, r), m, Pow(10, s), Den(-a, 10, r),
                 Den(a - 52, 10, s - r));
  }

  lemma NumPositive(e: int, f: int)
    ensures Num(1, e, 10, f) > 0
  {
    Product(Pow(2, Pos(e)), Pow(10, Pos(f)));
  }

  // ----- the distance between the digits and the double -----

  /** x * g = 4 * t * m * y * d for the fractions of Closeness. */
  lemma CloseFactors(x: nat, y: nat, g: nat, d: nat, m: nat, pk: nat, nk: nat, pq: nat, nq: nat,
                     tf: nat, nf: nat, tg: nat, ng: nat, t: nat)
    requires pk * pq == 4 * nk * nq && tf * tg == t * nf * ng
    requires x == m * pk * tf && y == nk * nf && g == 1 * pq * tg && d == nq * ng
    ensures x * g == 4 * t * m * y * d
  {
    assert x * g == m * (pk * pq) * (tf * tg);
    Substitute(m, pk * pq, 4 * nk * nq, tf * tg, t * nf * ng);
    assert m * (4 * nk * nq) * (t * nf * ng) == 4 * t * m * y * d;
  }

  /** m * 2^k * 10^(f+s), in quarters of 2^k, over 10^f: 4 * 10^s * m. */
  lemma Quarters(m: nat, k: int, f: int, s: nat)
    ensures Num(m, k, 10, f + s) * Num(1, 2 - k, 10, -f) == 4 * Pow(10, s) * m * Den(k, 10, f + s) * Den(2 - k, 10, -f)
  {
    assert Pow(2, 2) == 4;
    hide Pow, Num, Den;
    ExponentShift(2, k - 2, 2);
    ExponentShift(10, f, s);
    NumParts(m, k, f + s);
    DenParts(k, f + s);
    NumParts(1, 2 - k, -f);
    DenParts(2 - k, -f);
    CloseFactors(Num(m, k, 10, f + s), Den(k, 10, f + s), Num(1, 2 - k, 10, -f), Den(2 - k, 10, -f), m,
                 Pow(2, Pos(k)), Pow(2, Neg(k)), Pow(2, Pos(2 - k)), Pow(2, Neg(2 - k)),
                 Pow(10, Pos(f + s)), Pow(10, Neg(f + s)), Pow(10, Pos(-f)), Pow(10, Neg(-f)), Pow(10, s));
  }

  lemma GrainFactors(g: nat, d: nat, n: nat, b: nat, p: nat, q: nat, na: nat, pa: nat, c: nat,
                     tp: nat, tq: nat, tr: nat, nr: nat, t: nat)
    requires p * pa == c * q * na && tr * tq == t * nr * tp
    requires g == 1 * p * tp && d == q * tq && n == 1 * na * tr && b == pa * nr
    ensures (g * t) * b == (c * d) * n
  {
    assert g * t * b == 1 * (p * pa) * (t * nr * tp);
    Substitute(1, p * pa, c * q * na, t * nr * tp, tr * tq);
    assert 1 * (c * q * na) * (tr * tq) == c * d * n;
  }

  /** One unit of the seventeenth digit, in quarters of the last place: below 2^54 / 10^16. */
  lemma Grain(a: int, r: int)
    requires TenAtMost(r, a)
    ensures Num(1, 54 - a, 10, r - 16) * Pow(10, 16) <= Pow(2, 54) * Den(54 - a, 10, r - 16)
  {
    hide Pow, Num, Den;
    ExponentShift(2, -a, 54);
    ExponentShift(10, r - 16, 16);
    NumParts(1, 54 - a, r - 16);
    DenParts(54 - a, r - 16);
    NumParts(1, -a, r);
    DenParts(-a, r);
    var g, d, n, b := Num(1, 54 - a, 10, r - 16), Den(54 - a, 10, r - 16), Num(1, -a, 10, r), Den(-a, 10, r);
    GrainFactors(g, d, n, b, Pow(2, Pos(54 - a)), Pow(2, Neg(54 - a)), Pow(2, Pos(-a)), Pow(2, Neg(-a)), Pow(2, 54),
                 Pow(10, Pos(r - 16)), Pow(10, Neg(r - 16)), Pow(10, Pos(r)), Pow(10, Neg(r)), Pow(10, 16));
    GrainRatio(g * Pow(10, 16), b, Pow(2, 54) * d, n);
  }

  lemma GrainRatio(x: nat, b: nat, y: nat, n: nat)
    requires x * b == y * n && n <= b && b > 0
    ensures x <= y
  {
    MulMono(n, b, y);
    MulCancel(x, y, b);
  }

  /** Rounding x / y to `mant` moves mant * g / d by at most half of g / d. */
  lemma Moved(x: nat, y: nat, mant: nat, g: nat, m: nat, d: nat)
    requires y > 0 && x * g == 4 * m * y * d && -(y as int) <= 2 * (x - mant * y) <= y
    ensures -(g as int) <= 2 * (mant * g - 4 * m * d) <= g
  {
    var z, w := 2 * (x - mant * y), 2 * (mant * g - 4 * m * d);
    MovedScaled(x, y, mant, g, m, d, z, w);
    Between(z, w, y, g);
  }

  lemma MovedScaled(x: nat, y: nat, mant: nat, g: nat, m: nat, d: nat, z: int, w: int)
    requires x * g == 4 * m * y * d && z == 2 * (x - mant * y) && w == 2 * (mant * g - 4 * m * d)
    ensures z * g == -w * y
  {
    assert z * g == 2 * (x * g) - 2 * (mant * y * g) by { MulDistrib(g, 2 * x, -2 * (mant * y)); }
    assert w * y == 2 * (mant * y * g) - 2 * (4 * m * y * d) by {
      MulDistrib(y, 2 * (mant * g), -2 * (4 * m * d));
    }
  }

  lemma Between(z: int, w: int, y: nat, g: nat)
    requires y > 0 && z * g == -w * y && -(y as int) <= z <= y
    ensures -(g as int) <= w <= g
  {
    MulMono(z, y, g);
    MulMono(-(y as int), z, g);
    MulCancel(-w, g, y);
    MulCancel(-(g as int), -w, y);
  }

  // ----- seventeen digits are enough -----

  /** The exponent tried first: 10^(E-1) <= 2^(e-1) < 10^E. */
  function FirstExponent(e: int): (r: int) {
    1 + MulLog2(e - 1)
  }

  /** m * 2^(e-53) written with p digits before the point of 0.d1 d2 ... * 10^exponent. */
  function Mantissa(m: nat, e: int, p: nat, exponent: int): (r: nat) {
    RoundScaled(NearestEven, m, e - 53, 10, p - exponent)
  }

  lemma NumScales(mant: nat, i: int, f: int)
    ensures Num(mant, i, 10, f) == mant * Num(1, i, 10, f)
  {
    NumParts(mant, i, f);
    NumParts(1, i, f);
    MulAssoc(mant, Pow(2, Pos(i)), Pow(10, Pos(f)));
  }

  lemma Window(n: int, g: int, m: int, d: int)
    requires d > 0 && -g <= 2 * (n - 4 * m * d) <= g
    ensures g < 2 * d ==> (4 * m - 1) * d < n < (4 * m + 1) * d
    ensures g < 4 * d ==> (4 * m - 2) * d < n < (4 * m + 2) * d
    ensures g < 2 * d ==> (4 * m - 2) * d < n < (4 * m + 2) * d
  {
    MulDistrib(d, 4 * m, 1);
    MulDistrib(d, 4 * m, -1);
    MulDistrib(d, 4 * m, 2);
    MulDistrib(d, 4 * m, -2);
  }

  /** The decimal mantissa is near the double: within half a unit of its last digit. */
  lemma Near(m: nat, e: int, p: nat, exponent: int, g: nat, d: nat)
    requires g == Num(1, 55 - e, 10, exponent - p) && d == Den(55 - e, 10, exponent - p)
    ensures -(g as int) <= 2 * (Mantissa(m, e, p, exponent) * g - 4 * m * d) <= g
  {
    var x, y := Num(m, e - 53, 10, p - exponent), Den(e - 53, 10, p - exponent);
    PowZero(10);
    Quarters(m, e - 53, p - exponent, 0);
    RoundClose(NearestEven, x, y);
    Moved(x, y, Mantissa(m, e, p, exponent), g, m, d);
  }

  lemma Constants()
    ensures Pow(10, 16) == 10000000000000000 && Pow(10, 17) == 100000000000000000
    ensures Pow(2, 52) == 0x10_0000_0000_0000 && Pow(2, 53) == 0x20_0000_0000_0000 && Pow(2, 54) == 0x40_0000_0000_0000
  {
    Pow53();
    PowTen();
    assert Pow(2, 54) == 2 * Pow(2, 53) && Pow(2, 53) == 2 * Pow(2, 52);
  }

  lemma PowTen()
    ensures Pow(10, 16) == 10000000000000000 && Pow(10, 17) == 100000000000000000
  {
    assert Pow(10, 8) == 100000000;
    PowAdd(10, 8, 8);
    assert Pow(10, 17) == 10 * Pow(10, 16);
  }

  /** Digits whose last unit is below half a place (a whole place above a power of two) convert back. */
  lemma FineDigits(m: nat, e: int, p: nat, exponent: int, g: nat, d: nat)
    requires IsDouble(m, e) && g == Num(1, 55 - e, 10, exponent - p) && d == Den(55 - e, 10, exponent - p)
    requires g < 4 * d && (m == Pow(2, 52) ==> g < 2 * d)
    ensures IsNearest(Mantissa(m, e, p, exponent), 10, exponent - p, m, e)
  {
    hide Pow, Num, Den, RoundScaled;
    var mant := Mantissa(m, e, p, exponent);
    Near(m, e, p, exponent, g, d);
    Window(mant * g, g, m, d);
    NumScales(mant, 55 - e, exponent - p);
    ConvertsBack(mant, 10, exponent - p, m, e, mant * g, d);
  }

  lemma GrainIsFine(g: nat, d: nat)
    requires d > 0 && g * 10000000000000000 <= 0x40_0000_0000_0000 * d
    ensures g < 2 * d
  {
  }

  /** Seventeen digits at the first exponent convert back. */
  lemma FirstTry(m: nat, e: int)
    requires IsDouble(m, e)
    ensures IsNearest(Mantissa(m, e, 17, FirstExponent(e)), 10, FirstExponent(e) - 17, m, e)
  {
    hide Pow, Num, Den;
    var r := MulLog2(e - 1);
    Constants();
    MulLog2IsFloor(e - 1);
    Grain(e - 1, r);
    GrainIsFine(Num(1, 55 - e, 10, r - 16), Den(55 - e, 10, r - 16));
    FineDigits(m, e, 17, r + 1, Num(1, 55 - e, 10, r - 16), Den(55 - e, 10, r - 16));
  }

  /** 2 * 10^17 - 1 halves of the digit left out, against forty quarters of m. */
  lemma CoarseGrain(x: nat, y: nat, g: nat, m: nat, d: nat)
    requires y > 0 && x * g == 4 * 10 * m * y * d && 199999999999999999 * y <= 2 * x
    ensures 199999999999999999 * g <= 80 * (m * d)
  {
    MulMono(199999999999999999 * y, 2 * x, g);
    assert 2 * x * g == 80 * (m * d) * y;
    assert 199999999999999999 * y * g == 199999999999999999 * g * y;
    MulCancel(199999999999999999 * g, 80 * (m * d), y);
  }

  lemma CoarseIsFine(g: nat, m: nat, d: nat)
    requires d > 0 && 199999999999999999 * g <= 80 * (m * d) && m < 0x20_0000_0000_0000
    ensures g < 4 * d && (m == 0x10_0000_0000_0000 ==> g < 2 * d)
  {
    MulMono(m, 0x20_0000_0000_0000, d);
  }

  lemma RoundsHigh(x: nat, y: nat, t: nat)
    requires y > 0 && t <= Round(NearestEven, x, y)
    ensures (2 * t - 1) * y <= 2 * x
  {
    hide Round;
    var q: int, u: int := Round(NearestEven, x, y), t;
    RoundClose(NearestEven, x, y);
    MulMono(u, q, y);
    MulDistrib(y, 2 * u, -1);
  }

  /** When the first exponent gives eighteen digits, seventeen at the next one convert back. */
  lemma SecondTry(m: nat, e: int)
    requires IsDouble(m, e) && Mantissa(m, e, 17, FirstExponent(e)) >= Pow(10, 17)
    ensures IsNearest(Mantissa(m, e, 17, FirstExponent(e) + 1), 10, FirstExponent(e) + 1 - 17, m, e)
  {
    hide Pow, Num, Den;
    var first := FirstExponent(e);
    var x, y := Num(m, e - 53, 10, 17 - first), Den(e - 53, 10, 17 - first);
    var g, d := Num(1, 55 - e, 10, first - 16), Den(55 - e, 10, first - 16);
    Constants();
    RoundsHigh(x, y, 100000000000000000);
    PowOne(10);
    Quarters(m, e - 53, 16 - first, 1);
    CoarseGrain(x, y, g, m, d);
    CoarseIsFine(g, m, d);
    FineDigits(m, e, 17, first + 1, g, d);
  }

  // ----- the number of digits -----

  lemma RoundAtLeast(x: nat, y: nat, t: nat)
    requires y > 0 && t > 0 && (2 * t - 1) * y < 2 * x
    ensures t <= Round(NearestEven, x, y)
  {
    RoundClose(NearestEven, x, y);
    var q := Round(NearestEven, x, y);
    if q < t {
      MulMono(q, t - 1, y);
      MulDistrib(y, 2 * t, -1);
      MulDistrib(y, t, -1);
    }
  }

  lemma {:induction false} PowTenStep(p: nat)
    requires p > 0
    ensures Pow(10, p) == 10 * Pow(10, p - 1) && Pow(10, p - 1) > 0
  {
  }

  /** At the first exponent there are at least p digits. */
  lemma FirstHasDigits(m: nat, e: int, p: nat)
    requires IsDouble(m, e) && p > 0
    ensures Pow(10, p - 1) <= Mantissa(m, e, p, FirstExponent(e))
  {
    hide Pow, Num, Den;
    var r, t := MulLog2(e - 1), Pow(10, p - 1);
    var x, y := Num(m, e - 53, 10, p - 1 - r), Den(e - 53, 10, p - 1 - r);
    PowTenStep(p);
    MulLog2IsFloor(e - 1);
    ScaledAtLeast(m, e - 1, r, p - 1);
    MulDistrib(y, 2 * t, -1);
    MulAssoc(2, t, y);
    RoundAtLeast(x, y, t);
  }

  /** At the next exponent there are at most p. */
  lemma NextFits(m: nat, e: int, p: nat)
    requires IsDouble(m, e) && p > 0
    ensures Mantissa(m, e, p, FirstExponent(e) + 1) < Pow(10, p)
  {
    hide Pow, Num, Den;
    var r, t := MulLog2(e - 1), Pow(10, p - 1);
    var x, y := Num(m, e - 53, 10, p - 2 - r), Den(e - 53, 10, p - 2 - r);
    PowTenStep(p);
    MulLog2IsFloor(e - 1);
    ScaledBelow(m, e - 1, r + 1, p - 1);
    MulAssoc(2, t, y);
    RoundAtMost(NearestEven, x, y, 2 * t);
  }

  lemma TenthFactors(x: nat, y: nat, u: nat, v: nat, m: nat, pk: nat, nk: nat, tf: nat, nf: nat, tg: nat, ng: nat)
    requires tg * nf == 10 * ng * tf
    requires x == m * pk * tf && y == nk * nf && u == m * pk * tg && v == nk * ng
    ensures x * 10 * v == u * y
  {
    assert u * y == m * (pk * nk) * (tg * nf);
    Substitute(m, pk * nk, pk * nk, tg * nf, 10 * ng * tf);
    assert m * (pk * nk) * (10 * ng * tf) == x * 10 * v;
  }

  /** One decimal place less divides by ten. */
  lemma Tenth(m: nat, k: int, f: int)
    ensures Num(m, k, 10, f) * 10 * Den(k, 10, f + 1) == Num(m, k, 10, f + 1) * Den(k, 10, f)
  {
    PowOne(10);
    hide Pow, Num, Den;
    ExponentShift(10, f, 1);
    NumParts(m, k, f);
    DenParts(k, f);
    NumParts(m, k, f + 1);
    DenParts(k, f + 1);
    TenthFactors(Num(m, k, 10, f), Den(k, 10, f), Num(m, k, 10, f + 1), Den(k, 10, f + 1), m, Pow(2, Pos(k)),
                 Pow(2, Neg(k)), Pow(10, Pos(f)), Pow(10, Neg(f)), Pow(10, Pos(f + 1)), Pow(10, Neg(f + 1)));
  }

  lemma TenthRounds(x: nat, y: nat, u: nat, v: nat, t: nat)
    requires y > 0 && v > 0 && t > 0 && x * 10 * v == u * y && (2 * (10 * t) - 1) * v <= 2 * u
    ensures (2 * t - 1) * y < 2 * x
  {
    var c := 20 * t - 1;
    MulMono(c * v, 2 * u, y);
    assert 2 * u * y == 20 * x * v;
    assert c * v * y == c * y * v;
    MulCancel(c * y, 20 * x, v);
    assert c * y == 10 * ((2 * t - 1) * y) + 9 * y
      by { MulDistrib(y, 10 * (2 * t - 1), 9); MulAssoc(10, 2 * t - 1, y); }
  }

  /** When the first exponent gave one digit too many, the next one gives exactly p. */
  lemma NextHasDigits(m: nat, e: int, p: nat)
    requires IsDouble(m, e) && p > 0 && Pow(10, p) <= Mantissa(m, e, p, FirstExponent(e))
    ensures Pow(10, p - 1) <= Mantissa(m, e, p, FirstExponent(e) + 1)
  {
    hide Pow, Num, Den;
    var f, t := p - FirstExponent(e) - 1, Pow(10, p - 1);
    var x, y, u, v := Num(m, e - 53, 10, f), Den(e - 53, 10, f), Num(m, e - 53, 10, f + 1), Den(e - 53, 10, f + 1);
    PowTenStep(p);
    RoundsHigh(u, v, 10 * t);
    Tenth(m, e - 53, f);
    TenthRounds(x, y, u, v, t);
    RoundAtLeast(x, y, t);
  }
}
