/** What is nearest to a positive value is zero, a finite double, or out of range: nothing lies between. */
module NearestDoubles {
  import opened Powers
  import opened Rounding
  import opened ExactScaling
  import opened Doubles
  import opened RoundTrip

  lemma QuotientFrom(n: nat, d: nat, q: nat)
    requires d > 0 && q * d <= n
    ensures q <= n / d
  {
    DivParts(n, d);
    if n / d < q { MulMono(n / d + 1, q, d); }
  }

  /** Counted in units of 2^q, a value of the binade below 2^x lies between two powers of two. */
  lemma UnitsRange(a: nat, radix: nat, f: int, x: int, q: int, j: nat)
    requires radix > 0 && InBinade(a, radix, f, x) && j == x - 1 - q
    ensures Pow(2, j) <= RoundScaled(NearestEven, a, -q, radix, f) <= Pow(2, j + 1)
  {
    hide Num, Den, Pow;
    var n, d, p := Num(a, -q, radix, f), Den(-q, radix, f), Pow(2, j);
    RoundInUnits(TowardZero, a, q, j, radix, f);
    DivParts(n, d * p);
    QuotientFrom(n, d, p);
    assert Pow(2, j + 1) == 2 * p by { PowAdd(2, 1, j); PowOne(2); }
    assert n < 2 * p * d by { MulAssoc(2, p, d); }
    RoundAtMost(NearestEven, n, d, 2 * p);
  }

  /** In units that are more than twice the value it rounds to zero, in units of twice its binade to one at most. */
  lemma BelowUnit(a: nat, radix: nat, f: int, x: int, q: int, i: nat)
    requires radix > 0 && InBinade(a, radix, f, x) && i == q - (x - 1) && i > 0
    ensures RoundScaled(NearestEven, a, -q, radix, f) <= 1
    ensures i > 1 ==> RoundScaled(NearestEven, a, -q, radix, f) == 0
  {
    hide Num, Den, Pow;
    var n, d, p := Num(a, 1 - x, radix, f), Den(1 - x, radix, f), Pow(2, i);
    RoundInUnits(NearestEven, a, x - 1, i, radix, f);
    DivParts(n, d);
    assert 2 <= p && (i > 1 ==> 4 <= p) by { TwoAndFour(); PowMono(2, if i > 1 then 2 else 1, i); }
    MulMono(if i > 1 then 4 else 2, p, d);
    RoundAtMost(NearestEven, n, d * p, 1);
    DivSmaller(n, d * p);
  }

  lemma TwoAndFour()
    ensures Pow(2, 1) == 2 && Pow(2, 2) == 4
  {
  }

  lemma PowerDivides(k: nat, n: nat)
    requires k <= n
    ensures Pow(2, n) % Pow(2, k) == 0
  {
    PowAdd(2, n - k, k);
    DivUnique(Pow(2, n), Pow(2, k), Pow(2, n - k), 0);
  }

  /** As many units as the binade holds make a significand of 53 bits, all its bits above 2^-1074. */
  lemma Assembled(x: int, j: nat, units: nat)
    requires j == x - 1 - Unit(x) && Pow(2, j) <= units <= Pow(2, j + 1)
    ensures var (m, e) := Assemble(x, units);
            Pow(2, 52) <= m < Pow(2, 53) && x <= e <= x + 1 && m % Pow(2, Missing(e)) == 0
  {
    hide Pow;
    var s := 52 - j;
    assert s == Unit(x) - (x - 53) == Missing(x);
    PowAdd(2, j, s);
    PowAdd(2, j + 1, s);
    Pow53();
    PowAdd(2, 1, 52);
    PowOne(2);
    MulMono(Pow(2, j), units, Pow(2, s));
    MulMono(units, Pow(2, j + 1), Pow(2, s));
    DivUnique(units * Pow(2, s), Pow(2, s), units, 0);
    PowerDivides(Missing(x + 1), 52);
  }

  /** The lowest value that does not round to zero. */
  lemma AssembledLast(units: nat)
    requires units <= 1
    ensures var (m, e) := Assemble(-1074, units); m > 0 ==> m == Pow(2, 52) && e == -1073
    ensures Pow(2, 52) % Pow(2, Missing(-1073)) == 0 && Pow(2, 52) < Pow(2, 53)
  {
    hide Pow;
    Pow53();
    PowAdd(2, 1, 52);
    PowOne(2);
    PowerDivides(52, 52);
  }

  /** A nearest value that is not zero has a significand of 53 bits and an exponent that js_atod does not
      take for an underflow; it is a finite double unless it is out of range. */
  lemma NearestIsDouble(a: nat, radix: nat, f: int, m: nat, e: int)
    requires radix > 0 && IsNearest(a, radix, f, m, e)
    ensures m > 0 ==> Pow(2, 52) <= m < Pow(2, 53) && e >= -1073
    ensures m > 0 && e <= 1024 ==> IsDouble(m, e)
  {
    hide Pow, InBinade, RoundScaled, Assemble;
    var x :| InBinade(a, radix, f, x) && (m, e) == Assemble(x, RoundScaled(NearestEven, a, -Unit(x), radix, f));
    var units := RoundScaled(NearestEven, a, -Unit(x), radix, f);
    if x >= -1073 {
      UnitsRange(a, radix, f, x, Unit(x), x - 1 - Unit(x));
      Assembled(x, x - 1 - Unit(x), units);
    } else {
      BelowUnit(a, radix, f, x, -1074, -1074 - (x - 1));
      if x == -1074 {
        AssembledLast(units);
      } else {
        NothingAssembled(x);
      }
    }
  }

  lemma NothingAssembled(x: int)
    ensures Assemble(x, 0) == (0, x)
  {
  }

  /** Values below 2^-1075 round to zero. */
  lemma TinyIsZero(a: nat, radix: nat, f: int, x: int, m: nat, e: int)
    requires radix > 0 && IsNearest(a, radix, f, m, e) && InBinade(a, radix, f, x) && x < -1074
    ensures m == 0
  {
    hide Pow, InBinade, RoundScaled, Assemble;
    var y :| InBinade(a, radix, f, y) && (m, e) == Assemble(y, RoundScaled(NearestEven, a, -Unit(y), radix, f));
    BinadeUnique(a, radix, f, x, y);
    BelowUnit(a, radix, f, x, -1074, -1074 - (x - 1));
    NothingAssembled(x);
  }
}
