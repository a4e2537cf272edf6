/** Every positive value has a nearest double, and the range checks of js_atod agree with it. */
module DecimalBounds {
  import opened Powers
  import opened Rounding
  import opened ExactScaling
  import opened Doubles
  import opened DoubleBits
  import NearestDoubles
  import RoundTrip
  import LogRadix

  // ----- existence -----

  /** Counting in units twice as large halves the count. */
  lemma HalfStep(a: nat, radix: nat, f: int, k: int)
    requires radix > 0
    ensures RoundScaled(TowardZero, a, k - 1, radix, f) == RoundScaled(TowardZero, a, k, radix, f) / 2
  {
    hide Num, Den, Pow;
    RoundTrip.RoundInUnits(TowardZero, a, -k, 1, radix, f);
    RoundTrip.PowOne(2);
    DivTwice(Num(a, k, radix, f), Den(k, radix, f), 2);
  }

  lemma {:induction false} Descend(a: nat, radix: nat, f: int, k: int) returns (x: int)
    requires radix > 0 && RoundScaled(TowardZero, a, k, radix, f) > 0
    ensures InBinade(a, radix, f, x)
    decreases RoundScaled(TowardZero, a, k, radix, f)
  {
    if RoundScaled(TowardZero, a, k, radix, f) == 1 {
      x := 1 - k;
    } else {
      HalfStep(a, radix, f, k);
      x := Descend(a, radix, f, k - 1);
    }
  }

  lemma {:induction false} BelowPower(n: nat)
    ensures n < Pow(2, n)
  {
    if n > 0 { BelowPower(n - 1); }
  }

  /** Counted in small enough units the value is not zero. */
  lemma FineUnits(a: nat, radix: nat, f: int, k: nat)
    requires a > 0 && radix > 0 && k == Pow(radix, Neg(f))
    ensures RoundScaled(TowardZero, a, k, radix, f) > 0
  {
    var n, d := Num(a, k, radix, f), Den(k, radix, f);
    BelowPower(k);
    PowZero(2);
    assert d == k;
    hide Pow, Num, Den;
    assert n >= Pow(2, k) by { Grows(a, Pow(2, k), Pow(radix, Pos(f)), n) by { NumIs(a, k, radix, f); } }
    DivParts(n, d);
  }

  lemma NumIs(a: nat, k: int, radix: nat, f: int)
    ensures Num(a, k, radix, f) == a * Pow(2, Pos(k)) * Pow(radix, Pos(f))
  {
  }

  lemma Grows(a: nat, p: nat, r: nat, n: nat)
    requires a > 0 && r > 0 && n == a * p * r
    ensures p <= n
  {
    MulGrows(p, a);
    MulGrows(a * p, r);
  }

  /** Every positive value has a nearest double; RoundTrip.NearestUnique says it has only one. */
  lemma NearestExists(a: nat, radix: nat, f: int) returns (m: nat, e: int)
    requires a > 0 && radix > 0
    ensures IsNearest(a, radix, f, m, e)
  {
    var k := Pow(radix, Neg(f));
    FineUnits(a, radix, f, k);
    hide RoundScaled, Pow;
    var x := Descend(a, radix, f, k);
    var r := Assemble(x, RoundScaled(NearestEven, a, -Unit(x), radix, f));
    m, e := r.0, r.1;
  }

  // ----- the checks -----

  lemma BinadeParts(a: nat, f: int, x: int)
    requires InBinade(a, 10, f, x)
    ensures Den(1 - x, 10, f) <= Num(a, 1 - x, 10, f) < 2 * Den(1 - x, 10, f)
  {
    hide Num, Den;
    DivParts(Num(a, 1 - x, 10, f), Den(1 - x, 10, f));
  }

  lemma ShrinkLeft(a: nat, p: nat, r: nat, q: nat, s: nat, bound: nat)
    requires p > 0 && a * p * r < 2 * (q * s) && 2 * q <= bound
    ensures a * r < bound * s
  {
    MulGrows(a * r, p);
    assert a * p * r == a * r * p by { MulAssoc(a, p, r); MulAssoc(a, r, p); }
    MulMono(2 * q, bound, s);
    MulAssoc(2, q, s);
  }

  /** A value whose binade ends at 2^1024 or before is below 2^1024. */
  lemma LowBinade(a: nat, f: int, x: int)
    requires InBinade(a, 10, f, x) && x <= 1024
    ensures a * Pow(10, Pos(f)) < Pow(2, 1024) * Pow(10, Neg(f))
  {
    BinadeParts(a, f, x);
    PowMono(2, Neg(1 - x), 1023);
    PowStep(2, 1023);
    NumIs(a, 1 - x, 10, f);
    DenIs(1 - x, f);
    hide Num, Den, Pow, InBinade;
    ShrinkLeft(a, Pow(2, Pos(1 - x)), Pow(10, Pos(f)), Pow(2, Neg(1 - x)), Pow(10, Neg(f)), Pow(2, 1024));
  }

  lemma PowStep(b: nat, n: nat)
    ensures Pow(b, n + 1) == b * Pow(b, n)
  {
  }

  lemma DenIs(k: int, f: int)
    ensures Den(k, 10, f) == Pow(2, Neg(k)) * Pow(10, Neg(f))
  {
  }

  /** A value of c digits times 10^f with c + f above 309 is at least 10^309. */
  lemma BigValue(a: nat, c: nat, f: int)
    requires c > 0 && Pow(10, c - 1) <= a && c + f >= 310
    ensures Pow(10, 309) * Pow(10, Neg(f)) <= a * Pow(10, Pos(f))
  {
    hide Pow;
    PowAdd(10, 309, Neg(f));
    PowAdd(10, c - 1, Pos(f));
    PowMono(10, 309 + Neg(f), c - 1 + Pos(f));
    MulMono(Pow(10, c - 1), a, Pow(10, Pos(f)));
  }

  lemma HighBinade(a: nat, c: nat, f: int, x: int)
    requires c > 0 && Pow(10, c - 1) <= a && c + f >= 310 && InBinade(a, 10, f, x)
    ensures x > 1024
  {
    hide Pow, InBinade;
    BigValue(a, c, f);
    LogRadix.TwoBelowTen(1024, 309);
    MulStrict(Pow(2, 1024), Pow(10, 309), Pow(10, Neg(f)));
    if x <= 1024 { LowBinade(a, f, x); }
  }

  lemma GrowLeft(a: nat, p: nat, r: nat, q: nat, s: nat, bound: nat)
    requires q > 0 && q * s <= a * p * r && p <= bound
    ensures s <= a * r * bound
  {
    MulGrows(s, q);
    assert a * p * r == a * r * p by { MulAssoc(a, p, r); MulAssoc(a, r, p); }
    MulMono(p, bound, a * r);
  }

  /** A value whose binade begins at 2^-1075 or after is at least 2^-1075. */
  lemma FarBinade(a: nat, f: int, x: int)
    requires InBinade(a, 10, f, x) && x >= -1074
    ensures Pow(10, Neg(f)) <= a * Pow(10, Pos(f)) * Pow(2, 1075)
  {
    BinadeParts(a, f, x);
    PowMono(2, Pos(1 - x), 1075);
    NumIs(a, 1 - x, 10, f);
    DenIs(1 - x, f);
    hide Num, Den, Pow, InBinade;
    GrowLeft(a, Pow(2, Pos(1 - x)), Pow(10, Pos(f)), Pow(2, Neg(1 - x)), Pow(10, Neg(f)), Pow(2, 1075));
  }

  /** A value of c digits times 10^f with c + f at most -324 is below 10^-324. */
  lemma TinyValue(a: nat, c: nat, f: int)
    requires 0 < a < Pow(10, c) && c + f <= -324
    ensures a * Pow(10, Pos(f)) * Pow(2, 1075) < Pow(10, Neg(f))
  {
    hide Pow;
    PowZero(10);
    PowAdd(10, c, 324);
    PowMono(10, c + 324, Neg(f));
    LogRadix.TwoBelowTen(1075, 324);
    MulStrict(Pow(2, 1075), Pow(10, 324), a);
    MulMono(a, Pow(10, c), Pow(10, 324));
  }

  lemma LowestBinade(a: nat, c: nat, f: int, x: int)
    requires 0 < a < Pow(10, c) && c + f <= -324 && InBinade(a, 10, f, x)
    ensures x < -1074
  {
    hide Pow, InBinade;
    TinyValue(a, c, f);
    if x >= -1074 { FarBinade(a, f, x); }
  }

  lemma UnitsArePositive(a: nat, f: int, x: int)
    requires InBinade(a, 10, f, x)
    ensures RoundScaled(NearestEven, a, -(x - 53), 10, f) > 0
  {
    hide Num, Den, Pow;
    var n, d := Num(a, -(x - 53), 10, f), Den(-(x - 53), 10, f);
    RoundTrip.RoundInUnits(TowardZero, a, x - 53, 52, 10, f);
    DivParts(n, d * Pow(2, 52));
    MulGrows(d, Pow(2, 52));
    if n / d == 0 { DivParts(n, d); }
  }

  lemma PositiveIsAssembled(x: int, units: nat)
    requires x > 1024 && units > 0
    ensures Assemble(x, units).0 > 0 && Assemble(x, units).1 > 1024
  {
    hide Pow;
    PowZero(2);
    Pow53();
  }

  /** Where js_atod answers infinity without converting, the nearest double is out of range. */
  lemma OverflowIsNearest(a: nat, c: nat, f: int, m: nat, e: int)
    requires c > 0 && Pow(10, c - 1) <= a && c + f >= 310 && IsNearest(a, 10, f, m, e)
    ensures m > 0 && e > 1024
  {
    hide Pow, InBinade, RoundScaled;
    var x :| InBinade(a, 10, f, x) && (m, e) == Assemble(x, RoundScaled(NearestEven, a, -Unit(x), 10, f));
    HighBinade(a, c, f, x);
    UnitsArePositive(a, f, x);
    PositiveIsAssembled(x, RoundScaled(NearestEven, a, -Unit(x), 10, f));
  }

  /** Where js_atod answers zero without converting, the value rounds to zero. */
  lemma VanishIsNearest(a: nat, c: nat, f: int, m: nat, e: int)
    requires 0 < a < Pow(10, c) && c + f <= -324 && IsNearest(a, 10, f, m, e)
    ensures m == 0
  {
    hide Pow, InBinade, RoundScaled;
    var x :| InBinade(a, 10, f, x) && (m, e) == Assemble(x, RoundScaled(NearestEven, a, -Unit(x), 10, f));
    LowestBinade(a, c, f, x);
    NearestDoubles.TinyIsZero(a, 10, f, x, m, e);
  }

  // ----- rounded values as they are stored -----

  /** The bits a hold value * 10^f rounded to the nearest double, ties to even. */
  ghost predicate IsRounded(negative: bool, value: nat, f: int, a: bits64) {
    match Decode(a)
    case NotANumber => false
    case Zero(sign) => sign == negative && (value == 0 || exists e :: IsNearest(value, 10, f, 0, e))
    case Infinite(sign) => sign == negative && exists m, e :: IsNearest(value, 10, f, m, e) && m > 0 && e > 1024
    case Finite(sign, m, e) => sign == negative && IsNearest(value, 10, f, m, e)
  }

  /** The tail of js_atod stores the nearest double, and discards none. */
  lemma StoredIsRounded(negative: bool, value: nat, f: int, m: nat, e: int)
    requires IsNearest(value, 10, f, m, e)
    ensures Encode(negative, m, e) < 0x1_0000_0000_0000_0000 && IsRounded(negative, value, f, Encode(negative, m, e))
  {
    hide Pow, IsNearest, Decode;
    NearestDoubles.NearestIsDouble(value, 10, f, m, e);
    DecodeSpecial(negative);
    if m > 0 && e <= 1024 { DecodeEncode(negative, m, e); }
  }

  /** Nothing has a nearest value that is zero and one that is not. */
  lemma RoundedUnique(negative: bool, value: nat, f: int, a: bits64, b: bits64)
    requires IsRounded(negative, value, f, a) && IsRounded(negative, value, f, b)
    ensures Decode(a) == Decode(b)
  {
    hide Pow, IsNearest, Decode;
    if value > 0 {
      var m, e := RoundedFrom(negative, value, f, a);
      var n, g := RoundedFrom(negative, value, f, b);
      RoundTrip.NearestUnique(value, 10, f, m, e, n, g);
    } else {
      NoneNearZero(f);
    }
  }

  lemma RoundedFrom(negative: bool, value: nat, f: int, a: bits64) returns (m: nat, e: int)
    requires IsRounded(negative, value, f, a) && value > 0
    ensures IsNearest(value, 10, f, m, e)
    ensures Decode(a) == if m == 0 then Zero(negative)
                         else if e > 1024 then Infinite(negative)
                         else Finite(negative, m, e)
  {
    hide Pow, IsNearest;
    match Decode(a)
    case Zero(_) => m := 0; e :| IsNearest(value, 10, f, 0, e);
    case Infinite(_) => m, e :| IsNearest(value, 10, f, m, e) && m > 0 && e > 1024;
    case Finite(_, m1, e1) =>
      m, e := m1, e1;
      hide Decode;
      EncodeDecode(a);
  }

  lemma NoneNearZero(f: int)
    ensures forall m, e :: !IsNearest(0, 10, f, m, e)
  {
    hide Pow;
    forall x ensures !InBinade(0, 10, f, x) { DivSmaller(0, Den(1 - x, 10, f)); }
  }
}
