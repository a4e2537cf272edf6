/** Free-format conversion to decimal: digits that convert back, and of which none can be left off. */
module DtoaFree {
  import opened Powers
  import opened Limbs
  import opened Rounding
  import opened ExactScaling
  import opened SmallPowers
  import opened BigNum
  import opened ScaledPower
  import opened Doubles
  import opened RoundTrip
  import opened LogRadix
  import opened DecimalDigits
  import opened DecimalText

  const DBIGNUM_LEN_MAX: nat := 52

  const MAX_DIGITS: nat := 17

  // ----- the buffer is large enough -----

  lemma ExponentRange(e: int)
    requires -1073 <= e <= 1024
    ensures -323 <= FirstExponent(e) <= 308
    ensures FirstExponent(e) <= 17 ==> e <= 57
  {
  }

  lemma RoomToPrint(e: int, p: nat, exponent: int)
    requires -1073 <= e <= 1024 && 1 <= p <= 17 && FirstExponent(e) <= exponent <= FirstExponent(e) + 1
    ensures RoundRoom(5, 1, p - exponent, e - 53) <= DBIGNUM_LEN_MAX
  {
    ExponentRange(e);
  }

  lemma RoomToParse(e: int, p: nat, exponent: int, len: nat)
    requires -1073 <= e <= 1024 && 1 <= p <= 17 && FirstExponent(e) <= exponent <= FirstExponent(e) + 1 && 1 <= len <= 2
    ensures len + DoubleRoom(5, 1, exponent - p, 32 * (len - 1)) <= DBIGNUM_LEN_MAX
  {
    ExponentRange(e);
  }

  // ----- trailing zeros -----

  /** A zero digit less and a power of ten more is the same number. */
  lemma TenfoldRounds(mode: Mode, a: nat, k: int, f: int)
    ensures RoundScaled(mode, 10 * a, k, 10, f) == RoundScaled(mode, a, k, 10, f + 1)
  {
    hide Pow, Num, Den, Round;
    Tenth(a, k, f);
    NumScales(a, k, f);
    NumScales(10 * a, k, f);
    MulAssoc(10, a, Num(1, k, 10, f));
    RoundCross(mode, Num(10 * a, k, 10, f), Den(k, 10, f), Num(a, k, 10, f + 1), Den(k, 10, f + 1));
  }

  lemma TenfoldIsNearest(a: nat, f: int, m: nat, e: int)
    ensures IsNearest(10 * a, 10, f, m, e) <==> IsNearest(a, 10, f + 1, m, e)
  {
    hide Pow, RoundScaled;
    forall x
      ensures RoundScaled(NearestEven, 10 * a, -Unit(x), 10, f) == RoundScaled(NearestEven, a, -Unit(x), 10, f + 1)
      ensures InBinade(10 * a, 10, f, x) == InBinade(a, 10, f + 1, x)
    {
      TenfoldRounds(TowardZero, a, -(x - 1), f);
      TenfoldRounds(NearestEven, a, -Unit(x), f);
    }
  }

  /** The loop that removes trailing zero digits. */
  method StripZeros(mant0: nat, p0: nat, ghost exponent: int, ghost m: nat, ghost e: int) returns (mant: nat, p: nat)
    requires HasDigits(mant0, p0)
    ensures HasDigits(mant, p) && p <= p0 && mant % 10 != 0
    ensures IsNearest(mant0, 10, exponent - p0, m, e) <==> IsNearest(mant, 10, exponent - p, m, e)
    ensures mant0 == mant * Pow(10, p0 - p)
  {
    hide Pow, IsNearest;
    mant, p := mant0, p0;
    PowZero(10);
    while mant % 10 == 0
      invariant HasDigits(mant, p) && p <= p0 && mant0 == mant * Pow(10, p0 - p)
      invariant IsNearest(mant0, 10, exponent - p0, m, e) <==> IsNearest(mant, 10, exponent - p, m, e)
      decreases mant
    {
      StripOne(mant / 10, p, p0 - p, exponent, m, e);
      mant, p := mant / 10, p - 1;
    }
  }

  lemma StripOne(less: nat, p: nat, z: nat, exponent: int, m: nat, e: int)
    requires HasDigits(10 * less, p)
    ensures less > 0 && p > 1 && HasDigits(less, p - 1) && 10 * less * Pow(10, z) == less * Pow(10, z + 1)
    ensures IsNearest(10 * less, 10, exponent - p, m, e) <==> IsNearest(less, 10, exponent - (p - 1), m, e)
  {
    ShorterDigits(less, p);
    TenfoldIsNearest(less, exponent - p, m, e);
    PowTenStep(z + 1);
    MulAssoc(less, 10, Pow(10, z));
  }

  lemma ShorterDigits(less: nat, p: nat)
    requires HasDigits(10 * less, p)
    ensures less > 0 && p > 1 && HasDigits(less, p - 1)
  {
    PowOne(10);
    PowTenStep(p);
    if p > 1 { PowTenStep(p - 1); }
  }

  // ----- one try -----

  /** The exponent at which m * 2^(e-53), rounded to p digits, has p digits. */
  ghost function ExponentFor(m: nat, e: int, p: nat): (r: int) {
    if Mantissa(m, e, p, FirstExponent(e)) < Pow(10, p) then FirstExponent(e) else FirstExponent(e) + 1
  }

  /** The double rounded to p digits reads back as itself. */
  ghost predicate ReadsBack(m: nat, e: int, p: nat) {
    IsNearest(Mantissa(m, e, p, ExponentFor(m, e, p)), 10, ExponentFor(m, e, p) - p, m, e)
  }

  /** One number of digits: the exponent is raised once when there is one digit too many. */
  method TryDigits(tmp: Mpb, m: nat, e: int, p: nat) returns (mant: nat, exponent: int)
    requires IsDouble(m, e) && 1 <= p <= MAX_DIGITS && tmp.tab.Length == DBIGNUM_LEN_MAX
    modifies tmp, tmp.tab
    ensures exponent == ExponentFor(m, e, p)
    ensures HasDigits(mant, p) && mant == Mantissa(m, e, p, exponent)
    ensures p == MAX_DIGITS ==> IsNearest(mant, 10, exponent - p, m, e)
  {
    hide Pow, IsNearest;
    ghost var first := FirstExponent(e);
    exponent := 1 + MulLog2(e - 1);
    TenPowers(p);
    var max := PowUi(10, p);
    mant := DigitsAt(tmp, m, e, p, exponent);
    FirstHasDigits(m, e, p);
    if mant >= max {
      exponent := exponent + 1;
      NextHasDigits(m, e, p);
      NextFits(m, e, p);
      mant := DigitsAt(tmp, m, e, p, exponent);
      if p == MAX_DIGITS { SecondTry(m, e); }
    } else {
      if p == MAX_DIGITS { FirstTry(m, e); }
    }
  }

  lemma TenPowers(p: nat)
    requires p <= 17
    ensures Pow(10, p) < WORD64
  {
    PowTen();
    PowMono(10, p, 17);
  }

  method DigitsAt(tmp: Mpb, m: nat, e: int, p: nat, exponent: int) returns (mant: nat)
    requires IsDouble(m, e) && 1 <= p <= MAX_DIGITS && tmp.tab.Length == DBIGNUM_LEN_MAX
    requires FirstExponent(e) <= exponent <= FirstExponent(e) + 1
    modifies tmp, tmp.tab
    ensures mant == Mantissa(m, e, p, exponent)
  {
    hide Pow, Round;
    Constants();
    RoomToPrint(e, p, exponent);
    RadixTen();
    MulPowRound(tmp, m, e - 53, 10, 5, 1, p - exponent, NearestEven);
    MantissaFits(m, e, p, exponent);
    mant := tmp.GetU64();
  }

  lemma RadixTen()
    ensures IsRadix(10, 5, 1)
  {
  }

  /** A mantissa fits in 64 bits even with one digit too many. */
  lemma MantissaFits(m: nat, e: int, p: nat, exponent: int)
    requires IsDouble(m, e) && 1 <= p <= 17 && FirstExponent(e) <= exponent <= FirstExponent(e) + 1
    ensures Mantissa(m, e, p, exponent) < BASE * BASE
  {
    hide Pow, Num, Den;
    var r, t := MulLog2(e - 1), Pow(10, p);
    TenPowers(p);
    PowTen();
    PowMono(10, p, 17);
    if exponent == FirstExponent(e) {
      MulLog2IsFloor(e - 1);
      ScaledBelow(m, e - 1, r + 1, p);
      MulAssoc(2, t, Den(e - 53, 10, p - 1 - r));
      RoundAtMost(NearestEven, Num(m, e - 53, 10, p - 1 - r), Den(e - 53, 10, p - 1 - r), 2 * t);
    } else {
      NextFits(m, e, p);
    }
  }

  // ----- the search -----

  /** The decimal digits and exponent back to binary. */
  method Reads(tmp: Mpb, mant: nat, p: nat, exponent: int, ghost e: int) returns (m: nat, e1: int)
    requires -1073 <= e <= 1024 && 1 <= p <= MAX_DIGITS && HasDigits(mant, p) && tmp.tab.Length == DBIGNUM_LEN_MAX
    requires FirstExponent(e) <= exponent <= FirstExponent(e) + 1
    modifies tmp, tmp.tab
    ensures IsNearest(mant, 10, exponent - p, m, e1)
  {
    hide Pow, IsNearest;
    TenPowers(p);
    tmp.SetU64(mant);
    RadixTen();
    RoomToParse(e, p, exponent, tmp.len);
    m, e1 := MulPowRoundToD(tmp, 10, 5, 1, exponent - p);
  }

  lemma NotReadBack(m: nat, e: int, mant: nat, exponent: int, p: nat, m1: nat, e1: int)
    requires IsNearest(mant, 10, exponent - p, m1, e1) && (m1 != m || e1 != e)
    ensures !IsNearest(mant, 10, exponent - p, m, e)
  {
    hide IsNearest;
    if IsNearest(mant, 10, exponent - p, m, e) { NearestUnique(mant, 10, exponent - p, m, e, m1, e1); }
  }

  /** The free-format search: from seventeen digits down while the digits still convert back. The
      digits it ends with convert back, and one digit fewer would not. */
  method FreeDigits(tmp: Mpb, m: nat, e: int) returns (mant: nat, p: nat, exponent: int)
    requires IsDouble(m, e) && tmp.tab.Length == DBIGNUM_LEN_MAX
    modifies tmp, tmp.tab
    ensures 1 <= p <= MAX_DIGITS && HasDigits(mant, p) && mant % 10 != 0
    ensures FirstExponent(e) <= exponent <= FirstExponent(e) + 1
    ensures IsNearest(mant, 10, exponent - p, m, e)
    ensures p > 1 ==> !ReadsBack(m, e, p - 1)
  {
    hide Pow, IsNearest, Mantissa;
    var tried, at := TryDigits(tmp, m, e, MAX_DIGITS);
    mant, p := StripZeros(tried, MAX_DIGITS, at, m, e);
    exponent := at;
    while p > 1
      invariant 1 <= p <= MAX_DIGITS && HasDigits(mant, p) && mant % 10 != 0
      invariant FirstExponent(e) <= exponent <= FirstExponent(e) + 1 && IsNearest(mant, 10, exponent - p, m, e)
    {
      tried, at := TryDigits(tmp, m, e, p - 1);
      var less, q := StripZeros(tried, p - 1, at, m, e);
      var m1, e1 := Reads(tmp, less, q, at, e);
      if m1 != m || e1 != e {
        NotReadBack(m, e, less, at, q, m1, e1);
        return;
      }
      mant, p, exponent := less, q, at;
    }
  }
}
