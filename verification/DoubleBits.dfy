/** The bits of a double, and the two ends of the decimal conversions that take them apart and put them together. */
module DoubleBits {
  import opened Powers
  import opened SmallPowers
  import opened Doubles
  import opened RoundTrip

  /** A 64-bit pattern: sign bit, 11 bits of exponent, 52 bits of fraction. */
  type bits64 = x: nat | x < 0x1_0000_0000_0000_0000

  const FRACTION: nat := 0x10_0000_0000_0000

  function SignOf(a: bits64): (r: bool) { a / 0x8000_0000_0000_0000 == 1 }

  function ExponentOf(a: bits64): (r: nat) { a / FRACTION % 2048 }

  function FractionOf(a: bits64): (r: nat) { a % FRACTION }

  datatype Decoded = NotANumber | Infinite(negative: bool) | Zero(negative: bool)
                   | Finite(negative: bool, m: nat, e: int)

  /** The head of js_dtoa: a finite value is m * 2^(e-53) with 2^52 <= m < 2^53. */
  function Decode(a: bits64): (r: Decoded) {
    var e, f := ExponentOf(a), FractionOf(a);
    if e == 2047 then
      if f == 0 then Infinite(SignOf(a)) else NotANumber
    else if e == 0 then
      if f == 0 then Zero(SignOf(a))
      else
        var l: int := 53 - BitLength(f);
        Finite(SignOf(a), f * Pow(2, if l < 0 then 0 else l), 1 - l - 1022)
    else Finite(SignOf(a), FRACTION + f, e - 1022)
  }

  /** The tail of js_atod: what (m, e) becomes when it is stored. */
  function Encode(negative: bool, m: nat, e: int): (r: nat) {
    (if m == 0 || e < -1073 then 0
     else if e > 1024 then 2047 * FRACTION
     else if e < -1021 then m / Pow(2, -e - 1021)
     else (e + 1022) * FRACTION + m % FRACTION)
    + (if negative then 0x8000_0000_0000_0000 else 0)
  }

  lemma LengthBounds(f: nat)
    requires 0 < f
    ensures BitLength(f) > 0 && Pow(2, BitLength(f) - 1) <= f < Pow(2, BitLength(f))
  {
    TopBit(f);
    DivParts(f, Pow(2, BitLength(f) - 1));
  }

  lemma LengthAtMost(f: nat, k: nat)
    requires 0 < f < Pow(2, k)
    ensures BitLength(f) <= k
  {
    LengthBounds(f);
    if BitLength(f) > k { PowMono(2, k, BitLength(f) - 1); }
  }

  lemma Parts(a: bits64)
    ensures a == (if SignOf(a) then 0x8000_0000_0000_0000 else 0) + ExponentOf(a) * FRACTION + FractionOf(a)
  {
  }

  /** A subnormal fraction shifted to the top. */
  lemma Subnormal(f: nat, l: int)
    requires 0 < f < FRACTION && l == 53 - BitLength(f)
    ensures 1 <= l <= 52 && IsDouble(f * Pow(2, l), -1021 - l) && f * Pow(2, l) / Pow(2, l) == f
  {
    Pow53();
    LengthBounds(f);
    LengthAtMost(f, 52);
    Shifted(f, BitLength(f), l);
    DivUnique(f * Pow(2, l), Pow(2, l), f, 0);
  }

  lemma Shifted(f: nat, n: nat, l: nat)
    requires n > 0 && n + l == 53 && Pow(2, n - 1) <= f < Pow(2, n)
    ensures Pow(2, 52) <= f * Pow(2, l) < Pow(2, 53)
  {
    hide Pow;
    PowAdd(2, n - 1, l);
    PowAdd(2, n, l);
    MulMono(Pow(2, n - 1), f, Pow(2, l));
    MulStrict(f, Pow(2, n), Pow(2, l));
  }

  lemma Normal(e: nat, f: nat)
    requires 0 < e < 2047 && f < FRACTION
    ensures IsDouble(FRACTION + f, e - 1022)
  {
    Pow53();
    PowZero(2);
  }

  lemma EncodeSubnormal(negative: bool, f: nat, l: nat, m: nat)
    requires 1 <= l <= 52 && IsDouble(m, -1021 - l) && m / Pow(2, l) == f
    ensures Encode(negative, m, -1021 - l) == (if negative then 0x8000_0000_0000_0000 else 0) + f
  {
  }

  lemma EncodeNormal(negative: bool, e: nat, f: nat)
    requires 0 < e < 2047 && f < FRACTION
    ensures Encode(negative, FRACTION + f, e - 1022)
      == (if negative then 0x8000_0000_0000_0000 else 0) + e * FRACTION + f
  {
    DivUnique(FRACTION + f, FRACTION, 1, f);
  }

  /** Storing what was taken apart gives the same bits. */
  lemma EncodeDecode(a: bits64)
    requires Decode(a).Finite?
    ensures IsDouble(Decode(a).m, Decode(a).e)
    ensures Encode(Decode(a).negative, Decode(a).m, Decode(a).e) == a
  {
    hide Pow, Encode, IsDouble;
    var e, f := ExponentOf(a), FractionOf(a);
    Parts(a);
    if e == 0 {
      var l := 53 - BitLength(f);
      Subnormal(f, l);
      EncodeSubnormal(SignOf(a), f, l, f * Pow(2, l));
    } else {
      Normal(e, f);
      EncodeNormal(SignOf(a), e, f);
    }
  }

  /** A sign, an exponent and a fraction packed together come apart again. */
  lemma Packed(negative: bool, e: nat, f: nat, a: nat)
    requires e < 2048 && f < FRACTION && a == (if negative then 0x8000_0000_0000_0000 else 0) + e * FRACTION + f
    ensures a < 0x1_0000_0000_0000_0000 && SignOf(a) == negative && ExponentOf(a) == e && FractionOf(a) == f
  {
    DivUnique(a, FRACTION, e + (if negative then 2048 else 0), f);
  }

  lemma LengthIs(f: nat, n: nat)
    requires n > 0 && Pow(2, n - 1) <= f < Pow(2, n)
    ensures BitLength(f) == n
  {
    hide BitLength, Pow;
    LengthBounds(f);
    LengthAtMost(f, n);
    if BitLength(f) < n { PowMono(2, BitLength(f), n - 1); }
  }

  /** The fraction of a subnormal double is its significand without the bits it cannot have. */
  lemma SubnormalFraction(m: nat, l: nat) returns (f: nat)
    requires 1 <= l <= 52 && IsDouble(m, -1021 - l)
    ensures f == m / Pow(2, l) && m == f * Pow(2, l) && 0 < f < FRACTION && BitLength(f) == 53 - l
  {
    hide BitLength, Pow;
    var p, n := Pow(2, l), 53 - l;
    f := m / p;
    DivParts(m, p);
    PowAdd(2, n - 1, l);
    PowAdd(2, n, l);
    MulCancelStrict(f, Pow(2, n), p);
    MulCancel(Pow(2, n - 1), f, p);
    LengthIs(f, n);
    PowMono(2, n, 52);
    Pow53();
    PowAdd(2, 1, 52);
    PowOne(2);
  }

  /** Taking apart what was stored gives the same double, so no double is stored as another. */
  lemma DecodeEncode(negative: bool, m: nat, e: int)
    requires IsDouble(m, e)
    ensures Encode(negative, m, e) < 0x1_0000_0000_0000_0000
    ensures Decode(Encode(negative, m, e)) == Finite(negative, m, e)
  {
    hide Pow, BitLength;
    Pow53();
    PowAdd(2, 1, 52);
    PowOne(2);
    if e < -1021 {
      var f := SubnormalFraction(m, -1021 - e);
      Packed(negative, 0, f, Encode(negative, m, e));
    } else {
      DivUnique(m, FRACTION, 1, m - FRACTION);
      Packed(negative, e + 1022, m - FRACTION, Encode(negative, m, e));
    }
  }

  /** Zero and infinity as they are stored. */
  lemma DecodeSpecial(negative: bool)
    ensures Encode(negative, 0, 0) < 0x1_0000_0000_0000_0000 && Decode(Encode(negative, 0, 0)) == Zero(negative)
    ensures Encode(negative, Pow(2, 52), 1025) < 0x1_0000_0000_0000_0000
    ensures Decode(Encode(negative, Pow(2, 52), 1025)) == Infinite(negative)
  {
    hide Pow;
    Packed(negative, 0, 0, Encode(negative, 0, 0));
    Packed(negative, 2047, 0, Encode(negative, Pow(2, 52), 1025));
  }

  /** Different patterns that are not NaN are different values. */
  lemma DecodeInjective(a: bits64, b: bits64)
    requires Decode(a) == Decode(b) && !Decode(a).NotANumber?
    ensures a == b
  {
    hide Pow, BitLength;
    Parts(a);
    Parts(b);
    if Decode(a).Finite? {
      EncodeDecode(a);
      EncodeDecode(b);
    }
  }
}
