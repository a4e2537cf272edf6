/** Rounding to a binary64 significand and exponent. */
module Doubles {
  import opened Extremes
  import opened Powers
  import opened Limbs
  import opened Rounding
  import opened ExactScaling
  import opened SmallPowers
  import opened BigNum
  import opened ScaledPower

  /** The exponent of the last bit kept for a value below 2^x: 53 bits, or as many as lie above
      2^-1074 in the subnormal range. */
  function Unit(x: int): (r: int) {
    Max(x - 53, -1074)
  }

  /** A multiple of the unit as a 53-bit significand and an exponent: value m * 2^(e - 53). */
  function Assemble(x: int, units: nat): (r: (nat, int)) {
    var m := units * Pow(2, Unit(x) - (x - 53));
    if m >= Pow(2, 53) then (m / 2, x + 1) else (m, x)
  }

  /** 2^(x-1) <= a * radix^f < 2^x. */
  ghost predicate InBinade(a: nat, radix: nat, f: int, x: int)
    requires radix > 0
  {
    RoundScaled(TowardZero, a, -(x - 1), radix, f) == 1
  }

  /** (m, e) is a * radix^f rounded to the nearest multiple of its unit, ties to even. */
  ghost predicate IsNearest(a: nat, radix: nat, f: int, m: nat, e: int)
    requires radix > 0
  {
    exists x :: InBinade(a, radix, f, x)
                && (m, e) == Assemble(x, RoundScaled(NearestEven, a, -Unit(x), radix, f))
  }

  /** v / 2^s, s of either sign. */
  function ShiftRounded(mode: Mode, v: nat, s: int): (r: nat) {
    if s > 0 then Round(mode, v, Pow(2, s)) else v * Pow(2, -s)
  }

  lemma RoundAtMost(mode: Mode, v: nat, d: nat, q: nat)
    requires d > 0 && v < q * d
    ensures Round(mode, v, d) <= q
  {
    DivBound(v, d, q);
  }

  /** Rounding to `prec` bits may carry to the next power of two and no further. */
  lemma UnitsBound(mode: Mode, v: nat, log2: nat, prec: int)
    requires v < Pow(2, log2 + 1) && prec <= 53
    ensures ShiftRounded(mode, v, log2 + 1 - prec) <= Pow(2, Pos(prec))
  {
    var s := log2 + 1 - prec;
    if s > 0 {
      if prec >= 0 {
        PowAdd(2, prec, s);
        RoundAtMost(mode, v, Pow(2, s), Pow(2, prec));
      } else {
        PowMono(2, log2 + 1, s);
        RoundAtMost(mode, v, Pow(2, s), 1);
      }
    } else {
      PowAdd(2, log2 + 1, -s);
      MulMono(v, Pow(2, log2 + 1), Pow(2, -s));
    }
  }

  lemma Pow53()
    ensures Pow(2, 53) == 0x20_0000_0000_0000
  {
    assert Pow(2, 13) == 8192;
    PowAdd(2, 13, 13);
    PowAdd(2, 26, 26);
    assert Pow(2, 53) == 2 * Pow(2, 52);
  }

  function Precision(x: int): (r: int) {
    if x < -1021 then 53 - (-1021 - x) else 53
  }

  /** round_to_d: the number divided by 2^eOffset, as a double. */
  method RoundToD(a: Mpb, eOffset: int, mode: Mode) returns (m: nat, e: int, ghost log2: int)
    requires a.Valid() && a.Normal() && a.tab.Length >= 4
    modifies a, a.tab
    ensures old(a.Val()) == 0 ==> m == 0
    ensures old(a.Val()) > 0 ==> log2 >= 0 && Pow(2, log2) <= old(a.Val()) < Pow(2, log2 + 1)
    ensures old(a.Val()) > 0 ==>
              var x := log2 + 1 - eOffset; (m, e) == Assemble(x, ShiftRounded(mode, old(a.Val()), eOffset + Unit(x)))
  {
    var top := a.FloorLog2();
    log2 := top;
    if top < 0 {
      return 0, 0, top;
    }
    var x := top + 1 - eOffset;
    var units := RoundUnits(a, top, x, eOffset, mode);
    m, e := Carry(units, x);
  }

  method RoundUnits(a: Mpb, log2: nat, x: int, eOffset: int, mode: Mode) returns (units: nat)
    requires a.Valid() && a.Normal() && a.tab.Length >= 4 && a.Val() > 0
    requires Pow(2, log2) <= a.Val() < Pow(2, log2 + 1) && 32 * (a.len - 1) <= log2 && x == log2 + 1 - eOffset
    modifies a, a.tab
    ensures units == ShiftRounded(mode, old(a.Val()), eOffset + Unit(x))
  {
    var prec := Precision(x);
    UnitsBound(mode, a.Val(), log2, prec);
    Pow53();
    PowMono(2, Pos(prec), 53);
    ShrRound(a, x + eOffset - prec, mode);
    units := a.GetU64();
  }

  method Carry(units: nat, x: int) returns (m: nat, e: int)
    ensures (m, e) == Assemble(x, units)
  {
    m, e := units * Pow(2, 53 - Precision(x)), x;
    if m >= Pow(2, 53) {
      m, e := m / 2, e + 1;
    }
  }

  /** What mul_pow leaves of a * radix^f: a number v, still to be divided by 2^eOffset. */
  ghost predicate Left(a: nat, radix: nat, radix1: nat, radixShift: nat, f: int, s: nat, v: nat, eOffset: int) {
    && a > 0 && IsRadix(radix, radix1, radixShift)
    && (f >= 0 ==> v == a * Pow(radix1, f) && eOffset == -f * radixShift)
    && (f < 0 && radix1 == 1 ==> v == a && eOffset == -f * radixShift)
    && (f < 0 && radix1 != 1 ==>
          v == StickyQuotient(a, s, Pow(radix1, -f)) && eOffset == -f * radixShift + s && Pow(2, 55) <= v)
  }

  lemma LogAtLeast(v: nat, log2: nat, k: nat)
    requires Pow(2, k) <= v < Pow(2, log2 + 1)
    ensures k <= log2
  {
    if k > log2 { PowMono(2, log2 + 1, k); }
  }

  /** Any shift of at least two bits of what is left rounds the exact value. */
  lemma LeftRounds(mode: Mode, a: nat, radix: nat, radix1: nat, radixShift: nat, f: int, s: nat, v: nat, eOffset: int,
                   log2: nat, k: int)
    requires Left(a, radix, radix1, radixShift, f, s, v, eOffset) && v < Pow(2, log2 + 1) && eOffset + k >= log2 - 53
    ensures RoundScaled(mode, a, -k, radix, f) == ShiftRounded(mode, v, eOffset + k)
  {
    hide Pow;
    if f < 0 && radix1 != 1 { LogAtLeast(v, log2, 55); }
    FinalShift(mode, a, -k, radix, radix1, radixShift, f, s, v, eOffset + k);
  }

  lemma TopIsOne(v: nat, log2: nat)
    requires Pow(2, log2) <= v < Pow(2, log2 + 1)
    ensures ShiftRounded(TowardZero, v, log2) == 1
  {
    DivUnique(v, Pow(2, log2), 1, v - Pow(2, log2));
  }

  lemma LeftIsNearest(a: nat, radix: nat, radix1: nat, radixShift: nat, f: int, s: nat, v: nat, eOffset: int, log2: nat,
                      x: int)
    requires Left(a, radix, radix1, radixShift, f, s, v, eOffset)
    requires Pow(2, log2) <= v < Pow(2, log2 + 1) && x == log2 + 1 - eOffset
    ensures InBinade(a, radix, f, x)
    ensures RoundScaled(NearestEven, a, -Unit(x), radix, f) == ShiftRounded(NearestEven, v, eOffset + Unit(x))
  {
    hide Pow;
    LeftRounds(TowardZero, a, radix, radix1, radixShift, f, s, v, eOffset, log2, x - 1);
    TopIsOne(v, log2);
    LeftRounds(NearestEven, a, radix, radix1, radixShift, f, s, v, eOffset, log2, Unit(x));
  }

  /** Limbs mul_pow_round_to_d needs beyond those of the number. */
  function DoubleRoom(radix1: nat, radixShift: nat, f: int, log2: int): (r: nat)
    requires radix1 == 1 || OddRadix(radix1)
  {
    RoomFor(radix1, radixShift, f, false, 55, log2)
  }

  /** mul_pow_round_to_d: the double nearest to a * radix^f. */
  method MulPowRoundToD(a: Mpb, ghost radix: nat, radix1: nat, radixShift: nat, f: int) returns (m: nat, e: int)
    requires a.Valid() && a.Normal() && a.Val() > 0 && IsRadix(radix, radix1, radixShift) && a.tab.Length >= 4
    requires a.len + DoubleRoom(radix1, radixShift, f, 32 * (a.len - 1)) <= a.tab.Length
    modifies a, a.tab
    ensures IsNearest(old(a.Val()), radix, f, m, e)
  {
    ghost var v := a.Val();
    ghost var s, log2;
    var eOffset;
    eOffset, s := MulPow(a, radix1, radixShift, f, false, 55);
    ghost var w := a.Val();
    m, e, log2 := RoundToD(a, eOffset, NearestEven);
    LeftIsNearest(v, radix, radix1, radixShift, f, s, w, eOffset, log2, log2 + 1 - eOffset);
  }
}
