/** Multiplication by a power of the radix, exact up to one sticky bit. */
module ScaledPower {
  import opened Extremes
  import opened Powers
  import opened Limbs
  import opened Reciprocal
  import opened SmallPowers
  import opened Rounding
  import opened ExactScaling
  import opened BigNum

  /** How many multiplications or divisions by a limb a power takes. */
  function Chunks(radix1: nat, f: nat): (r: nat)
    requires OddRadix(radix1)
  {
    DigitsFit(radix1);
    (f + DigitsPerLimb(radix1) - 1) / DigitsPerLimb(radix1)
  }

  lemma ChunkPower(radix1: nat, n: nat)
    requires OddRadix(radix1) && n <= DigitsPerLimb(radix1)
    ensures 0 < Pow(radix1, n) < BASE
  {
    DigitsFit(radix1);
    PowMono(radix1, n, DigitsPerLimb(radix1));
  }

  lemma ChunksStep(radix1: nat, f: nat, n: nat)
    requires OddRadix(radix1) && f > 0 && n == Min(f, DigitsPerLimb(radix1))
    ensures Chunks(radix1, f) == Chunks(radix1, f - n) + 1
  {
  }

  /** The loop of mul_pow for a power that is not negative. */
  method MultiplyPower(a: Mpb, radix1: nat, f0: nat)
    requires a.Valid() && a.Normal() && a.Val() > 0 && OddRadix(radix1)
    requires a.len + Chunks(radix1, f0) <= a.tab.Length
    modifies a, a.tab
    ensures a.Valid() && a.Normal() && a.Val() == old(a.Val()) * Pow(radix1, f0) && a.Val() > 0
    ensures a.len <= old(a.len) + Chunks(radix1, f0)
  {
    var f, b, n0 := f0, 0, 0;
    ghost var v := a.Val();
    while f != 0
      invariant a.Valid() && a.Normal() && a.Val() > 0 && 0 <= f <= f0
      invariant a.Val() == v * Pow(radix1, f0 - f)
      invariant a.len + Chunks(radix1, f) <= old(a.len) + Chunks(radix1, f0)
      invariant n0 > 0 ==> n0 <= DigitsPerLimb(radix1) && b == Pow(radix1, n0)
    {
      var n := Min(f, DigitsPerLimb(radix1));
      ChunkPower(radix1, n);
      ChunksStep(radix1, f, n);
      if n != n0 {
        b := PowUi(radix1, n);
        n0 := n;
      }
      a.Multiply(b);
      PowAdd(radix1, f0 - f, n);
      MulAssoc(v, Pow(radix1, f0 - f), Pow(radix1, n));
      f := f - n;
    }
  }

  /** The loop of mul_pow for a negative power: floor divisions by limbs, with the remainders or-ed. */
  method DividePower(a: Mpb, radix1: nat, f0: nat) returns (inexact: bool)
    requires a.Valid() && a.Normal() && OddRadix(radix1)
    modifies a, a.tab
    ensures a.Valid() && a.Normal() && a.len <= old(a.len)
    ensures a.Val() == old(a.Val()) / Pow(radix1, f0) && (inexact <==> old(a.Val()) % Pow(radix1, f0) != 0)
  {
    var f, b, inverse, shift, n0 := f0, 0, 0, 0, 0;
    ghost var v := a.Val();
    inexact := false;
    while f != 0
      invariant a.Valid() && a.Normal() && 0 <= f <= f0 && a.len <= old(a.len)
      invariant a.Val() == v / Pow(radix1, f0 - f) && (inexact <==> v % Pow(radix1, f0 - f) != 0)
      invariant n0 > 0 ==>
                  shift < 32 && b == Pow(radix1, n0) * Pow(2, shift) && HALF <= b < BASE && inverse == Inverse(b)
    {
      var n := Min(f, DigitsPerLimb(radix1));
      ChunkPower(radix1, n);
      if n != n0 {
        b, inverse, shift := PowUiInverse(radix1, n);
        n0 := n;
      }
      InverseFits(b);
      var r := a.Divide(b, inverse, shift, Pow(radix1, n));
      PowAdd(radix1, f0 - f, n);
      DivTwice(v, Pow(radix1, f0 - f), Pow(radix1, n));
      inexact := inexact || r != 0;
      f := f - n;
    }
  }

  lemma InverseFits(b: limb)
    requires HALF <= b
    ensures Inverse(b) < BASE
  {
    var k := InverseParts(b);
  }

  /** The chunks of a power are together at least as large as the power. */
  lemma PowerBelowChunks(radix1: nat, f: nat)
    requires OddRadix(radix1)
    ensures Pow(radix1, f) <= Pow(2, 32 * Chunks(radix1, f))
  {
    var d, l := DigitsPerLimb(radix1), Chunks(radix1, f);
    DigitsFit(radix1);
    ChunksCover(f, d, l);
    PowMono(radix1, f, d * l);
    PowPow(radix1, d, l);
    PowBaseMono(Pow(radix1, d), BASE, l);
    LimbPower(l);
  }

  lemma ChunksCover(f: nat, d: nat, l: nat)
    requires d > 0 && l == (f + d - 1) / d
    ensures f <= d * l
  {
    DivParts(f + d - 1, d);
  }

  /** Bits added below the number so that the quotient keeps enough of them. */
  function ExtraBits(isInt: bool, e: int, log2: int, eOffset: int): (r: nat) {
    if isInt then Max(2 + e - eOffset, 0) else Max(e - log2, 0)
  }

  /** The bits by which mul_pow shifts before a division by radix1^f. */
  function PreShift(radix1: nat, radixShift: nat, f: nat, isInt: bool, e: int, log2: int): (r: nat)
    requires OddRadix(radix1)
  {
    var l := 32 * Chunks(radix1, f);
    l + ExtraBits(isInt, e, log2, f * radixShift + l)
  }

  /** The quotient keeps `e` bits when mul_pow is asked for them. */
  lemma EnoughBits(a: nat, log2: nat, e: nat, l: nat, s: nat, r: nat)
    requires Pow(2, log2) <= a && 0 < r <= Pow(2, l) && s == l + Max(e - log2, 0)
    ensures Pow(2, e) <= StickyQuotient(a, s, r)
  {
    var extra := Max(e - log2, 0);
    PowAdd(2, l, extra);
    ExtraCovers(a, log2, e, extra);
    ShiftedQuotient(a, Pow(2, s), Pow(2, l), Pow(2, extra), Pow(2, e), r);
  }

  lemma ExtraCovers(a: nat, log2: nat, e: nat, extra: nat)
    requires Pow(2, log2) <= a && e <= log2 + extra
    ensures Pow(2, e) <= a * Pow(2, extra)
  {
    PowAdd(2, log2, extra);
    PowMono(2, e, log2 + extra);
    MulMono(Pow(2, log2), a, Pow(2, extra));
  }

  lemma ShiftedQuotient(a: nat, s: nat, l: nat, x: nat, e: nat, r: nat)
    requires 0 < r <= l && e <= a * x && s == l * x
    ensures e <= a * s / r
  {
    MulAssoc(a, x, l);
    MulMono(e, a * x, l);
    MulMono(r, l, e);
    QuotientBound(a * s, r, e);
  }

  lemma QuotientBound(n: nat, r: nat, e: nat)
    requires r > 0 && e * r <= n
    ensures e <= n / r
  {
    DivParts(n, r);
    MulDistrib(r, n / r, 1);
    MulCancelStrict(e, n / r + 1, r);
  }

  /** There is room for the number shifted up by `shift` bits. */
  ghost predicate HasRoom(a: Mpb, shift: nat)
    reads a
  {
    a.len + shift / 32 + 1 <= a.tab.Length
  }

  /** mul_pow with a negative power of an odd radix. */
  method DivideScaled(a: Mpb, radix1: nat, radixShift: nat, f: nat, isInt: bool, e: int)
      returns (eOffset: int, ghost s: nat)
    requires a.Valid() && a.Normal() && a.Val() > 0 && OddRadix(radix1)
    requires HasRoom(a, PreShift(radix1, radixShift, f, isInt, e, 32 * (a.len - 1)))
    modifies a, a.tab
    ensures a.Valid() && a.Normal() && eOffset == f * radixShift + s
    ensures a.len <= old(a.len) + PreShift(radix1, radixShift, f, isInt, e, 32 * (old(a.len) - 1)) / 32 + 1
    ensures a.Val() == StickyQuotient(old(a.Val()), s, Pow(radix1, f))
    ensures isInt ==> eOffset >= 2 + e
    ensures !isInt && e >= 0 ==> Pow(2, e) <= a.Val()
  {
    var log2 := a.FloorLog2();
    var l := Chunks(radix1, f);
    eOffset := f * radixShift + l * 32;
    var extra := ExtraBits(isInt, e, log2, eOffset);
    eOffset := eOffset + extra;
    s := l * 32 + extra;
    ghost var v := a.Val();
    PowerBelowChunks(radix1, f);
    if !isInt && e >= 0 { EnoughBits(v, log2, e, 32 * l, s, Pow(radix1, f)); }
    a.ShiftUp(l * 32 + extra);
    var inexact := DividePower(a, radix1, f);
    if inexact { a.SetLowBit(); }
  }

  /** A radix between 2 and 36 as its odd part and a power of two. */
  ghost predicate IsRadix(radix: nat, radix1: nat, radixShift: nat) {
    radix == radix1 * Pow(2, radixShift) && radix > 0 && (radix1 == 1 || OddRadix(radix1))
  }

  /** Limbs mul_pow needs beyond those of the number. */
  function RoomFor(radix1: nat, radixShift: nat, f: int, isInt: bool, e: int, log2: int): (r: nat)
    requires radix1 == 1 || OddRadix(radix1)
  {
    if radix1 == 1 then 0
    else if f >= 0 then Chunks(radix1, f)
    else PreShift(radix1, radixShift, -f, isInt, e, log2) / 32 + 1
  }

  lemma OnePower(f: nat)
    ensures Pow(1, f) == 1
  {
    if f > 0 { OnePower(f - 1); }
  }

  /** mul_pow: what is left in the number, and the power of two still to be divided by. */
  method MulPow(a: Mpb, radix1: nat, radixShift: nat, f: int, isInt: bool, e: int)
      returns (eOffset: int, ghost s: nat)
    requires a.Valid() && a.Normal() && a.Val() > 0 && (radix1 == 1 || OddRadix(radix1))
    requires a.len + RoomFor(radix1, radixShift, f, isInt, e, 32 * (a.len - 1)) <= a.tab.Length
    modifies a, a.tab
    ensures a.Valid() && a.Normal() && a.Val() > 0
    ensures f >= 0 ==> a.Val() == old(a.Val()) * Pow(radix1, f) && eOffset == -f * radixShift
    ensures f < 0 && radix1 == 1 ==> a.Val() == old(a.Val()) && eOffset == -f * radixShift
    ensures f < 0 && radix1 != 1 ==>
              a.Val() == StickyQuotient(old(a.Val()), s, Pow(radix1, -f)) && eOffset == -f * radixShift + s
              && (isInt ==> eOffset >= 2 + e) && (!isInt && e >= 0 ==> Pow(2, e) <= a.Val())
    ensures a.len <= old(a.len) + RoomFor(radix1, radixShift, f, isInt, e, 32 * (old(a.len) - 1))
  {
    eOffset, s := -f * radixShift, 0;
    if radix1 == 1 {
      if f >= 0 { OnePower(f); }
    } else if f >= 0 {
      MultiplyPower(a, radix1, f);
    } else {
      eOffset, s := DivideScaled(a, radix1, radixShift, -f, isInt, e);
    }
  }

  /** Limbs mul_pow_round needs in all. */
  function RoundRoom(radix1: nat, radixShift: nat, f: int, e: int): (r: nat)
    requires radix1 == 1 || OddRadix(radix1)
  {
    2 + RoomFor(radix1, radixShift, f, true, e, 0)
    + (if f >= 0 || radix1 == 1 then Pos(e + f * radixShift) / 32 + 1 else 0)
  }

  /** mul_pow_round: m * 2^e * radix^f, rounded exactly as the mode asks. */
  method MulPowRound(a: Mpb, m: nat, e: int, ghost radix: nat, radix1: nat, radixShift: nat, f: int, mode: Mode)
    requires 0 < m < BASE * BASE && IsRadix(radix, radix1, radixShift)
    requires RoundRoom(radix1, radixShift, f, e) <= a.tab.Length
    modifies a, a.tab
    ensures a.Valid() && a.Normal() && a.Val() == RoundScaled(mode, m, e, radix, f)
  {
    a.SetU64(m);
    IntRoom(radix1, radixShift, f, e, 32 * (a.len - 1));
    ghost var s;
    var eOffset;
    eOffset, s := MulPow(a, radix1, radixShift, f, true, e);
    FinalShift(mode, m, e, radix, radix1, radixShift, f, s, a.Val(), -e + eOffset);
    ShrRound(a, -e + eOffset, mode);
  }

  /** Whole numbers do not need the logarithm. */
  lemma IntRoom(radix1: nat, radixShift: nat, f: int, e: int, log2: int)
    requires radix1 == 1 || OddRadix(radix1)
    ensures RoomFor(radix1, radixShift, f, true, e, log2) == RoomFor(radix1, radixShift, f, true, e, 0)
  {
  }

  /** mpb_shr_round by a shift of either sign. */
  method ShrRound(a: Mpb, shift: int, mode: Mode)
    requires a.Valid() && (shift < 0 ==> a.len + -shift / 32 + 1 <= a.tab.Length)
    modifies a, a.tab
    ensures a.Valid() && (old(a.Normal()) && (shift >= 0 || old(a.Val()) > 0) ==> a.Normal())
    ensures a.Val() == if shift > 0 then Round(mode, old(a.Val()), Pow(2, shift)) else old(a.Val()) * Pow(2, -shift)
  {
    if shift > 0 {
      a.ShrRound(shift, mode);
    } else if shift < 0 {
      a.ShiftUp(-shift);
    }
  }

  /** Whatever mul_pow left, the last shift makes it the exact result. */
  lemma FinalShift(mode: Mode, m: nat, e: int, radix: nat, radix1: nat, radixShift: nat, f: int, s: nat, v: nat,
                   shift: int)
    requires 0 < m && IsRadix(radix, radix1, radixShift)
    requires f >= 0 ==> v == m * Pow(radix1, f) && shift == -e - f * radixShift
    requires f < 0 && radix1 == 1 ==> v == m && shift == -e - f * radixShift
    requires f < 0 && radix1 != 1 ==>
               v == StickyQuotient(m, s, Pow(radix1, -f)) && shift == -e - f * radixShift + s && shift >= 2
    ensures RoundScaled(mode, m, e, radix, f)
         == if shift > 0 then Round(mode, v, Pow(2, shift)) else v * Pow(2, -shift)
  {
    if f >= 0 {
      if shift > 0 {
        ScaledDown(mode, m, e, radix1, radixShift, radix, f, v, radixShift * f, shift);
      } else {
        ScaledUp(mode, m, e, radix1, radixShift, radix, f, v, radixShift * f, -shift);
      }
    } else if radix1 == 1 {
      if shift > 0 {
        BinaryDown(mode, m, e, radix, radixShift, -f, radixShift * -f, shift);
      } else {
        BinaryUp(mode, m, e, radix, radixShift, -f, radixShift * -f, -shift);
      }
    } else {
      ScaledQuotient(mode, m, e, radix1, radixShift, radix, -f, Pow(radix1, -f), radixShift * -f, s, shift);
    }
  }
}
