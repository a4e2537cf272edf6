/** Powers that fit in machine words, their tables and their reciprocals. */
module SmallPowers {
  import opened Powers
  import opened Limbs
  import opened LimbDivision
  import opened Reciprocal

  /** The odd part of a radix that is not a power of two. */
  predicate OddRadix(radix: nat) {
    3 <= radix <= 35 && radix % 2 == 1
  }

  /** digits_per_limb_table for 32-bit limbs. */
  function DigitsPerLimb(radix: nat): (r: nat)
    requires 2 <= radix <= 36
  {
    if radix == 2 then 32 else if radix == 3 then 20 else if radix == 4 then 16 else if radix == 5 then 13
    else if radix == 6 then 12 else if radix == 7 then 11 else if radix <= 9 then 10 else if radix <= 11 then 9
    else if radix <= 16 then 8 else if radix <= 23 then 7 else 6
  }

  ghost predicate Fits(radix: nat, d: nat) {
    0 < d && Pow(radix, d) < BASE <= Pow(radix, d + 1)
  }

  lemma PowersOfThree()
    ensures Fits(3, 20)
  {
    PowAdd(3, 10, 10);
    assert Pow(3, 10) == 59049;
    assert Pow(3, 21) == 3 * Pow(3, 20);
  }

  lemma PowersOfFive()
    ensures Pow(5, 13) == 1220703125 && Fits(5, 13)
  {
    assert Pow(5, 14) == 5 * Pow(5, 13);
  }

  lemma SmallRadixes()
    ensures Fits(7, 11) && Fits(9, 10) && Fits(11, 9) && Fits(13, 8) && Fits(15, 8)
  {
    assert Pow(7, 12) == 7 * Pow(7, 11);
  }

  lemma MiddleRadixes()
    ensures Fits(17, 7) && Fits(19, 7) && Fits(21, 7) && Fits(23, 7) && Fits(25, 6)
  {
  }

  lemma LargeRadixes()
    ensures Fits(27, 6) && Fits(29, 6) && Fits(31, 6) && Fits(33, 6) && Fits(35, 6)
  {
  }

  /** That many digits of an odd radix fit in a limb, and one more does not. */
  lemma DigitsFit(radix: nat)
    requires OddRadix(radix)
    ensures Fits(radix, DigitsPerLimb(radix))
  {
    var d := DigitsPerLimb(radix);
    if radix == 3 {
      PowersOfThree();
    } else if radix == 5 {
      PowersOfFive();
    } else if radix <= 15 {
      SmallRadixes();
      assert (radix, d) in [(7, 11), (9, 10), (11, 9), (13, 8), (15, 8)];
    } else if radix <= 25 {
      MiddleRadixes();
      assert (radix, d) in [(17, 7), (19, 7), (21, 7), (23, 7), (25, 6)];
    } else {
      LargeRadixes();
      assert (radix, d) in [(27, 6), (29, 6), (31, 6), (33, 6), (35, 6)];
    }
  }

  // ----- pow_ui -----

  const WORD64: nat := 0x1_0000_0000_0000_0000

  const POW5_LOW: seq<limb> := [
    0x00000005, 0x00000019, 0x0000007d, 0x00000271, 0x00000c35, 0x00003d09, 0x0001312d, 0x0005f5e1, 0x001dcd65,
    0x009502f9, 0x02e90edd, 0x0e8d4a51, 0x48c27395, 0x6bcc41e9, 0x1afd498d, 0x86f26fc1, 0xa2bc2ec5]

  const POW5_HIGH: seq<limb> := [0x01, 0x07, 0x23, 0xb1]

  /** The two tables of powers of five put together. */
  function Pow5(b: nat): (r: nat)
    requires 1 <= b <= 17
  {
    POW5_LOW[b - 1] + (if b >= 14 then POW5_HIGH[b - 14] * BASE else 0)
  }

  lemma Pow5Step(b: nat)
    requires 2 <= b <= 17
    ensures Pow5(b) == 5 * Pow5(b - 1)
  {
  }

  /** The tables of powers of five are right. */
  lemma {:induction false} Pow5IsPower(b: nat)
    requires 1 <= b <= 17
    ensures Pow5(b) == Pow(5, b)
  {
    if b > 1 {
      Pow5IsPower(b - 1);
      Pow5Step(b);
    }
  }

  /** 32 - clz32(b). */
  function BitLength(b: nat): (r: nat) {
    if b == 0 then 0 else 1 + BitLength(b / 2)
  }

  lemma {:induction false} TopBit(b: nat)
    requires b > 0
    ensures BitLength(b) > 0 && b / Pow(2, BitLength(b) - 1) == 1
  {
    if b > 1 {
      TopBit(b / 2);
      DivTwice(b, 2, Pow(2, BitLength(b / 2) - 1));
    }
  }

  /** The bits of b from the i-th up. */
  function BitsFrom(b: nat, i: nat): (r: nat) {
    b / Pow(2, i)
  }

  lemma NoBitsLess(b: nat)
    ensures BitsFrom(b, 0) == b
  {
  }

  lemma NextBit(b: nat, i: nat)
    ensures BitsFrom(b, i) == 2 * BitsFrom(b, i + 1) + BitsFrom(b, i) % 2
  {
    DivTwice(b, Pow(2, i), 2);
    DivParts(b / Pow(2, i), 2);
  }

  lemma PowStep(a: nat, n: nat, bit: nat)
    requires bit <= 1
    ensures Pow(a, 2 * n + bit) == Pow(a, n) * Pow(a, n) * (if bit == 1 then a else 1)
  {
    PowAdd(a, n, n);
    if bit == 1 { assert Pow(a, 2 * n + 1) == a * Pow(a, 2 * n); }
  }

  lemma PartialPower(a: nat, b: nat, i: nat)
    requires a > 0
    ensures Pow(a, BitsFrom(b, i)) <= Pow(a, b)
  {
    MulGrows(b / Pow(2, i), Pow(2, i));
    DivParts(b, Pow(2, i));
    PowMono(a, b / Pow(2, i), b);
  }

  lemma SquareStep(a: nat, n: nat, m: nat, r: nat)
    requires m == 2 * n + m % 2 && r == Pow(a, n)
    ensures Pow(a, m) == r * r * (if m % 2 == 1 then a else 1)
  {
    PowStep(a, n, m % 2);
  }

  /** pow_ui: the tables for 5 and 10, and repeated squaring for the rest; no step overflows when
      the power fits in 64 bits. */
  method PowUi(a: nat, b: nat) returns (r: nat)
    requires a > 0 && Pow(a, b) < WORD64
    ensures r == Pow(a, b)
  {
    if b == 0 {
      return 1;
    }
    if a == 5 && b <= 17 {
      Pow5IsPower(b);
      return Pow5(b);
    }
    if a == 10 && b <= 17 {
      Pow5IsPower(b);
      PowMul(5, 2, b);
      return Pow5(b) * Pow(2, b);
    }
    r := PowBySquaring(a, b);
  }

  method PowBySquaring(a: nat, b: nat) returns (r: nat)
    requires a > 0 && b > 0 && Pow(a, b) < WORD64
    ensures r == Pow(a, b)
  {
    assert Pow(a, 1) == a;
    hide BitLength, Pow, BitsFrom;
    var i := BitLength(b) - 1;
    TopBit(b);
    r := a;
    ghost var n := 1;
    while i > 0
      invariant 0 <= i < BitLength(b) && n == BitsFrom(b, i) && r == Pow(a, n) && r < WORD64
    {
      i := i - 1;
      var m := BitsFrom(b, i);
      NextBit(b, i);
      SquareStep(a, n, m, r);
      PartialPower(a, b, i);
      r := r * r * (if m % 2 == 1 then a else 1);
      n := m;
    }
    NoBitsLess(b);
  }

  // ----- pow_ui_inv -----

  /** clz32. */
  function Clz(x: limb): (r: nat)
    requires x > 0
    decreases BASE - x
  {
    if x >= HALF then 0 else 1 + Clz(2 * x)
  }

  lemma {:induction false} ClzNormalizes(x: limb)
    requires x > 0
    ensures HALF <= x * Pow(2, Clz(x)) < BASE && Clz(x) < 32
    decreases BASE - x
  {
    ClzBound(x, 0);
    if x < HALF {
      ClzNormalizes(2 * x);
      MulAssoc(x, 2, Pow(2, Clz(2 * x)));
    }
  }

  lemma {:induction false} ClzBound(x: limb, k: nat)
    requires k <= 31 && x >= Pow(2, k)
    ensures Clz(x) <= 31 - k
    decreases 31 - k
  {
    if k == 31 {
      WordBase();
    } else if x < HALF {
      ClzBound(2 * x, k + 1);
    }
  }

  const POW5_INVERSE: seq<limb> := [
    0x99999999, 0x47ae147a, 0x0624dd2f, 0xa36e2eb1, 0x4f8b588e, 0x0c6f7a0b, 0xad7f29ab, 0x5798ee23, 0x12e0be82,
    0xb7cdfd9d, 0x5fd7fe17, 0x19799812, 0xc25c2684]

  /** Only one shift normalises a limb. */
  lemma {:induction false} ClzUnique(x: limb, s: nat)
    requires x > 0 && HALF <= x * Pow(2, s) < BASE
    ensures Clz(x) == s
    decreases s
  {
    if s == 0 {
    } else {
      MulAssoc(x, 2, Pow(2, s - 1));
      MulGrows(2 * x, Pow(2, s - 1));
      ClzUnique(2 * x, s - 1);
    }
  }

  /** The powers of five shifted to the top of a limb. */
  const POW5_NORMAL: seq<limb> := [
    0xa0000000, 0xc8000000, 0xfa000000, 0x9c400000, 0xc3500000, 0xf4240000, 0x98968000, 0xbebc2000, 0xee6b2800,
    0x9502f900, 0xba43b740, 0xe8d4a510, 0x9184e72a]

  const POW5_SHIFT: seq<nat> := [29, 27, 25, 22, 20, 18, 15, 13, 11, 8, 6, 4, 1]

  lemma ShiftPowers()
    ensures Pow(2, 1) == 2 && Pow(2, 4) == 16 && Pow(2, 6) == 64 && Pow(2, 8) == 256 && Pow(2, 11) == 2048
    ensures Pow(2, 13) == 8192 && Pow(2, 15) == 32768 && Pow(2, 18) == 262144 && Pow(2, 20) == 1048576
    ensures Pow(2, 22) == 4194304 && Pow(2, 25) == 33554432 && Pow(2, 27) == 134217728 && Pow(2, 29) == 536870912
  {
    assert Pow(2, 8) == 256 && Pow(2, 6) == 64 && Pow(2, 4) == 16 && Pow(2, 11) == 2048 && Pow(2, 13) == 8192;
    PowAdd(2, 11, 4);
    PowAdd(2, 11, 11);
    PowAdd(2, 13, 13);
    assert Pow(2, 18) == 262144 by { PowAdd(2, 11, 7); }
    assert Pow(2, 20) == 1048576 by { PowAdd(2, 11, 9); }
    assert Pow(2, 25) == 33554432 by { PowAdd(2, 13, 12); }
    assert Pow(2, 27) == 134217728 && Pow(2, 29) == 536870912;
  }

  lemma NormalIsShifted(b: nat)
    requires 1 <= b <= 13
    ensures Pow5(b) * Pow(2, POW5_SHIFT[b - 1]) == POW5_NORMAL[b - 1]
  {
    ShiftPowers();
    hide Pow;
  }

  lemma InverseOfNormal(b: nat)
    requires 1 <= b <= 13
    ensures Inverse(POW5_NORMAL[b - 1]) == POW5_INVERSE[b - 1]
  {
  }

  /** The reciprocals in the table are those udiv1norm_init computes. */
  lemma Pow5InverseIsInverse(b: nat)
    requires 1 <= b <= 13
    ensures var d := Pow5(b) * Pow(2, Clz(Pow5(b)));
            0 < d < BASE && POW5_INVERSE[b - 1] == Inverse(d)
  {
    NormalIsShifted(b);
    ClzUnique(Pow5(b), POW5_SHIFT[b - 1]);
    InverseOfNormal(b);
  }

  /** pow_ui_inv: the power shifted to the top of a limb, with its reciprocal. */
  method PowUiInverse(a: nat, b: nat) returns (r: limb, inverse: limb, shift: nat)
    requires a > 0 && Pow(a, b) < BASE
    ensures shift < 32 && r == Pow(a, b) * Pow(2, shift) && HALF <= r && inverse == Inverse(r)
  {
    var power := PowUi(a, b);
    shift := Clz(power);
    ClzNormalizes(power);
    r := power * Pow(2, shift);
    if a == 5 && 1 <= b <= 13 {
      Pow5IsPower(b);
      Pow5InverseIsInverse(b);
      inverse := POW5_INVERSE[b - 1];
    } else {
      var k := InverseParts(r);
      inverse := Inverse(r);
    }
  }
}
