/** The exact value of m * 2^e * radix^f, and what scaling by powers of two does to its rounding. */
module ExactScaling {
  import opened Powers
  import opened Rounding

  function Pos(e: int): (r: nat) { if e > 0 then e else 0 }

  function Neg(e: int): (r: nat) { if e < 0 then -e else 0 }

  /** m * 2^e * radix^f as a fraction. */
  function Num(m: nat, e: int, radix: nat, f: int): (r: nat) {
    m * Pow(2, Pos(e)) * Pow(radix, Pos(f))
  }

  function Den(e: int, radix: nat, f: int): (d: nat)
    requires radix > 0
    ensures d > 0
  {
    Product(Pow(2, Neg(e)), Pow(radix, Neg(f)));
    Pow(2, Neg(e)) * Pow(radix, Neg(f))
  }

  lemma Product(a: nat, b: nat)
    requires a > 0 && b > 0
    ensures a * b > 0
  {
    MulMono(1, a, b);
  }

  /** m * 2^e * radix^f rounded to an integer. */
  function RoundScaled(mode: Mode, m: nat, e: int, radix: nat, f: int): (r: nat)
    requires radix > 0
  {
    Round(mode, Num(m, e, radix, f), Den(e, radix, f))
  }

  /** A power of the radix splits into its odd part and a power of two. */
  lemma RadixPower(radix1: nat, shift: nat, radix: nat, f: nat)
    requires radix == radix1 * Pow(2, shift)
    ensures Pow(radix, f) == Pow(radix1, f) * Pow(2, shift * f)
  {
    PowMul(radix1, Pow(2, shift), f);
    PowPow(2, shift, f);
  }

  /** c * 2^x * 2^y regrouped. */
  lemma Regroup(c: nat, x: nat, y: nat, z: nat)
    requires z == x + y
    ensures c * Pow(2, x) * Pow(2, y) == c * Pow(2, z)
  {
    PowAdd(2, x, y);
    MulAssoc(c, Pow(2, x), Pow(2, y));
  }

  /** The numerator with a power that is not negative; c is the odd part, w the exponent of two. */
  lemma NumUp(m: nat, e: int, radix1: nat, shift: nat, radix: nat, f: nat, c: nat, w: nat)
    requires radix == radix1 * Pow(2, shift) && radix > 0 && c == m * Pow(radix1, f) && w == shift * f
    ensures Num(m, e, radix, f) == c * Pow(2, Pos(e) + w)
    ensures Den(e, radix, f) == Pow(2, Neg(e))
  {
    var p, r, t := Pow(2, Pos(e)), Pow(radix1, f), Pow(2, w);
    RadixPower(radix1, shift, radix, f);
    PowAdd(2, Pos(e), w);
    Exchange(m, p, r, t);
  }

  lemma RoundMultiple(mode: Mode, n: nat, d: nat, q: nat)
    requires d > 0 && q * d == n
    ensures Round(mode, n, d) == q
  {
    RoundExact(mode, q, d);
  }

  lemma UpFraction(mode: Mode, c: nat, pos: nat, neg: nat, up: nat, w: nat)
    requires up + neg == pos + w
    ensures Round(mode, c * Pow(2, pos + w), Pow(2, neg)) == c * Pow(2, up)
  {
    Regroup(c, up, neg, pos + w);
    RoundMultiple(mode, c * Pow(2, pos + w), Pow(2, neg), c * Pow(2, up));
  }

  lemma DownFraction(mode: Mode, c: nat, pos: nat, neg: nat, down: nat, w: nat)
    requires down + pos + w == neg
    ensures Round(mode, c * Pow(2, pos + w), Pow(2, neg)) == Round(mode, c, Pow(2, down))
  {
    Regroup(c, pos + w, down, neg);
    RoundCross(mode, c, Pow(2, down), c * Pow(2, pos + w), Pow(2, neg));
  }

  /** No rounding is needed when the exponents are large enough. */
  lemma ScaledUp(mode: Mode, m: nat, e: int, radix1: nat, shift: nat, radix: nat, f: nat, c: nat, w: nat, up: nat)
    requires radix == radix1 * Pow(2, shift) && radix > 0 && c == m * Pow(radix1, f) && w == shift * f && up == e + w
    ensures RoundScaled(mode, m, e, radix, f) == c * Pow(2, up)
  {
    NumUp(m, e, radix1, shift, radix, f, c, w);
    UpFraction(mode, c, Pos(e), Neg(e), up, w);
  }

  /** Otherwise one rounding shift is exact. */
  lemma ScaledDown(mode: Mode, m: nat, e: int, radix1: nat, shift: nat, radix: nat, f: nat, c: nat, w: nat, down: nat)
    requires radix == radix1 * Pow(2, shift) && radix > 0 && c == m * Pow(radix1, f) && w == shift * f
    requires down == -(e + w)
    ensures RoundScaled(mode, m, e, radix, f) == Round(mode, c, Pow(2, down))
  {
    NumUp(m, e, radix1, shift, radix, f, c, w);
    DownFraction(mode, c, Pos(e), Neg(e), down, w);
  }

  /** v * 2^s / r with what the division lost kept in the last bit. */
  function StickyQuotient(v: nat, s: nat, r: nat): (result: nat)
    requires r > 0
  {
    var n := v * Pow(2, s);
    Sticky(n / r, n % r != 0)
  }

  /** The fraction with a negative power of odd part r. */
  lemma NumDown(m: nat, e: int, radix1: nat, shift: nat, radix: nat, f: nat, r: nat, w: nat)
    requires radix == radix1 * Pow(2, shift) && radix > 0 && f > 0 && r == Pow(radix1, f) && w == shift * f
    ensures Num(m, e, radix, 0 - f) == m * Pow(2, Pos(e)) && Den(e, radix, 0 - f) == Pow(2, Neg(e)) * (r * Pow(2, w))
  {
    RadixPower(radix1, shift, radix, f);
  }

  lemma QuotientFraction(mode: Mode, m: nat, e: int, r: nat, w: nat, s: nat, down: nat)
    requires r > 0 && down == -e + w + s && down >= 2
    ensures Pow(2, Neg(e)) * (r * Pow(2, w)) > 0
    ensures Round(mode, StickyQuotient(m, s, r), Pow(2, down))
         == Round(mode, m * Pow(2, Pos(e)), Pow(2, Neg(e)) * (r * Pow(2, w)))
  {
    var n, d := m * Pow(2, s), Pow(2, down);
    Product(r, Pow(2, w));
    Product(Pow(2, Neg(e)), r * Pow(2, w));
    MultipleOfFour(down);
    StickyRound(mode, n, r, d);
    QuotientCross(m, e, r, w, s, down);
    RoundCross(mode, n, r * d, m * Pow(2, Pos(e)), Pow(2, Neg(e)) * (r * Pow(2, w)));
  }

  lemma MultipleOfFour(k: nat)
    requires k >= 2
    ensures Pow(2, k) % 4 == 0
  {
    var z := Pow(2, k - 2);
    assert Pow(2, k - 1) == 2 * z && Pow(2, k) == 4 * z;
    hide Pow;
    assert 4 * z % 4 == 0;
  }

  /** With a negative power, the sticky quotient followed by one rounding shift is exact. */
  lemma ScaledQuotient(mode: Mode, m: nat, e: int, radix1: nat, shift: nat, radix: nat, f: nat, r: nat, w: nat,
                       s: nat, down: nat)
    requires radix == radix1 * Pow(2, shift) && radix > 0 && f > 0 && r == Pow(radix1, f) > 0 && w == shift * f
    requires down == -e + w + s && down >= 2
    ensures RoundScaled(mode, m, e, radix, 0 - f) == Round(mode, StickyQuotient(m, s, r), Pow(2, down))
  {
    NumDown(m, e, radix1, shift, radix, f, r, w);
    QuotientFraction(mode, m, e, r, w, s, down);
  }

  /** Both fractions are m * 2^e / (r * 2^w). */
  lemma QuotientCross(m: nat, e: int, r: nat, w: nat, s: nat, down: nat)
    requires down == -e + w + s
    ensures m * Pow(2, s) * (Pow(2, Neg(e)) * (r * Pow(2, w))) == m * Pow(2, Pos(e)) * (r * Pow(2, down))
  {
    hide Pow;
    InnerProduct(Neg(e), r, w, Neg(e) + w);
    OuterProduct(m, s, r, Neg(e) + w, s + Neg(e) + w);
    OuterProduct(m, Pos(e), r, down, s + Neg(e) + w);
  }

  lemma OuterProduct(m: nat, x: nat, r: nat, y: nat, k: nat)
    requires k == x + y
    ensures m * Pow(2, x) * (r * Pow(2, y)) == (m * r) * Pow(2, k)
  {
    hide Pow;
    Exchange(m, Pow(2, x), r, Pow(2, y));
    PowAdd(2, x, y);
  }

  lemma InnerProduct(x: nat, r: nat, y: nat, k: nat)
    requires k == x + y
    ensures Pow(2, x) * (r * Pow(2, y)) == r * Pow(2, k)
  {
    hide Pow;
    PowAdd(2, x, y);
    MulAssoc(r, Pow(2, x), Pow(2, y));
  }

  // ----- radixes that are powers of two -----

  lemma BinaryFraction(m: nat, e: int, radix: nat, shift: nat, f: nat, w: nat)
    requires radix == Pow(2, shift) && f > 0 && w == shift * f
    ensures Num(m, e, radix, 0 - f) == m * Pow(2, Pos(e)) && Den(e, radix, 0 - f) == Pow(2, Neg(e)) * Pow(2, w)
  {
    PowPow(2, shift, f);
  }

  lemma BinaryDown(mode: Mode, m: nat, e: int, radix: nat, shift: nat, f: nat, w: nat, down: nat)
    requires radix == Pow(2, shift) && f > 0 && w == shift * f && down == -e + w
    ensures RoundScaled(mode, m, e, radix, 0 - f) == Round(mode, m, Pow(2, down))
  {
    hide Pow;
    BinaryFraction(m, e, radix, shift, f, w);
    PowAdd(2, Neg(e), w);
    PowAdd(2, Pos(e), down);
    MulAssoc(m, Pow(2, Pos(e)), Pow(2, down));
    RoundCross(mode, m, Pow(2, down), Num(m, e, radix, 0 - f), Den(e, radix, 0 - f));
  }

  lemma BinaryUp(mode: Mode, m: nat, e: int, radix: nat, shift: nat, f: nat, w: nat, up: nat)
    requires radix == Pow(2, shift) && f > 0 && w == shift * f && up == e - w
    ensures RoundScaled(mode, m, e, radix, 0 - f) == m * Pow(2, up)
  {
    hide Pow;
    BinaryFraction(m, e, radix, shift, f, w);
    PowAdd(2, Neg(e), w);
    Regroup(m, up, Neg(e) + w, Pos(e));
    RoundMultiple(mode, Num(m, e, radix, 0 - f), Den(e, radix, 0 - f), m * Pow(2, up));
  }
}
