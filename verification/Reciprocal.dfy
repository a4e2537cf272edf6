/** Division of two limbs by one with a precomputed reciprocal. */
module Reciprocal {
  import opened Powers
  import opened Limbs

  const HALF: nat := 0x8000_0000

  /** A value kept in a 32-bit word, and in a 64-bit one. */
  function Wrap(x: int): (r: limb) { x % BASE }

  function Wrap64(x: int): (r: nat) { x % 0x1_0000_0000_0000_0000 }

  /** udiv1norm_init. */
  function Inverse(d: limb): (r: nat)
    requires d > 0
  {
    var a1 := Wrap(-(d as int) - 1);
    (a1 * BASE + (BASE - 1)) / d
  }

  /** `n1m` in udiv1norm is all ones when the top bit of `a0` is set, and zero otherwise. */
  function Carried(a1: limb, a0: limb): (r: limb) {
    Wrap(a1 - (if a0 >= HALF then BASE - 1 else 0))
  }

  function Adjusted(a0: limb, d: limb): (r: limb) {
    Wrap(a0 + (if a0 >= HALF then d else 0))
  }

  function Estimate(a1: limb, a0: limb, d: limb, inverse: limb): (r: limb) {
    Wrap(Wrap64(inverse * Carried(a1, a0) + Adjusted(a0, d)) / BASE + a1)
  }

  /** udiv1norm. */
  function Divide(a1: limb, a0: limb, d: limb, inverse: limb): (r: (limb, limb)) {
    var q := Estimate(a1, a0, d, inverse);
    var a := Wrap64(a1 * BASE + a0 - q * d - d);
    var ah := a / BASE;
    (Wrap(q + 1 + ah), Wrap(a % BASE + (if ah == 0 then 0 else d)))
  }

  lemma InverseParts(d: limb) returns (k: nat)
    requires HALF <= d
    ensures 1 <= k <= d && (Inverse(d) + BASE) * d == BASE * BASE - k
    ensures Inverse(d) < BASE
  {
    var n := (BASE - d - 1) * BASE + (BASE - 1);
    assert Wrap(-(d as int) - 1) == BASE - d - 1;
    assert n == BASE * BASE - d * BASE - 1;
    DivParts(n, d);
    k := 1 + n % d;
    assert (Inverse(d) + BASE) * d == Inverse(d) * d + BASE * d by { MulDistrib(d, Inverse(d), BASE); }
    if Inverse(d) >= BASE { MulMono(BASE, Inverse(d), d); MulMono(HALF, d, BASE); }
  }

  /** How far the scaled estimate is below the scaled dividend. */
  lemma EstimateGap(a1: int, a0: int, d: int, v: int, k: int, t: int, b: int)
    requires (v + b) * d == b * b - k && (t == 0 || t == 1)
    ensures var y := a1 * b + v * (a1 + t) + a0 + t * (d - b);
            (a1 * b + a0) * b - y * d == a0 * (b - d) + k * (a1 + t) - t * ((b - d) * (b - d))
  {
    var y := a1 * b + v * (a1 + t) + a0 + t * (d - b);
    assert v * d == b * b - k - b * d by { MulDistrib(d, v, b); }
    assert y * d == a1 * b * d + (a1 + t) * (v * d) + a0 * d + t * (d - b) * d by {
      calc {
        y * d;
        { MulDistrib(d, a1 * b + v * (a1 + t) + a0, t * (d - b)); }
        (a1 * b + v * (a1 + t) + a0) * d + t * (d - b) * d;
        { MulDistrib(d, a1 * b + v * (a1 + t), a0); }
        (a1 * b + v * (a1 + t)) * d + a0 * d + t * (d - b) * d;
        { MulDistrib(d, a1 * b, v * (a1 + t)); }
        a1 * b * d + v * (a1 + t) * d + a0 * d + t * (d - b) * d;
        { assert v * (a1 + t) * d == (a1 + t) * (v * d); }
        a1 * b * d + (a1 + t) * (v * d) + a0 * d + t * (d - b) * d;
      }
    }
  }

  /** The gap is never negative and stays below one divisor. */
  lemma GapBounds(a1: limb, a0: limb, d: limb, k: nat, t: int)
    requires HALF <= d && a1 < d && 1 <= k <= d && t == (if a0 >= HALF then 1 else 0)
    ensures var g := a0 * (BASE - d) + k * (a1 + t) - t * ((BASE - d) * (BASE - d));
            0 <= g <= d * BASE
  {
    var c := BASE - d;
    MulMono(k, d, a1 + t);
    MulMono(0, k, a1 + t);
    if t == 0 {
      MulMono(a0, d, c);
      MulMono(0, a0, c);
      MulMono(a1, d, d);
      assert d * c + d * d == d * BASE by { MulDistrib(d, c, d); }
    } else {
      assert a0 * c - c * c == (a0 - c) * c by { MulDistrib(c, a0 - c, c); }
      MulMono(0, a0 - c, c);
      MulMono(a0 - c, d, c);
      MulMono(a1 + 1, d, d);
      assert d * c + d * d == d * BASE by { MulDistrib(d, c, d); }
    }
  }

  /** The estimate is the quotient or one less. */
  lemma EstimateIsClose(n: int, d: int, b: int, y: int, q: int)
    requires 0 < d && 0 < b && q * b <= y < q * b + b && 0 <= n * b - y * d <= d * b
    ensures 0 <= n - q * d < 2 * d
  {
    assert y * d <= (q * b + b - 1) * d by { MulMono(y, q * b + b - 1, d); }
    assert q * b * d <= y * d by { MulMono(q * b, y, d); }
    assert (q * b + b - 1) * d == q * d * b + d * b - d by {
      MulDistrib(d, q * b, b - 1);
      assert q * b * d == q * d * b;
      assert (b - 1) * d == d * b - d;
    }
    MulCancel(q * d, n, b);
    assert n * b < (q * d + 2 * d) * b by { MulDistrib(b, q * d, 2 * d); }
    MulCancelStrict(n, q * d + 2 * d, b);
  }

  /** The estimate computed without wrapping. */
  lemma EstimateUnwrapped(a1: limb, a0: limb, d: limb, v: nat, k: nat, t: int, x: int, q: int)
    requires HALF <= d && a1 < d && 1 <= k <= d && (v + BASE) * d == BASE * BASE - k
    requires t == (if a0 >= HALF then 1 else 0) && x == v * (a1 + t) + a0 + t * (d - BASE)
    requires q * BASE <= a1 * BASE + x < q * BASE + BASE
    ensures 0 <= a1 * BASE + a0 - q * d < 2 * d
  {
    EstimateGap(a1, a0, d, v, k, t, BASE);
    GapBounds(a1, a0, d, k, t);
    EstimateIsClose(a1 * BASE + a0, d, BASE, a1 * BASE + x, q);
  }

  lemma Product(v: nat, c: nat, adjusted: limb)
    requires v < BASE && c < BASE
    ensures 0 <= v * c + adjusted < BASE * BASE
  {
    MulMono(v, BASE - 1, c);
    MulMono(0, v, c);
  }

  lemma QuotientFits(n: int, d: limb, q: int)
    requires 0 <= n - q * d && n < d * BASE && d > 0
    ensures q < BASE
  {
    MulCancelStrict(q, BASE, d);
  }

  lemma Operands(a1: limb, a0: limb, d: limb, t: int)
    requires HALF <= d && a1 < d && t == (if a0 >= HALF then 1 else 0)
    ensures Carried(a1, a0) == a1 + t && Adjusted(a0, d) == a0 + t * (d - BASE)
  {
  }

  lemma EstimateWraps(a1: limb, a0: limb, d: limb, v: limb, x: nat)
    requires x == v * Carried(a1, a0) + Adjusted(a0, d) && x < BASE * BASE && x / BASE + a1 < BASE
    ensures Estimate(a1, a0, d, v) == x / BASE + a1
  {
    assert Wrap64(x) == x;
  }

  /** The first part of udiv1norm: an estimate of the quotient that is at most one too small. */
  lemma EstimateQuotient(a1: limb, a0: limb, d: limb)
    requires HALF <= d && a1 < d
    ensures Inverse(d) < BASE
    ensures 0 <= a1 * BASE + a0 - Estimate(a1, a0, d, Inverse(d)) * d < 2 * d
  {
    var k := InverseParts(d);
    var v, t := Inverse(d), if a0 >= HALF then 1 else 0;
    var x := v * Carried(a1, a0) + Adjusted(a0, d);
    Operands(a1, a0, d, t);
    Product(v, Carried(a1, a0), Adjusted(a0, d));
    var q := x / BASE + a1;
    EstimateUnwrapped(a1, a0, d, v, k, t, x, q);
    MulMono(a1 + 1, d, BASE);
    QuotientFits(a1 * BASE + a0, d, q);
    EstimateWraps(a1, a0, d, v, x);
  }

  /** The second part: one more when a whole divisor is left. */
  lemma Correct(n: nat, d: limb, q: limb)
    requires HALF <= d && 0 <= n - q * d < 2 * d && n < d * BASE
    ensures var a := Wrap64(n - q * d - d);
            var ah := a / BASE;
            ah < BASE && Wrap(q + 1 + ah) == n / d && Wrap(a % BASE + (if ah == 0 then 0 else d)) == n % d
  {
    var rest := n - q * d;
    if rest < d {
      DivUnique(n, d, q, rest);
      var a := Wrap64(rest - d);
      assert a == BASE * BASE + rest - d;
      DivUnique(a, BASE, BASE - 1, BASE + rest - d);
    } else {
      DivUnique(n, d, q + 1, rest - d);
      assert Wrap64(rest - d) == rest - d;
      MulCancelStrict(n / d, BASE, d);
    }
  }

  /** udiv1norm divides two limbs exactly, with nothing but the reciprocal of udiv1norm_init. */
  lemma DivideIsExact(a1: limb, a0: limb, d: limb)
    requires HALF <= d && a1 < d
    ensures Inverse(d) < BASE
    ensures Divide(a1, a0, d, Inverse(d)) == ((a1 * BASE + a0) / d, (a1 * BASE + a0) % d)
  {
    EstimateQuotient(a1, a0, d);
    MulMono(a1 + 1, d, BASE);
    Correct(a1 * BASE + a0, d, Estimate(a1, a0, d, Inverse(d)));
  }
}
