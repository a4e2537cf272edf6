/** Exact rounding of quotients, and why one sticky bit is enough. */
module Rounding {
  import opened Powers

  /** To nearest with ties to even, to nearest with ties away from zero, toward zero. */
  datatype Mode = NearestEven | NearestAway | TowardZero

  /** Whether a quotient with remainder `r` of divisor `d` is rounded up. */
  predicate RoundsUp(mode: Mode, q: nat, r: nat, d: nat) {
    match mode
    case TowardZero => false
    case NearestAway => 2 * r >= d
    case NearestEven => 2 * r > d || (2 * r == d && q % 2 == 1)
  }

  /** n / d rounded to an integer. */
  function Round(mode: Mode, n: nat, d: nat): (r: nat)
    requires d > 0
  {
    n / d + (if RoundsUp(mode, n / d, n % d, d) then 1 else 0)
  }

  /** Rounding depends on the quotient only. */
  lemma RoundScale(mode: Mode, n: nat, d: nat, c: nat)
    requires d > 0 && c > 0
    ensures d * c > 0 && Round(mode, n * c, d * c) == Round(mode, n, d)
  {
    DivScale(n, d, c);
    var r := n % d;
    assert 2 * (r * c) >= d * c <==> 2 * r >= d by { ScaleCompare(2 * r, d, c); }
    assert 2 * (r * c) <= d * c <==> 2 * r <= d by { ScaleCompare(d, 2 * r, c); }
  }

  /** Equal quotients round alike. */
  lemma RoundCross(mode: Mode, a: nat, b: nat, c: nat, d: nat)
    requires b > 0 && d > 0 && a * d == c * b
    ensures Round(mode, a, b) == Round(mode, c, d)
  {
    RoundScale(mode, a, b, d);
    RoundScale(mode, c, d, b);
  }

  lemma ScaleCompare(a: int, b: int, c: int)
    requires c > 0
    ensures a * c >= b * c <==> a >= b
  {
    if a >= b { MulMono(b, a, c); } else { MulStrict(a, b, c); }
  }

  /** Nearest rounding is within half a unit. */
  lemma RoundClose(mode: Mode, n: nat, d: nat)
    requires d > 0 && mode != TowardZero
    ensures -(d as int) <= 2 * (n - Round(mode, n, d) * d) <= d
  {
    DivParts(n, d);
    var q := n / d;
    MulDistrib(d, q, 1);
  }

  lemma RoundExact(mode: Mode, q: nat, d: nat)
    requires d > 0
    ensures Round(mode, q * d, d) == q
  {
    DivUnique(q * d, d, q, 0);
  }

  // ----- the sticky bit -----

  /** `tab[0] |= (rem != 0)`. */
  function Sticky(q: nat, inexact: bool): (r: nat) {
    if inexact && q % 2 == 0 then q + 1 else q
  }

  lemma ParityOfRemainder(q: nat, d: nat)
    requires d > 0 && d % 2 == 0
    ensures q % 2 == (q % d) % 2
  {
    var k, h := q / d, d / 2;
    DivParts(q, d);
    assert k * d == 2 * (k * h) by { MulAssoc(k, h, 2); }
  }

  /** The quotient by a multiple of four does not see the last bit, and the comparison with one
      half sees it only as "more than zero". */
  lemma StickyParts(q: nat, inexact: bool, d: nat)
    requires d > 0 && d % 4 == 0
    ensures Sticky(q, inexact) / d == q / d && Sticky(q, inexact) % d == Sticky(q % d, inexact)
  {
    ParityOfRemainder(q, d);
    DivParts(q, d);
    DivUnique(Sticky(q, inexact), d, q / d, Sticky(q % d, inexact));
  }

  /** Only the comparison of twice the remainder with the divisor matters. */
  lemma RoundAlike(mode: Mode, q: nat, r: nat, d: nat, s: nat, e: nat)
    requires (2 * r < d <==> 2 * s < e) && (2 * r == d <==> 2 * s == e)
    ensures RoundsUp(mode, q, r, d) == RoundsUp(mode, q, s, e)
  {
  }

  lemma StickyCompare(r: nat, inexact: bool, d: nat)
    requires d % 4 == 0
    ensures 2 * Sticky(r, inexact) < d <==> 2 * r < d
    ensures 2 * Sticky(r, inexact) == d <==> 2 * r == d && !inexact
  {
  }

  /** Rounding a / m from a quotient q by part of m, with p and t the parts of a by m. */
  lemma StickyFrom(mode: Mode, a: nat, m: nat, t: nat, q: nat, inexact: bool, d: nat)
    requires m > 0 && d > 0 && d % 4 == 0 && a / m == q / d && a % m == t
    requires (2 * t < m <==> 2 * (q % d) < d) && (2 * t == m <==> 2 * (q % d) == d && !inexact)
    ensures Round(mode, Sticky(q, inexact), d) == Round(mode, a, m)
  {
    var s := q % d;
    StickyParts(q, inexact, d);
    StickyCompare(s, inexact, d);
    RoundAlike(mode, q / d, Sticky(s, inexact), d, t, m);
  }

  /** Rounding a / (e * d) from the quotient a / e and whether it was exact. */
  lemma StickyRound(mode: Mode, a: nat, e: nat, d: nat)
    requires e > 0 && d > 0 && d % 4 == 0
    ensures e * d > 0
    ensures Round(mode, Sticky(a / e, a % e != 0), d) == Round(mode, a, e * d)
  {
    var q, r := a / e, a % e;
    var s := q % d;
    DivTwiceParts(a, e, d);
    HalfCompare(s, r, e, d);
    StickyFrom(mode, a, e * d, s * e + r, q, r != 0, d);
  }

  /** Comparing s * e + r with half of e * d. */
  lemma HalfCompare(s: nat, r: nat, e: nat, d: nat)
    requires r < e && d % 2 == 0
    ensures 2 * (s * e + r) < e * d <==> 2 * s < d
    ensures 2 * (s * e + r) == e * d <==> 2 * s == d && r == 0
  {
    var h := d / 2;
    assert e * d == 2 * (h * e) by { MulAssoc(e, h, 2); }
    if s < h {
      MulMono(s + 1, h, e);
    } else if s > h {
      MulMono(h + 1, s, e);
    }
  }
}
