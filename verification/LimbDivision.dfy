/** Shifts and divisions of arrays of limbs, in place. */
module LimbDivision {
  import opened Powers
  import opened Limbs
  import opened Reciprocal

  /** Limbs from `i` on are new, those below are still those of `was`. */
  ghost predicate Below(now: seq<limb>, was: seq<limb>, i: nat) {
    |now| == |was| && i <= |now| && now[..i] == was[..i]
  }

  /** One limb of a pass from the top that divides by `b`. */
  lemma DivStep(v: int, w: int, p: int, b: int, r: int, r0: int, x: int, q: int, s: int)
    requires v * b + r == w + p * r0 && r * BASE + x == q * b + s
    ensures (q + BASE * v) * b + s == (x + BASE * w) + BASE * p * r0
  {
    calc {
      (q + BASE * v) * b + s;
      { MulDistrib(b, q, BASE * v); MulAssoc(BASE, v, b); }
      q * b + s + BASE * (v * b);
      r * BASE + x + BASE * (w + p * r0 - r);
      { MulDistrib(BASE, w, p * r0); MulAssoc(BASE, p, r0); }
      (x + BASE * w) + BASE * p * r0;
    }
  }

  /** The part of a division already done, from limb `i` up. */
  ghost predicate Divided(now: seq<limb>, was: seq<limb>, i: nat, b: nat, r: nat, r0: nat) {
    && Below(now, was, i)
    && Value(now[i..]) * b + r == Value(was[i..]) + Pow(BASE, |was| - i) * r0
  }

  lemma DividedStart(was: seq<limb>, b: nat, r0: nat)
    ensures Divided(was, was, |was|, b, r0, r0)
  {
  }

  lemma DivPass(now: seq<limb>, was: seq<limb>, i: nat, b: nat, r: nat, r0: nat, q: limb, s: nat)
    requires 0 < i && Divided(now, was, i, b, r, r0) && r * BASE + now[i - 1] == q * b + s
    ensures Divided(now[i - 1 := q], was, i - 1, b, s, r0)
  {
    var next, k := now[i - 1 := q], i - 1;
    assert now[k] == now[..i][k] == was[k];
    assert next[..k] == now[..i][..k] == was[..k];
    assert next[i..] == now[i..];
    SuffixCons(next, k);
    SuffixCons(was, k);
    assert Pow(BASE, |was| - k) == BASE * Pow(BASE, |was| - i);
    DivStep(Value(now[i..]), Value(was[i..]), Pow(BASE, |was| - i), b, r, r0, now[k], q, s);
  }

  lemma DividedEnd(now: seq<limb>, was: seq<limb>, b: nat, r: nat, r0: nat)
    requires Divided(now, was, 0, b, r, r0)
    ensures Value(now) * b + r == Value(was) + Pow(BASE, |was|) * r0
  {
    assert now[0..] == now && was[0..] == was;
  }

  lemma QuotientIsLimb(r: nat, x: limb, b: nat)
    requires r < b
    ensures (r * BASE + x) / b < BASE
  {
    MulMono(r + 1, b, BASE);
    DivBound(r * BASE + x, b, BASE);
  }

  /** Writing limb `i` of the first `n`. */
  method Write(tab: array<limb>, n: nat, i: nat, x: limb)
    requires i < n <= tab.Length
    modifies tab
    ensures tab[..n] == old(tab[..n])[i := x] && tab[n..] == old(tab[n..])
  {
    tab[i] := x;
  }

  /** mp_div1, source and destination being the same array. */
  method DivSmall(tab: array<limb>, n: nat, b: limb, r0: limb) returns (r: limb)
    requires n <= tab.Length && r0 < b
    modifies tab
    ensures r < b && Value(tab[..n]) * b + r == old(Value(tab[..n])) + Pow(BASE, n) * r0
    ensures tab[n..] == old(tab[n..])
  {
    ghost var was := tab[..n];
    r := r0;
    var i := n;
    DividedStart(was, b, r0);
    while i > 0
      invariant 0 <= i <= n && r < b && Divided(tab[..n], was, i, b, r, r0)
      invariant tab[n..] == old(tab[n..])
    {
      var a1 := r * BASE + tab[i - 1];
      QuotientIsLimb(r, tab[i - 1], b);
      DivParts(a1, b);
      DivPass(tab[..n], was, i, b, r, r0, a1 / b, a1 % b);
      i := i - 1;
      Write(tab, n, i, a1 / b);
      r := a1 % b;
    }
    DividedEnd(tab[..n], was, b, r, r0);
  }

  // ----- shifts -----

  lemma ShiftWidth(s: nat)
    requires 0 < s < 32
    ensures Pow(2, s) * Pow(2, 32 - s) == BASE
  {
    PowAdd(2, s, 32 - s);
    WordBase();
  }

  lemma WordBase()
    ensures Pow(2, 32) == BASE
  {
    assert Pow(2, 8) == 256;
    PowAdd(2, 8, 8);
    PowAdd(2, 16, 16);
  }

  lemma ShiftParts(x: limb, s: nat)
    requires 0 < s < 32
    ensures (x * Pow(2, s)) / BASE == x / Pow(2, 32 - s)
    ensures (x * Pow(2, s)) % BASE <= BASE - Pow(2, s)
    ensures x / Pow(2, 32 - s) < Pow(2, s)
  {
    var p, c := Pow(2, s), Pow(2, 32 - s);
    ShiftWidth(s);
    DivScale(x, c, p);
    MulMono(x % c, c - 1, p);
    MulDistrib(p, c, -1);
    DivBound(x, c, p);
  }

  /** mp_shl, source and destination being the same array. */
  method ShiftLeft(tab: array<limb>, n: nat, shift: nat, low: limb) returns (l: limb)
    requires n <= tab.Length && 0 < shift < 32 && low < Pow(2, shift)
    modifies tab
    ensures Value(tab[..n]) + Pow(BASE, n) * l == old(Value(tab[..n])) * Pow(2, shift) + low
    ensures tab[n..] == old(tab[n..])
    ensures l < Pow(2, shift)
  {
    ghost var was := tab[..];
    var p, c := Pow(2, shift), Pow(2, 32 - shift);
    l := low;
    var i := 0;
    while i < n
      invariant 0 <= i <= n && Done(tab[..], was, i) && l < p
      invariant Value(tab[..][..i]) + Pow(BASE, i) * l == Value(was[..i]) * p + low
    {
      var a := tab[i];
      ShiftParts(a, shift);
      var lo := (a * p) % BASE + l;
      DivParts(a * p, BASE);
      MulPass(tab[..], was, i, p, l, low, lo, a / c);
      tab[i] := lo;
      l := a / c;
      i := i + 1;
    }
    DoneSuffix(tab[..], was, i, n);
    assert tab[..][..n] == tab[..n] && was[..n] == old(tab[..n]);
  }

  lemma ShiftRightParts(h: nat, a: limb, p: nat, c: nat)
    requires p > 0 && c > 0 && p * c == BASE && h < p
    ensures h * BASE + a == (a / p + h * c) * p + a % p
    ensures 0 <= a / p + h * c < BASE
  {
    DivParts(a, p);
    MulMono(0, h, c);
    MulAssoc(h, c, p);
    MulDistrib(p, a / p, h * c);
    MulMono(h + 1, p, BASE);
    MulCancelStrict(a / p + h * c, BASE, p);
  }

  /** One limb of a right shift by `shift`, with the low bits `h` of the limb above it. */
  lemma ShiftPass(now: seq<limb>, was: seq<limb>, i: nat, p: nat, c: nat, h: nat, high: nat)
    requires p > 0 && c > 0 && p * c == BASE && h < p
    requires 0 < i && Divided(now, was, i, p, h, high)
    ensures var a := now[i - 1];
            0 <= a / p + h * c < BASE && a % p < p && Divided(now[i - 1 := a / p + h * c], was, i - 1, p, a % p, high)
  {
    var a := now[i - 1];
    ShiftRightParts(h, a, p, c);
    DivPass(now, was, i, p, h, high, a / p + h * c, a % p);
  }

  /** mp_shr, source and destination being the same array. */
  method ShiftRight(tab: array<limb>, n: nat, shift: nat, high: limb) returns (r: limb)
    requires n <= tab.Length && 0 < shift < 32 && high < Pow(2, shift)
    modifies tab
    ensures r < Pow(2, shift) && Value(tab[..n]) * Pow(2, shift) + r == old(Value(tab[..n])) + Pow(BASE, n) * high
    ensures tab[n..] == old(tab[n..])
  {
    ghost var was := tab[..n];
    ShiftWidth(shift);
    r := ShiftRightBy(tab, n, Pow(2, shift), Pow(2, 32 - shift), high);
  }

  method ShiftRightBy(tab: array<limb>, n: nat, p: nat, c: nat, high: limb) returns (r: limb)
    requires n <= tab.Length && 0 < p <= BASE && c > 0 && p * c == BASE && high < p
    modifies tab
    ensures r < p && Value(tab[..n]) * p + r == old(Value(tab[..n])) + Pow(BASE, n) * high
    ensures tab[n..] == old(tab[n..])
  {
    ghost var was := tab[..n];
    r := high;
    var i := n;
    DividedStart(was, p, high);
    while i > 0
      invariant 0 <= i <= n && r < p && Divided(tab[..n], was, i, p, r, high)
      invariant tab[n..] == old(tab[n..])
    {
      var a := tab[i - 1];
      ShiftPass(tab[..n], was, i, p, c, r, high);
      i := i - 1;
      Write(tab, n, i, a / p + r * c);
      r := a % p;
    }
    DividedEnd(tab[..n], was, p, r, high);
  }

  // ----- division with a reciprocal -----

  /** The loop of mp_div1norm, divisor already normalised. */
  method DivByInverse(tab: array<limb>, n: nat, b: limb, r0: limb, inverse: limb) returns (r: limb)
    requires n <= tab.Length && HALF <= b && r0 < b && inverse == Inverse(b)
    modifies tab
    ensures r < b && Value(tab[..n]) * b + r == old(Value(tab[..n])) + Pow(BASE, n) * r0
    ensures tab[n..] == old(tab[n..])
  {
    ghost var was := tab[..n];
    r := r0;
    var i := n;
    DividedStart(was, b, r0);
    while i > 0
      invariant 0 <= i <= n && r < b && Divided(tab[..n], was, i, b, r, r0)
      invariant tab[n..] == old(tab[n..])
    {
      var (q, rest) := Divide(r, tab[i - 1], b, inverse);
      DivideIsExact(r, tab[i - 1], b);
      DivParts(r * BASE + tab[i - 1], b);
      DivPass(tab[..n], was, i, b, r, r0, q, rest);
      i := i - 1;
      Write(tab, n, i, q);
      r := rest;
    }
    DividedEnd(tab[..n], was, b, r, r0);
  }

  /** A shifted dividend and divisor leave the quotient alone and shift the remainder. */
  lemma Unshift(v: nat, b: nat, b0: nat, p: nat, r: nat, total: nat)
    requires p > 0 && b == b0 * p && v * b + r == total * p && r < b
    ensures v * b0 + r / p == total && 0 <= r / p < b0 && r / p <= r
  {
    DivParts(r, p);
    MulMono(1, p, r / p);
    DivUnique(r, p, total - v * b0, 0) by {
      assert (total - v * b0) * p == total * p - v * (b0 * p) by {
        MulDistrib(p, total, -(v * b0));
        MulAssoc(v, b0, p);
      }
    }
    MulCancelStrict(r / p, b0, p);
  }

  /** mp_div1norm, source and destination being the same array: `b` is the divisor `b0` shifted
      left until its top bit is set. Quotient and remainder are those of mp_div1 by `b0`. */
  method DivNormalized(tab: array<limb>, n: nat, b: limb, r0: limb, inverse: limb, shift: nat, ghost b0: nat)
      returns (r: limb)
    requires n <= tab.Length && shift < 32 && HALF <= b && b == b0 * Pow(2, shift) && inverse == Inverse(b) && r0 < b0
    modifies tab
    ensures r < b0 && Value(tab[..n]) * b0 + r == old(Value(tab[..n])) + Pow(BASE, n) * r0
    ensures tab[n..] == old(tab[n..])
  {
    var p := Pow(2, shift);
    ghost var total := Value(tab[..n]) + Pow(BASE, n) * r0;
    var shifted := ShiftDividend(tab, n, shift, p, r0, b, b0, total);
    var rest := DivByInverse(tab, n, b, shifted, inverse);
    r := Lower(rest, p, Value(tab[..n]), b, b0, total);
  }

  /** The remainder shifted back. */
  method Lower(rest: limb, p: nat, ghost v: nat, ghost b: nat, ghost b0: nat, ghost total: nat) returns (r: limb)
    requires p > 0 && b == b0 * p && v * b + rest == total * p && rest < b
    ensures r < b0 && v * b0 + r == total
  {
    Unshift(v, b, b0, p, rest, total);
    r := rest / p;
  }

  method ShiftDividend(tab: array<limb>, n: nat, shift: nat, p: nat, r0: limb, ghost b: nat, ghost b0: nat,
                       ghost total: nat) returns (r: nat)
    requires n <= tab.Length && shift < 32 && p == Pow(2, shift) && r0 < b0 && b == b0 * p
    requires total == Value(tab[..n]) + Pow(BASE, n) * r0
    modifies tab
    ensures r < b && Value(tab[..n]) + Pow(BASE, n) * r == total * p
    ensures tab[n..] == old(tab[n..])
  {
    if shift == 0 {
      return r0;
    }
    var carry := ShiftLeft(tab, n, shift, 0);
    ShiftedTotal(Value(tab[..n]), old(Value(tab[..n])), Pow(BASE, n), carry, r0, p);
    MulMono(r0 + 1, b0, p);
    MulMono(0, r0, p);
    r := r0 * p + carry;
  }

  lemma ShiftedTotal(v: nat, w: nat, b: nat, carry: nat, r0: nat, p: nat)
    requires v + b * carry == w * p
    ensures v + b * (r0 * p + carry) == (w + b * r0) * p
  {
    MulDistrib(b, r0 * p, carry);
    MulAssoc(b, r0, p);
    MulDistrib(p, w, b * r0);
  }

  lemma {:induction false} ValueInjective(s: seq<limb>, t: seq<limb>)
    requires |s| == |t| && Value(s) == Value(t)
    ensures s == t
  {
    if s != [] {
      DivUnique(Value(s), BASE, Value(s[1..]), s[0]);
      DivUnique(Value(t), BASE, Value(t[1..]), t[0]);
      ValueInjective(s[1..], t[1..]);
      assert s == [s[0]] + s[1..] && t == [t[0]] + t[1..];
    }
  }

  /** Whatever meets the contract of DivSmall or of DivNormalized has the same limbs and the same
      remainder: dividing with a shifted divisor and its reciprocal is schoolbook division. */
  lemma DivisionsAgree(s: seq<limb>, r: nat, t: seq<limb>, u: nat, b: nat, total: nat)
    requires |s| == |t| && r < b && u < b && Value(s) * b + r == total && Value(t) * b + u == total
    ensures s == t && r == u
  {
    DivUnique(total, b, Value(s), r);
    DivUnique(total, b, Value(t), u);
    ValueInjective(s, t);
  }
}
