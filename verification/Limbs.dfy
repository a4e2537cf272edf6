/** Little-endian numbers in base 2^32, and the in-place operations on arrays of limbs. */
module Limbs {
  import opened Powers

  const BASE: nat := 0x1_0000_0000

  type limb = x: nat | x < BASE

  function Value(s: seq<limb>): (r: nat) {
    if s == [] then 0 else s[0] + BASE * Value(s[1..])
  }

  lemma {:induction false} ValueSnoc(s: seq<limb>, x: limb)
    ensures Value(s + [x]) == Value(s) + Pow(BASE, |s|) * x
  {
    if s == [] {
      assert s + [x] == [x] && [x][1..] == [];
    } else {
      assert (s + [x])[1..] == s[1..] + [x];
      ValueSnoc(s[1..], x);
      MulAssoc(BASE, Pow(BASE, |s| - 1), x);
    }
  }

  lemma {:induction false} ValueConcat(a: seq<limb>, b: seq<limb>)
    ensures Value(a + b) == Value(a) + Pow(BASE, |a|) * Value(b)
  {
    if a == [] {
      assert a + b == b;
    } else {
      assert (a + b)[1..] == a[1..] + b;
      ValueConcat(a[1..], b);
      MulAssoc(BASE, Pow(BASE, |a| - 1), Value(b));
    }
  }

  lemma {:induction false} ValueBound(s: seq<limb>)
    ensures Value(s) < Pow(BASE, |s|)
  {
    if s != [] { ValueBound(s[1..]); }
  }

  /** A top limb that is not zero bounds the value from below. */
  lemma ValueTop(s: seq<limb>)
    requires s != [] && s[|s| - 1] != 0
    ensures Pow(BASE, |s| - 1) <= Value(s)
  {
    var t, x := s[..|s| - 1], s[|s| - 1];
    assert s == t + [x];
    ValueSnoc(t, x);
    MulMono(1, x, Pow(BASE, |s| - 1));
  }

  lemma PrefixSnoc(s: seq<limb>, i: nat)
    requires i < |s|
    ensures Value(s[..i + 1]) == Value(s[..i]) + Pow(BASE, i) * s[i]
  {
    assert s[..i + 1] == s[..i] + [s[i]];
    ValueSnoc(s[..i], s[i]);
  }

  lemma SuffixCons(s: seq<limb>, i: nat)
    requires i < |s|
    ensures Value(s[i..]) == s[i] + BASE * Value(s[i + 1..])
  {
    assert s[i..][1..] == s[i + 1..];
  }

  // ----- adding and multiplying by one limb -----

  lemma CarryStep(v: int, w: int, p: int, b: int, l: int, l0: int, x: int, lo: int, hi: int)
    requires v + p * l == w * b + l0 && x * b + l == lo + BASE * hi
    ensures v + p * lo + BASE * p * hi == (w + p * x) * b + l0
  {
    calc {
      v + p * lo + BASE * p * hi;
      { MulDistrib(p, lo, BASE * hi); MulAssoc(p, BASE, hi); }
      v + p * (lo + BASE * hi);
      { MulDistrib(p, x * b, l); MulAssoc(p, x, b); }
      v + p * l + p * x * b;
      { MulDistrib(b, w, p * x); }
      (w + p * x) * b + l0;
    }
  }

  lemma HighPart(x: limb, b: limb, l: limb)
    ensures (x * b + l) / BASE < BASE
  {
    MulMono(x, BASE - 1, b);
    DivBound(x * b + l, BASE, BASE);
  }

  lemma DivBound(n: nat, d: nat, q: nat)
    requires d > 0 && n < q * d
    ensures n / d < q
  {
    DivParts(n, d);
    MulCancelStrict(n / d, q, d);
  }

  /** Limbs below `i` hold `low`, those from `i` on are still those of `was`. */
  ghost predicate Done(now: seq<limb>, was: seq<limb>, i: nat) {
    |now| == |was| && i <= |now| && now[i..] == was[i..]
  }

  /** One limb of a pass that multiplies by `b`, carrying `l`. */
  lemma MulPass(now: seq<limb>, was: seq<limb>, i: nat, b: nat, l: nat, l0: nat, lo: limb, hi: nat)
    requires Done(now, was, i) && i < |now|
    requires Value(now[..i]) + Pow(BASE, i) * l == Value(was[..i]) * b + l0
    requires now[i] * b + l == lo + BASE * hi
    ensures Done(now[i := lo], was, i + 1)
    ensures Value(now[i := lo][..i + 1]) + Pow(BASE, i + 1) * hi == Value(was[..i + 1]) * b + l0
  {
    var next := now[i := lo];
    assert now[i] == now[i..][0] == was[i];
    assert next[i + 1..] == now[i..][1..] == was[i + 1..];
    assert next[..i] == now[..i];
    PrefixSnoc(next, i);
    PrefixSnoc(was, i);
    CarryStep(Value(now[..i]), Value(was[..i]), Pow(BASE, i), b, l, l0, now[i], lo, hi);
  }

  /** The limbs a pass did not reach count unchanged. */
  lemma PassEnds(now: seq<limb>, was: seq<limb>, i: nat, n: nat, b: nat)
    requires Done(now, was, i) && i <= n <= |now| && Value(now[..i]) == Value(was[..i]) + b
    ensures Value(now[..n]) == Value(was[..n]) + b
  {
    var rest := now[i..][..n - i];
    assert now[..n] == now[..i] + rest && was[..n] == was[..i] + rest;
    ValueConcat(now[..i], rest);
    ValueConcat(was[..i], rest);
  }

  lemma DoneSuffix(now: seq<limb>, was: seq<limb>, i: nat, n: nat)
    requires Done(now, was, i) && i <= n <= |now|
    ensures now[n..] == was[n..]
  {
    assert now[n..] == now[i..][n - i..] && was[n..] == was[i..][n - i..];
  }

  /** mp_add_ui. */
  method AddSmall(tab: array<limb>, b: limb, n: nat) returns (k: limb)
    requires n <= tab.Length
    modifies tab
    ensures Value(tab[..n]) + Pow(BASE, n) * k == old(Value(tab[..n])) + b
    ensures tab[n..] == old(tab[n..])
  {
    ghost var was := tab[..];
    k := b;
    var i := 0;
    while i < n && k != 0
      invariant 0 <= i <= n && Done(tab[..], was, i)
      invariant Value(tab[..][..i]) + Pow(BASE, i) * k == Value(was[..i]) * 1 + b
    {
      var a := (tab[i] + k) % BASE;
      ghost var carry := (tab[i] + k) / BASE;
      assert a < k <==> carry == 1;
      MulPass(tab[..], was, i, 1, k, b, a, carry);
      tab[i] := a;
      k := if a < k then 1 else 0;
      i := i + 1;
    }
    DoneSuffix(tab[..], was, i, n);
    if i < n { PassEnds(tab[..], was, i, n, b); }
    assert tab[..][..n] == tab[..n] && was[..n] == old(tab[..n]);
  }

  /** mp_mul1, source and destination being the same array. */
  method MulSmall(tab: array<limb>, n: nat, b: limb, l0: limb) returns (l: limb)
    requires n <= tab.Length
    modifies tab
    ensures Value(tab[..n]) + Pow(BASE, n) * l == old(Value(tab[..n])) * b + l0
    ensures tab[n..] == old(tab[n..])
  {
    ghost var was := tab[..];
    l := l0;
    var i := 0;
    while i < n
      invariant 0 <= i <= n && Done(tab[..], was, i)
      invariant Value(tab[..][..i]) + Pow(BASE, i) * l == Value(was[..i]) * b + l0
    {
      var t := tab[i] * b + l;
      HighPart(tab[i], b, l);
      MulPass(tab[..], was, i, b, l, l0, t % BASE, t / BASE);
      tab[i] := t % BASE;
      l := t / BASE;
      i := i + 1;
    }
    DoneSuffix(tab[..], was, i, n);
    assert tab[..][..n] == tab[..n] && was[..n] == old(tab[..n]);
  }
}
