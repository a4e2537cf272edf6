/** Big numbers in a fixed buffer of limbs, shifted and rounded in place. */
module BigNum {
  import opened Powers
  import opened Limbs
  import opened LimbDivision
  import opened Rounding
  import opened Reciprocal
  import opened SmallPowers

  lemma ValueSplit(s: seq<limb>, l: nat)
    requires l <= |s|
    ensures Value(s) / Pow(BASE, l) == Value(s[l..]) && Value(s) % Pow(BASE, l) == Value(s[..l])
  {
    assert s == s[..l] + s[l..];
    ValueConcat(s[..l], s[l..]);
    ValueBound(s[..l]);
    DivSplit(Value(s), Pow(BASE, l), Value(s[l..]), Value(s[..l]));
  }

  lemma LimbPower(l: nat)
    ensures Pow(2, 32 * l) == Pow(BASE, l)
  {
    WordBase();
    PowPow(2, 32, l);
  }

  lemma BitPower(l: nat, j: nat)
    ensures Pow(2, 32 * l + j) == Pow(BASE, l) * Pow(2, j)
  {
    PowAdd(2, 32 * l, j);
    LimbPower(l);
  }

  /** The low bits of a value are those of its lowest limb. */
  lemma LowLimb(x: nat, rest: nat, j: nat)
    requires j < 32
    ensures (x + BASE * rest) % Pow(2, j) == x % Pow(2, j)
    ensures ((x + BASE * rest) / Pow(2, j)) % 2 == (x / Pow(2, j)) % 2
  {
    var h := Pow(2, 31 - j);
    PowAdd(2, j, 32 - j);
    WordBase();
    LowBits(x, rest, Pow(2, j), h);
  }

  lemma LowBits(x: nat, rest: nat, p: nat, h: nat)
    requires p > 0 && p * (2 * h) == BASE
    ensures (x + BASE * rest) % p == x % p && ((x + BASE * rest) / p) % 2 == (x / p) % 2
  {
    var q, r, m := x / p, x % p, h * rest;
    DivParts(x, p);
    LowLimbParts(x, rest, p, h, q, r);
    EvenPart(x + BASE * rest, p, q, m, r);
  }

  lemma EvenPart(y: nat, p: nat, q: nat, m: nat, r: nat)
    requires y == (q + 2 * m) * p + r && r < p
    ensures y % p == r && (y / p) % 2 == q % 2
  {
    DivUnique(y, p, q + 2 * m, r);
  }

  lemma LowLimbParts(x: nat, rest: nat, p: nat, h: nat, q: nat, r: nat)
    requires p * (2 * h) == BASE && x == q * p + r
    ensures x + BASE * rest == (q + 2 * (h * rest)) * p + r
  {
    MulAssoc(p, 2 * h, rest);
    MulAssoc(2, h, rest);
    MulDistrib(p, q, 2 * (h * rest));
  }

  /** Bit `k` of a value, and whether any bit below it is set, read from the limb that holds it. */
  lemma BitInLimb(s: seq<limb>, k: nat)
    requires k / 32 < |s|
    ensures var l, p := k / 32, Pow(2, k % 32);
            && (Value(s) / Pow(2, k)) % 2 == (s[l] / p) % 2
            && (Value(s) % Pow(2, k) != 0 <==> Value(s[..l]) != 0 || s[l] % p != 0)
  {
    var l, j := k / 32, k % 32;
    BitPower(l, j);
    ValueSplit(s, l);
    SuffixCons(s, l);
    LowLimb(s[l], Value(s[l + 1..]), j);
    BitParts(Value(s), Pow(BASE, l), Pow(2, j), Value(s[l..]), Value(s[..l]), s[l]);
  }

  lemma BitParts(v: nat, a: nat, p: nat, w: nat, u: nat, x: nat)
    requires a > 0 && p > 0 && v / a == w && v % a == u && w % p == x % p && (w / p) % 2 == (x / p) % 2
    ensures a * p > 0 && (v / (a * p)) % 2 == (x / p) % 2 && (v % (a * p) != 0 <==> u != 0 || x % p != 0)
  {
    DivTwice(v, a, p);
  }

  lemma BitBeyond(s: seq<limb>, k: nat)
    requires k / 32 >= |s|
    ensures Value(s) / Pow(2, k) == 0 && Value(s) % Pow(2, k) == Value(s)
  {
    BitPower(k / 32, k % 32);
    ValueBound(s);
    PowMono(BASE, |s|, k / 32);
    MulGrows(Pow(BASE, k / 32), Pow(2, k % 32));
    DivSmaller(Value(s), Pow(2, k));
  }

  lemma {:induction false} ValueZero(s: seq<limb>)
    ensures Value(s) == 0 <==> forall i :: 0 <= i < |s| ==> s[i] == 0
  {
    if s != [] {
      ValueZero(s[1..]);
      assert forall i :: 0 < i < |s| ==> s[i] == s[1..][i - 1];
    }
  }

  lemma {:induction false} ValueTrim(s: seq<limb>)
    requires s != [] && s[|s| - 1] == 0
    ensures Value(s[..|s| - 1]) == Value(s)
  {
    assert s == s[..|s| - 1] + [0];
    ValueSnoc(s[..|s| - 1], 0);
  }

  class Mpb {
    const tab: array<limb>
    var len: nat

    ghost predicate Valid()
      reads this
    {
      1 <= len <= tab.Length
    }

    ghost function Val(): (r: nat)
      requires Valid()
      reads this, tab
    {
      Value(tab[..len])
    }

    /** No zero limb on top. */
    ghost predicate Normal()
      requires Valid()
      reads this, tab
    {
      len == 1 || Pow(BASE, len - 1) <= Val()
    }

    constructor (capacity: nat)
      requires capacity >= 1
      ensures Valid() && fresh(tab) && tab.Length == capacity && len == 1
    {
      tab := new limb[capacity](_ => 0);
      len := 1;
    }

    /** mpb_renorm. */
    method Renorm()
      requires Valid()
      modifies this
      ensures Valid() && Normal() && Val() == old(Val()) && len <= old(len)
    {
      while len > 1 && tab[len - 1] == 0
        invariant Valid() && Val() == old(Val()) && len <= old(len)
      {
        ValueTrim(tab[..len]);
        assert tab[..len][..len - 1] == tab[..len - 1];
        len := len - 1;
      }
      if len > 1 { ValueTop(tab[..len]); }
    }

    /** mpb_get_bit. */
    method GetBit(k: nat) returns (bit: nat)
      requires Valid()
      ensures bit == (Val() / Pow(2, k)) % 2
    {
      var l := k / 32;
      if l >= len {
        BitBeyond(tab[..len], k);
        return 0;
      }
      BitInLimb(tab[..len], k);
      bit := (tab[l] / Pow(2, k % 32)) % 2;
    }

    /** The bits below `k`, or-ed together. */
    method AnyBelow(k: nat) returns (any: bool)
      requires Valid()
      ensures any <==> Val() % Pow(2, k) != 0
    {
      var l := k / 32;
      var n := if l < len then l else len;
      any := AnyLimb(n);
      if l < len {
        BitInLimb(tab[..len], k);
        assert tab[..len][..l] == tab[..l];
        any := any || tab[l] % Pow(2, k % 32) != 0;
      } else {
        BitBeyond(tab[..len], k);
      }
    }

    method AnyLimb(n: nat) returns (any: bool)
      requires n <= tab.Length
      ensures any <==> Value(tab[..n]) != 0
    {
      any := false;
      var i := 0;
      while i < n
        invariant 0 <= i <= n && (any <==> exists m :: 0 <= m < i && tab[m] != 0)
      {
        any := any || tab[i] != 0;
        i := i + 1;
      }
      ValueZero(tab[..n]);
    }

    // ----- right shifts -----

    /** Limbs moved down by `l` places. */
    method DropLimbs(l: nat)
      requires Valid() && l < len
      modifies this, tab
      ensures Valid() && len == old(len) - l && Val() == old(Val()) / Pow(BASE, l)
      ensures old(Normal()) ==> Normal()
    {
      ghost var was := tab[..len];
      ValueSplit(was, l);
      len := len - l;
      var i := 0;
      while i < len
        modifies tab
        invariant 0 <= i <= len
        invariant forall m :: 0 <= m < i ==> tab[m] == was[m + l]
        invariant forall m :: i <= m < |was| ==> tab[m] == was[m]
      {
        tab[i] := tab[i + l];
        i := i + 1;
      }
      assert tab[..len] == was[l..];
      if len > 1 && Pow(BASE, |was| - 1) <= Value(was) { DropKeepsTop(Value(was), |was|, l); }
    }

    method ShiftBits(s: nat)
      requires Valid() && 0 < s < 32
      modifies this, tab
      ensures Valid() && Normal() && len <= old(len) && Val() == old(Val()) / Pow(2, s)
    {
      ghost var v := Val();
      var r := ShiftRight(tab, len, s, 0);
      DivUnique(v, Pow(2, s), Val(), r);
      Renorm();
    }

    method Increment()
      requires Valid() && (len < tab.Length || Val() + 1 < Pow(BASE, len))
      modifies this, tab
      ensures Valid() && Val() == old(Val()) + 1
      ensures old(Normal()) ==> Normal()
      ensures len <= old(len) + 1 && (len == old(len) || old(Val()) + 1 == Pow(BASE, old(len)))
    {
      ghost var v := Val();
      ValueBound(tab[..len]);
      var k := AddSmall(tab, 1, len);
      ValueBound(tab[..len]);
      if k != 0 {
        MulMono(1, k, Pow(BASE, len));
        ghost var low := tab[..len];
        ValueSnoc(low, k);
        tab[len] := k;
        len := len + 1;
        assert tab[..len] == low + [k];
      }
    }

    method Truncate(shift: nat)
      requires Valid() && shift > 0
      modifies this, tab
      ensures Valid() && Val() == old(Val()) / Pow(2, shift)
      ensures old(Normal()) ==> Normal()
      ensures len < old(len) || (len == old(len) && Val() + 1 < Pow(BASE, len))
    {
      ghost var v, n := Val(), len;
      var l, s := shift / 32, shift % 32;
      ValueBound(tab[..len]);
      if l >= len {
        BitBeyond(tab[..len], shift);
        len := 1;
        tab[0] := 0;
        ValueZero(tab[..1]);
        assert Pow(BASE, 1) == BASE;
        return;
      }
      BitPower(l, s);
      DivTwice(v, Pow(BASE, l), Pow(2, s));
      if l > 0 { DropLimbs(l); }
      if s != 0 {
        ShiftBits(s);
        PowMono(2, 1, s);
        HalfFits(v, n, Pow(2, s));
      }
    }

    /** mpb_shr_round by a positive shift: the quotient by a power of two, rounded exactly. */
    method ShrRound(shift: nat, mode: Mode)
      requires Valid() && shift > 0
      modifies this, tab
      ensures Valid() && Val() == Round(mode, old(Val()), Pow(2, shift))
      ensures old(Normal()) ==> Normal()
      ensures len <= old(len)
    {
      ghost var v, d := Val(), Pow(2, shift);
      var addOne := RoundsUpward(shift, mode);
      Truncate(shift);
      if addOne { Increment(); }
      assert Val() == v / d + (if RoundsUp(mode, v / d, v % d, d) then 1 else 0);
    }

    method RoundsUpward(shift: nat, mode: Mode) returns (addOne: bool)
      requires Valid() && shift > 0
      ensures addOne <==> RoundsUp(mode, Val() / Pow(2, shift), Val() % Pow(2, shift), Pow(2, shift))
    {
      RoundBits(mode, Val(), Pow(2, shift - 1));
      assert Pow(2, shift - 1) * 2 == Pow(2, shift);
      if mode == TowardZero {
        return false;
      }
      var bit1 := GetBit(shift - 1);
      if bit1 == 0 {
        return false;
      }
      if mode == NearestAway {
        return true;
      }
      var bit2 := AnyBelow(shift - 1);
      if bit2 {
        return true;
      }
      var odd := GetBit(shift);
      return odd == 1;
    }

    // ----- left shifts -----

    method RaiseLimbs(l: nat)
      requires Valid() && len + l <= tab.Length
      modifies this, tab
      ensures Valid() && len == old(len) + l && Val() == old(Val()) * Pow(BASE, l)
      ensures old(Normal()) && old(Val()) > 0 ==> Normal()
    {
      ghost var was := tab[..len];
      CopyUp(l);
      ClearLow(l);
      len := len + l;
      assert tab[..len][l..] == was;
      RaisedValue(tab[..len], was, l);
    }

    method CopyUp(l: nat)
      requires Valid() && len + l <= tab.Length
      modifies tab
      ensures forall m :: l <= m < len + l ==> tab[m] == old(tab[m - l])
    {
      var i := len;
      while i > 0
        invariant 0 <= i <= len
        invariant forall m :: i + l <= m < len + l ==> tab[m] == old(tab[m - l])
        invariant forall m :: 0 <= m < i ==> tab[m] == old(tab[m])
      {
        i := i - 1;
        tab[i + l] := tab[i];
      }
    }

    method ClearLow(l: nat)
      requires l <= tab.Length
      modifies tab
      ensures forall m :: 0 <= m < l ==> tab[m] == 0
      ensures forall m :: l <= m < tab.Length ==> tab[m] == old(tab[m])
    {
      var i := 0;
      while i < l
        invariant 0 <= i <= l
        invariant forall m :: 0 <= m < i ==> tab[m] == 0
        invariant forall m :: l <= m < tab.Length ==> tab[m] == old(tab[m])
      {
        tab[i] := 0;
        i := i + 1;
      }
    }

    method RaiseBits(s: nat)
      requires Valid() && 0 < s < 32 && len < tab.Length
      modifies this, tab
      ensures Valid() && Normal() && len <= old(len) + 1 && Val() == old(Val()) * Pow(2, s)
    {
      var carry := ShiftLeft(tab, len, s, 0);
      Append(carry);
      Renorm();
    }

    method Append(x: limb)
      requires Valid() && len < tab.Length
      modifies this, tab
      ensures Valid() && len == old(len) + 1 && Val() == old(Val()) + Pow(BASE, old(len)) * x
    {
      ghost var low := tab[..len];
      ValueSnoc(low, x);
      tab[len] := x;
      len := len + 1;
      assert tab[..len] == low + [x];
    }

    /** mpb_shr_round by a negative shift: an exact product. */
    method ShiftUp(shift: nat)
      requires Valid() && len + shift / 32 + 1 <= tab.Length
      modifies this, tab
      ensures Valid() && Val() == old(Val()) * Pow(2, shift) && len <= old(len) + shift / 32 + 1
      ensures old(Normal()) && old(Val()) > 0 ==> Normal()
    {
      var l, s := shift / 32, shift % 32;
      ghost var v, p, b := Val(), Pow(2, s), Pow(BASE, l);
      ShiftedProduct(v, p, b);
      BitPower(l, s);
      if s != 0 { RaiseBits(s); }
      assert Val() == v * p;
      if l > 0 { RaiseLimbs(l); }
    }

    // ----- one limb at a time -----

    /** mpb_set_u64. */
    method SetU64(m: nat)
      requires m < BASE * BASE && tab.Length >= 2
      modifies this, tab
      ensures Valid() && Normal() && Val() == m && len <= 2
    {
      tab[0] := m % BASE;
      tab[1] := m / BASE;
      len := if m / BASE == 0 then 1 else 2;
      assert tab[..1] == [m % BASE] && tab[..2] == [m % BASE] + [m / BASE];
      ValueOne(m % BASE);
      ValueSnoc([m % BASE], m / BASE);
      assert Pow(BASE, 1) == BASE;
    }

    /** mpb_get_u64. */
    method GetU64() returns (m: nat)
      requires Valid() && Normal() && Val() < BASE * BASE
      ensures m == Val()
    {
      ValueOne(tab[0]);
      if len == 1 {
        assert tab[..1] == [tab[0]];
        return tab[0];
      }
      TwoLimbs(tab[..len]);
      return tab[0] + tab[1] * BASE;
    }

    /** a->tab[] times one limb, the carry stored when it is not zero. */
    method Multiply(b: limb)
      requires Valid() && Normal() && Val() > 0 && b > 0
      requires len < tab.Length || Val() * b < Pow(BASE, len)
      modifies this, tab
      ensures Valid() && Normal() && Val() == old(Val()) * b && Val() > 0 && len <= old(len) + 1
    {
      ghost var v, n := Val(), len;
      MulGrows(v, b);
      var h := MulSmall(tab, len, b, 0);
      ghost var low := Val();
      ProductZero(h, Pow(BASE, n));
      if h != 0 {
        MulGrows(Pow(BASE, n), h);
        Append(h);
      }
    }

    /** mp_div1norm on the whole number, and mpb_renorm. */
    method Divide(b: limb, inverse: limb, shift: nat, ghost b0: nat) returns (r: limb)
      requires Valid() && shift < 32 && HALF <= b && b == b0 * Pow(2, shift) && inverse == Inverse(b) && b0 > 0
      modifies this, tab
      ensures Valid() && Normal() && Val() == old(Val()) / b0 && r == old(Val()) % b0 && len <= old(len)
    {
      ghost var v := Val();
      r := DivNormalized(tab, len, b, 0, inverse, shift, b0);
      DivUnique(v, b0, Val(), r);
      Renorm();
    }

    /** tab[0] |= 1. */
    method SetLowBit()
      requires Valid()
      modifies tab
      ensures Val() == Sticky(old(Val()), true) && (old(Normal()) ==> Normal())
    {
      ghost var was := tab[..len];
      if tab[0] % 2 == 0 { tab[0] := tab[0] + 1; }
      assert tab[..len] == was[0 := Sticky(was[0], true)];
      SetBit(was, tab[..len]);
    }

    /** All limbs one place up, to make room for a new lowest one. */
    method PushLow(a: limb)
      requires Valid() && len + 1 < tab.Length
      modifies this, tab
      ensures Valid() && Val() == old(Val()) * BASE + a && len == old(len) + 1
    {
      var t, n := tab, len;
      ghost var was := t[..];
      for i := n + 1 downto 0
        modifies t
        invariant forall j :: 0 <= j <= i ==> t[j] == was[j]
        invariant forall j :: i < j <= n + 1 ==> t[j] == was[j - 1]
      {
        t[i + 1] := t[i];
      }
      t[0] := a;
      len := n + 1;
      assert t[..len] == [a] + was[..n];
      assert ([a] + was[..n])[1..] == was[..n];
    }

    /** mpb_mul1_base: times `base` plus one limb; a base of zero stands for 2^32. */
    method MulAdd(base: limb, a: limb)
      requires Valid() && Normal() && len < tab.Length && (base == 0 ==> len + 1 < tab.Length)
      modifies this, tab
      ensures Valid() && Normal() && len <= old(len) + 1
      ensures Val() == old(Val()) * (if base == 0 then BASE else base) + a
    {
      if tab[0] == 0 && len == 1 {
        ValueOne(0);
        ValueOne(a);
        assert tab[..1] == [0];
        tab[0] := a;
        assert tab[..1] == [a];
      } else if base == 0 {
        PushLow(a);
        Renorm();
      } else {
        var high := MulSmall(tab, len, base, a);
        Append(high);
        Renorm();
      }
    }

    /** mpb_floor_log2: the position of the highest bit, or -1. */
    method FloorLog2() returns (k: int)
      requires Valid() && Normal()
      ensures Val() == 0 ==> k == -1
      ensures Val() > 0 ==> k >= 0 && Pow(2, k) <= Val() < Pow(2, k + 1)
      ensures Val() > 0 ==> 32 * (len - 1) <= k < 32 * len
    {
      var v := tab[len - 1];
      if v == 0 {
        if Val() > 0 { TopNotZero(tab[..len]); }
        return -1;
      }
      var z := Clz(v);
      ClzNormalizes(v);
      LimbBits(v, z);
      TopBits(tab[..len], 31 - z, 32 - z);
      k := len * 32 - 1 - z;
    }
  }

  /** A limb normalised by `s` has 32 - s bits. */
  lemma LimbBits(x: limb, s: nat)
    requires s < 32 && HALF <= x * Pow(2, s) < BASE
    ensures Pow(2, 31 - s) <= x < Pow(2, 32 - s)
  {
    WordBase();
    PowAdd(2, 31 - s, s);
    PowAdd(2, 32 - s, s);
    MulCancel(Pow(2, 31 - s), x, Pow(2, s));
    MulCancelStrict(x, Pow(2, 32 - s), Pow(2, s));
  }

  lemma TopNotZero(s: seq<limb>)
    requires s != [] && Value(s) > 0 && (|s| == 1 || Pow(BASE, |s| - 1) <= Value(s))
    ensures s[|s| - 1] != 0
  {
    if s[|s| - 1] == 0 {
      ValueTrim(s);
      ValueBound(s[..|s| - 1]);
    }
  }

  lemma TopBits(s: seq<limb>, low: nat, high: nat)
    requires s != [] && Pow(2, low) <= s[|s| - 1] < Pow(2, high)
    ensures Pow(2, 32 * (|s| - 1) + low) <= Value(s) < Pow(2, 32 * (|s| - 1) + high)
  {
    var n, x := |s| - 1, s[|s| - 1];
    assert s == s[..n] + [x];
    ValueSnoc(s[..n], x);
    ValueBound(s[..n]);
    BitPower(n, low);
    BitPower(n, high);
    Bracket(Value(s), Value(s[..n]), Pow(BASE, n), x, Pow(2, low), Pow(2, high));
  }

  lemma Bracket(v: nat, rest: nat, b: nat, x: nat, p: nat, q: nat)
    requires v == rest + b * x && rest < b && p <= x < q
    ensures b * p <= v < b * q
  {
    MulMono(p, x, b);
    MulMono(x + 1, q, b);
    MulDistrib(b, x, 1);
  }

  lemma SetBit(s: seq<limb>, t: seq<limb>)
    requires s != [] && t == s[0 := Sticky(s[0], true)]
    ensures Value(t) == Sticky(Value(s), true)
  {
    assert t[1..] == s[1..];
  }

  lemma ValueOne(x: limb)
    ensures Value([x]) == x
  {
    assert [x][1..] == [];
  }

  /** A normal value below 2^64 has at most two limbs. */
  lemma TwoLimbs(s: seq<limb>)
    requires |s| > 1 && Pow(BASE, |s| - 1) <= Value(s) < BASE * BASE
    ensures |s| == 2 && Value(s) == s[0] + s[1] * BASE
  {
    assert Pow(BASE, 2) == BASE * BASE by { assert Pow(BASE, 1) == BASE; }
    if |s| > 2 { PowMono(BASE, 2, |s| - 1); }
    SuffixCons(s, 0);
    SuffixCons(s, 1);
    assert s[0..] == s && s[2..] == [];
  }

  lemma ProductZero(a: nat, b: nat)
    requires b > 0
    ensures 0 <= a * b && (a * b == 0 <==> a == 0)
  {
    if a > 0 { MulMono(1, a, b); }
  }

  /** Zero limbs below a value. */
  lemma RaisedValue(s: seq<limb>, was: seq<limb>, l: nat)
    requires |was| >= 1 && |s| == |was| + l && s[l..] == was && forall m :: 0 <= m < l ==> s[m] == 0
    ensures Value(s) == Value(was) * Pow(BASE, l)
    ensures (|was| == 1 || Pow(BASE, |was| - 1) <= Value(was)) && Value(was) > 0 ==> Pow(BASE, |s| - 1) <= Value(s)
  {
    ZerosBelow(s, was, l);
    if (|was| == 1 || Pow(BASE, |was| - 1) <= Value(was)) && Value(was) > 0 {
      RaiseKeepsTop(Value(was), |was|, l);
    }
  }

  lemma {:induction false} ZerosBelow(s: seq<limb>, was: seq<limb>, l: nat)
    requires |s| == |was| + l && s[l..] == was && forall m :: 0 <= m < l ==> s[m] == 0
    ensures Value(s) == Value(was) * Pow(BASE, l)
  {
    if l == 0 {
      assert s == was;
    } else {
      assert s[1..][l - 1..] == was;
      ZerosBelow(s[1..], was, l - 1);
      MulAssoc(BASE, Pow(BASE, l - 1), Value(was));
    }
  }

  lemma ShiftedProduct(v: nat, p: nat, b: nat)
    requires p > 0
    ensures v * p * b == v * (b * p) && v <= v * p
  {
    MulGrows(v, p);
    MulAssoc(v, p, b);
  }

  lemma RaiseKeepsTop(v: nat, n: nat, l: nat)
    requires n > 0 && Pow(BASE, n - 1) <= v
    ensures Pow(BASE, n + l - 1) <= v * Pow(BASE, l)
  {
    PowAdd(BASE, n - 1, l);
    MulMono(Pow(BASE, n - 1), v, Pow(BASE, l));
  }

  lemma DropKeepsTop(v: nat, n: nat, l: nat)
    requires l + 1 < n && Pow(BASE, n - 1) <= v
    ensures Pow(BASE, n - l - 1) <= v / Pow(BASE, l)
  {
    PowAdd(BASE, n - l - 1, l);
    DivParts(v, Pow(BASE, l));
    MulDistrib(Pow(BASE, l), v / Pow(BASE, l), 1);
    MulCancelStrict(Pow(BASE, n - l - 1), v / Pow(BASE, l) + 1, Pow(BASE, l));
  }

  /** Halving leaves room on top. */
  lemma HalfFits(v: nat, n: nat, p: nat)
    requires n > 0 && v < Pow(BASE, n) && p >= 2
    ensures v / p + 1 < Pow(BASE, n)
  {
    MulMono(2, p, v / p);
    DivParts(v, p);
    PowMono(BASE, 1, n);
  }

  /** The three bits mpb_shr_round looks at decide the rounding. */
  lemma RoundBits(mode: Mode, v: nat, p: nat)
    requires p > 0
    ensures RoundsUp(mode, v / (p * 2), v % (p * 2), p * 2) <==>
              mode != TowardZero && (v / p) % 2 == 1
              && (mode == NearestAway || v % p != 0 || (v / (p * 2)) % 2 == 1)
  {
    DivTwiceParts(v, p, 2);
    DivParts(v, p);
    var bit := (v / p) % 2;
    assert bit == 0 || bit == 1;
    assert bit * p == if bit == 1 then p else 0;
  }
}
