/** js_atod on decimal literals: whatever digits, point and exponent it is written with, the double
    nearest to the number that is meant. */
module DecimalLiterals {
  import opened Powers
  import opened Doubles
  import opened DoubleBits
  import opened DecimalBounds
  import opened DecimalText
  import opened DecimalReading
  import NumberText
  import RoundTrip

  // ----- literals and what they mean -----

  predicate OnlyDigits(t: string) {
    forall i :: 0 <= i < |t| ==> '0' <= t[i] <= '9'
  }

  /** The number that a string of digits writes. */
  function NumberOf(t: string): (n: nat)
    requires OnlyDigits(t)
  {
    if t == "" then 0 else NumberOf(t[..|t| - 1]) * 10 + DigitOf(t[|t| - 1])
  }

  function LeadingZeros(t: string): (z: nat)
    ensures z <= |t|
  {
    if t != "" && t[0] == '0' then 1 + LeadingZeros(t[1..]) else 0
  }

  datatype Tail = Plain | Scaled(mark: char, sign: string, digits: string)

  datatype Literal = Literal(sign: string, whole: string, point: bool, fraction: string, tail: Tail)

  predicate IsSign(t: string) { t == "" || t == "+" || t == "-" }

  predicate IsTail(t: Tail) {
    t.Scaled? ==> IsExponentMark(t.mark) && IsSign(t.sign) && OnlyDigits(t.digits) && t.digits != ""
  }

  /** A digit at least, on one side of the point or the other. */
  predicate IsLiteral(l: Literal) {
    && IsSign(l.sign) && OnlyDigits(l.whole) && OnlyDigits(l.fraction) && l.whole + l.fraction != ""
    && (!l.point ==> l.fraction == "") && IsTail(l.tail)
  }

  function TailText(t: Tail): (s: string) {
    match t
    case Plain => ""
    case Scaled(mark, sign, digits) => [mark] + (sign + digits)
  }

  function PointText(point: bool): (s: string) { if point then "." else "" }

  function Text(l: Literal): (s: string) {
    l.sign + (l.whole + (PointText(l.point) + (l.fraction + TailText(l.tail))))
  }

  function TailValue(t: Tail): (k: int)
    requires IsTail(t)
  {
    match t
    case Plain => 0
    case Scaled(_, sign, digits) => if sign == "-" then 0 - NumberOf(digits) else NumberOf(digits)
  }

  /** The literal means Mantissa * 10^Scale. */
  function Mantissa(l: Literal): (n: nat)
    requires IsLiteral(l)
  {
    NumberOf(l.whole + l.fraction)
  }

  function Scale(l: Literal): (f: int)
    requires IsLiteral(l)
  {
    TailValue(l.tail) - |l.fraction|
  }

  function Significant(l: Literal): (n: nat) {
    |l.whole + l.fraction| - LeadingZeros(l.whole + l.fraction)
  }

  /** An exponent of this size is flagged as too large. */
  const HUGE: int := 10 * (EXPONENT_LIMIT + 1)

  /** The sums of js_atod that locate the first significant digit do not leave 32 bits, or are not used. */
  predicate PlaceFits(l: Literal)
    requires IsLiteral(l)
  {
    || Mantissa(l) == 0
    || TailValue(l.tail) <= -HUGE || TailValue(l.tail) >= HUGE
    || -0x8000_0000 <= Scale(l) + Significant(l) < 0x8000_0000
  }

  // ----- digits -----

  lemma {:induction false} DigitsOfNumber(t: string)
    requires OnlyDigits(t)
    ensures Digits(NumberOf(t), |t|) == t && NumberOf(t) < Pow(10, |t|)
  {
    if t == "" {
      PowZero(10);
    } else {
      var init, last := t[..|t| - 1], t[|t| - 1];
      PartsAreDigits(t, |t| - 1);
      CharOfDigit(last);
      DivTenStep(|t|);
      assert t == init + [last] && NumberOf(t) == NumberOf(init) * 10 + DigitOf(last);
      hide Digits, DigitOf, Pow, OnlyDigits, NumberOf, DigitChar;
      DigitsOfNumber(init);
      DigitsPush(NumberOf(init), DigitOf(last), |init|);
    }
  }

  lemma DigitsPush(v: nat, d: nat, len: nat)
    requires d < 10
    ensures Digits(v * 10 + d, len + 1) == Digits(v, len) + [DigitChar(d)]
  {
    DivUnique(v * 10 + d, 10, v, d);
  }

  lemma CharOfDigit(c: char)
    requires '0' <= c <= '9'
    ensures DigitOf(c) < 10 && DigitChar(DigitOf(c)) == c
  {
  }

  lemma PartsAreDigits(t: string, i: nat)
    requires OnlyDigits(t) && i <= |t|
    ensures OnlyDigits(t[..i]) && OnlyDigits(t[i..])
  {
  }

  lemma {:induction false} NumberConcat(a: string, b: string)
    requires OnlyDigits(a) && OnlyDigits(b)
    ensures OnlyDigits(a + b) && NumberOf(a + b) == NumberOf(a) * Pow(10, |b|) + NumberOf(b)
  {
    if b == "" {
      assert a + b == a;
      PowZero(10);
    } else {
      var c, last := b[..|b| - 1], b[|b| - 1];
      DivTenStep(|b|);
      PartsAreDigits(b, |c|);
      assert b == c + [last] && a + b == a + c + [last] && '0' <= last <= '9';
      hide NumberOf, Pow, OnlyDigits, DigitOf;
      NumberConcat(a, c);
      NumberPush(c, last);
      NumberPush(a + c, last);
      NumberText.AccumulateDigit(NumberOf(a), Pow(10, |c|), NumberOf(c), DigitOf(last));
    }
  }

  lemma NumberPush(t: string, c: char)
    requires OnlyDigits(t) && '0' <= c <= '9'
    ensures OnlyDigits(t + [c]) && NumberOf(t + [c]) == NumberOf(t) * 10 + DigitOf(c)
  {
    assert (t + [c])[..|t|] == t;
  }

  lemma {:induction false} ZerosLead(t: string, z: nat)
    requires z == LeadingZeros(t)
    ensures t == Zeros(z) + t[z..] && (z < |t| ==> t[z] != '0')
  {
    if t != "" && t[0] == '0' {
      ZerosLead(t[1..], z - 1);
      assert t[1..][z - 1..] == t[z..] && Zeros(z) == ['0'] + Zeros(z - 1);
      assert t == ['0'] + t[1..];
    }
  }

  lemma {:induction false} ZerosWriteZero(z: nat)
    ensures OnlyDigits(Zeros(z)) && NumberOf(Zeros(z)) == 0
  {
    if z > 0 {
      ZerosWriteZero(z - 1);
      assert Zeros(z)[..z - 1] == Zeros(z - 1);
    }
  }

  /** Leading zeros do not count, and what is left has as many digits as it shows. */
  lemma SignificantPart(t: string, z: nat)
    requires OnlyDigits(t) && z == LeadingZeros(t)
    ensures OnlyDigits(t[z..]) && NumberOf(t) == NumberOf(t[z..]) < Pow(10, |t| - z)
    ensures if z < |t| then Pow(10, |t| - z - 1) <= NumberOf(t) else NumberOf(t) == 0
  {
    ZerosLead(t, z);
    ZerosWriteZero(z);
    PartsAreDigits(t, z);
    EmptyNumber();
    hide Zeros, LeadingZeros, OnlyDigits, NumberOf, Pow, Digits;
    var u := t[z..];
    NumberConcat(Zeros(z), u);
    DigitsOfNumber(u);
    if z < |t| { LeadingDigit(u); }
  }

  lemma EmptyNumber()
    ensures NumberOf("") == 0
  {
  }

  lemma LeadingDigit(t: string)
    requires OnlyDigits(t) && t != "" && t[0] != '0'
    ensures Pow(10, |t| - 1) <= NumberOf(t)
  {
    var head, rest := t[..1], t[1..];
    assert t == head + rest && head[..0] == "";
    NumberConcat(head, rest);
    assert NumberOf(head) == DigitOf(t[0]) >= 1;
    MulMono(1, NumberOf(head), Pow(10, |rest|));
  }

  lemma ZerosOfConcat(a: string, b: string)
    ensures var z := LeadingZeros(a);
            LeadingZeros(a + b) == if z < |a| then z else |a| + LeadingZeros(b)
  {
    if a == "" {
      assert a + b == b;
    } else if a[0] == '0' {
      assert (a + b)[1..] == a[1..] + b;
      ZerosOfConcat(a[1..], b);
    }
  }

  // ----- scanning the mantissa -----

  lemma ReadDigits(s: string, start: nat, g: Significand, t: string)
    requires g.at.p <= |s| && OnlyDigits(t) && HoldsAt(s, g.at.p, t) && g.count + |t| <= MAX_SIGNIFICANT
    ensures ScanDigits(s, start, g) == ScanDigits(s, start, AfterRun(g, NumberOf(t), |t|))
  {
    hide ScanDigits, Pow;
    DigitsOfNumber(t);
    ReadRun(s, start, g, NumberOf(t), |t|);
  }

  ghost predicate ZerosAt(s: string, p: nat, k: nat) {
    p + k <= |s| && forall i :: p <= i < p + k ==> s[i] == '0'
  }

  /** Zeros in front are passed whatever follows them. */
  lemma {:induction false} SkipOver(s: string, start: nat, c: Scan, k: nat)
    requires ZerosAt(s, c.p, k)
    ensures SkipZeros(s, start, c) == SkipZeros(s, start, Scan(c.p + k, c.pos + k, c.dot))
    decreases k
  {
    if k > 0 {
      SkipOne(s, start, c);
      SkipOver(s, start, Scan(c.p + 1, c.pos + 1, c.dot), k - 1);
    }
  }

  lemma SkipOne(s: string, start: nat, c: Scan)
    requires c.p < |s| && At(s, c.p) == '0'
    ensures SkipZeros(s, start, c) == SkipZeros(s, start, Scan(c.p + 1, c.pos + 1, c.dot))
  {
  }

  lemma ZerosStand(s: string, p: nat, k: nat)
    requires HoldsAt(s, p, Zeros(k))
    ensures ZerosAt(s, p, k)
  {
    forall i | p <= i < p + k ensures s[i] == '0' {
      assert s[i] == s[p..p + k][i - p] == Zeros(k)[i - p];
    }
  }

  lemma SkipPoint(s: string, start: nat, c: Scan)
    requires c.p < |s| && IsPoint(s, start, c.p) && c.dot < 0 && At(s, c.p + 1) != '.'
    ensures SkipZeros(s, start, c) == SkipZeros(s, start, Scan(c.p + 1, c.pos, c.pos))
  {
  }

  /** Where the parts of a mantissa stand in the text. */
  ghost predicate Stands(s: string, start: nat, whole: string, point: bool, fraction: string) {
    var q := start + |whole| + |PointText(point)|;
    && OnlyDigits(whole) && OnlyDigits(fraction) && whole + fraction != "" && (!point ==> fraction == "")
    && HoldsAt(s, start, whole) && (point ==> At(s, start + |whole|) == '.') && HoldsAt(s, q, fraction)
    && Terminates(At(s, q + |fraction|)) && q <= |s|
  }

  function DotOf(whole: string, point: bool): (d: int) { if point then |whole| else -1 }

  /** After the point comes a digit of the fraction or the end. */
  lemma AfterPoint(s: string, start: nat, whole: string, fraction: string)
    requires Stands(s, start, whole, true, fraction)
    ensures start + |whole| < |s| && At(s, start + |whole| + 1) != '.' && IsPoint(s, start, start + |whole|)
  {
    var q := start + |whole| + 1;
    if fraction != "" { HoldsFirst(s, q, fraction); }
  }

  /** The digits before the point, the point, and those after it. */
  lemma ScanWhole(s: string, start: nat, whole: string, point: bool, fraction: string, z: nat)
    requires Stands(s, start, whole, point, fraction) && z == LeadingZeros(whole) && (z < |whole| || !point)
    requires |whole| + |fraction| - z <= MAX_SIGNIFICANT
    ensures SkipZeros(s, start, Begin(start)) == Scan(start + z, z, -1)
    ensures OnlyDigits(whole[z..] + fraction)
    ensures ScanDigits(s, start, Significand(Scan(start + z, z, -1), 0, 0))
         == Significand(Scan(start + |whole| + |PointText(point)| + |fraction|, |whole| + |fraction|,
                             DotOf(whole, point)),
                        |whole| + |fraction| - z, NumberOf(whole[z..] + fraction))
  {
    hide ScanDigits, SkipZeros, NumberOf, LeadingZeros, HoldsAt, OnlyDigits, Zeros, Pow;
    var w := whole[z..];
    ZerosThenDigits(s, start, whole, z);
    PartsAreDigits(whole, z);
    NumberConcat(w, fraction);
    SkipRun(s, start, Begin(start), z);
    ScanBoth(s, start, z, w, whole, point, fraction);
  }

  /** The zeros in front of a run of digits, and what follows them. */
  lemma ZerosThenDigits(s: string, p: nat, t: string, z: nat)
    requires HoldsAt(s, p, t) && z == LeadingZeros(t) && OnlyDigits(t)
    ensures HoldsAt(s, p, Zeros(z)) && HoldsAt(s, p + z, t[z..])
    ensures z < |t| ==> '1' <= At(s, p + z) <= '9'
  {
    hide LeadingZeros, Zeros, HoldsAt;
    ZerosLead(t, z);
    var w := t[z..];
    HoldsConcat(s, p, Zeros(z), w);
    if w != "" { HoldsFirst(s, p + z, w); }
  }

  lemma ScanBoth(s: string, start: nat, z: nat, w: string, whole: string, point: bool, fraction: string)
    requires Stands(s, start, whole, point, fraction) && z <= |whole| && w == whole[z..] && (w != "" || !point)
    requires |w| + |fraction| <= MAX_SIGNIFICANT && HoldsAt(s, start + z, w) && OnlyDigits(w)
    ensures ScanDigits(s, start, Significand(Scan(start + z, z, -1), 0, 0))
         == Significand(Scan(start + |whole| + |PointText(point)| + |fraction|, |whole| + |fraction|,
                             DotOf(whole, point)),
                        |w| + |fraction|, NumberOf(w) * Pow(10, |fraction|) + NumberOf(fraction))
  {
    hide ScanDigits, Pow, NumberOf, HoldsAt, OnlyDigits;
    var g := Significand(Scan(start + z, z, -1), 0, 0);
    ReadDigits(s, start, g, w);
    var a := AfterRun(g, NumberOf(w), |w|);
    if point {
      AfterPoint(s, start, whole, fraction);
      ReadPoint(s, start, a);
      a := a.(at := Scan(start + |whole| + 1, |whole|, |whole|));
    }
    ReadDigits(s, start, a, fraction);
    ReadEnd(s, start, AfterRun(a, NumberOf(fraction), |fraction|));
  }

  /** Nothing but zeros before the point: the first significant digit comes after it. */
  lemma SkipWhole(s: string, start: nat, whole: string, fraction: string, z: nat, w: nat, q: nat)
    requires Stands(s, start, whole, true, fraction) && LeadingZeros(whole) == |whole| && z == LeadingZeros(fraction)
    requires w == |whole| && q == start + w + 1
    ensures q + |fraction| <= |s| && HoldsAt(s, q + z, fraction[z..])
    ensures SkipZeros(s, start, Begin(start)) == Scan(q + z, w + z, w)
  {
    hide SkipZeros, LeadingZeros, HoldsAt, OnlyDigits, Zeros, Stands, At, IsPoint;
    AfterPoint(s, start, whole, fraction);
    WholeStands(s, start, whole, fraction, w, q);
    ZerosThenDigits(s, start, whole, w);
    ZerosThenDigits(s, q, fraction, z);
    SkipThrough(s, start, w, q, z);
  }

  lemma SkipThrough(s: string, start: nat, w: nat, q: nat, z: nat)
    requires q == start + w + 1 <= |s| && HoldsAt(s, start, Zeros(w)) && HoldsAt(s, q, Zeros(z))
    requires IsPoint(s, start, start + w) && At(s, q) != '.' && At(s, q + z) != '0' && At(s, q + z) != '.'
    ensures SkipZeros(s, start, Begin(start)) == Scan(q + z, w + z, w)
  {
    hide SkipZeros, HoldsAt, Zeros, At, IsPoint;
    ZerosStand(s, start, w);
    SkipOver(s, start, Begin(start), w);
    SkipPoint(s, start, Scan(start + w, w, -1));
    SkipRun(s, start, Scan(q, w, w), z);
  }

  lemma WholeStands(s: string, start: nat, whole: string, fraction: string, w: nat, q: nat)
    requires Stands(s, start, whole, true, fraction) && w == |whole| && q == start + w + 1
    ensures OnlyDigits(whole) && OnlyDigits(fraction) && HoldsAt(s, start, whole) && At(s, start + w) == '.'
    ensures HoldsAt(s, q, fraction) && q + |fraction| <= |s| && Terminates(At(s, q + |fraction|))
  {
  }

  lemma ScanFraction(s: string, start: nat, c: Scan, f: string)
    requires c.p + |f| <= |s| && OnlyDigits(f) && HoldsAt(s, c.p, f) && Terminates(At(s, c.p + |f|))
    requires |f| <= MAX_SIGNIFICANT
    ensures ScanDigits(s, start, Significand(c, 0, 0))
         == Significand(Scan(c.p + |f|, c.pos + |f|, c.dot), |f|, NumberOf(f))
  {
    hide ScanDigits, Pow, NumberOf, HoldsAt, OnlyDigits;
    ReadDigits(s, start, Significand(c, 0, 0), f);
    ReadEnd(s, start, AfterRun(Significand(c, 0, 0), NumberOf(f), |f|));
  }

  lemma PartOfConcat(a: string, b: string, z: nat)
    requires z <= |a + b|
    ensures (a + b)[z..] == if z <= |a| then a[z..] + b else b[z - |a|..]
    ensures z >= |a| ==> (a + b)[z..] == b[z - |a|..]
  {
  }

  lemma EmptyZeros()
    ensures LeadingZeros("") == 0
  {
  }

  /** Wherever the point is, the scan finds the significant digits of the whole mantissa. */
  lemma ScanMantissa(s: string, start: nat, whole: string, point: bool, fraction: string)
        returns (c: Scan, g: Significand)
    requires Stands(s, start, whole, point, fraction)
    requires |whole + fraction| - LeadingZeros(whole + fraction) <= MAX_SIGNIFICANT
    ensures start <= |s| && c == SkipZeros(s, start, Begin(start)) && g == ScanDigits(s, start, Significand(c, 0, 0))
    ensures OnlyDigits(whole + fraction)
    ensures c.pos == LeadingZeros(whole + fraction) && g.value == NumberOf(whole + fraction)
    ensures g.count == |whole + fraction| - c.pos && g.at.pos == |whole + fraction| && g.at.dot == DotOf(whole, point)
    ensures g.at.p == start + |whole| + |PointText(point)| + |fraction|
  {
    hide ScanDigits, SkipZeros, NumberOf, LeadingZeros, HoldsAt, OnlyDigits, Pow;
    var t := whole + fraction;
    var z := LeadingZeros(t);
    ZerosOfConcat(whole, fraction);
    NumberConcat(whole, fraction);
    SignificantPart(t, z);
    PartOfConcat(whole, fraction, z);
    if LeadingZeros(whole) < |whole| || !point {
      if !point { EmptyZeros(); }
      ScanWhole(s, start, whole, point, fraction, z);
      c := Scan(start + z, z, -1);
    } else {
      var y := z - |whole|;
      SkipWhole(s, start, whole, fraction, y, |whole|, start + |whole| + 1);
      PartsAreDigits(fraction, y);
      c := Scan(start + 1 + z, z, |whole|);
      ScanFraction(s, start, c, fraction[y..]);
    }
    g := ScanDigits(s, start, Significand(c, 0, 0));
  }

  // ----- scanning the exponent -----

  lemma {:induction false} OverflowStays(s: string, w: Power)
    requires w.end <= |s| && w.overflow
    ensures ScanPower(s, w).overflow && ScanPower(s, w).k == w.k
    decreases |s| - w.end
  {
    if DigitOf(At(s, w.end)) < 10 { OverflowStays(s, Power(w.k, true, w.end + 1)); }
  }

  lemma FirstOfNumber(t: string)
    requires OnlyDigits(t) && t != ""
    ensures OnlyDigits(t[1..]) && NumberOf(t) == DigitOf(t[0]) * Pow(10, |t| - 1) + NumberOf(t[1..])
  {
    assert t == t[..1] + t[1..] && t[..1][..0] == "";
    NumberConcat(t[..1], t[1..]);
    assert NumberOf(t[..1]) == DigitOf(t[0]);
  }

  lemma ShiftIn(k: nat, c: nat, p: nat, n: nat)
    ensures (k * 10 + c) * p + n == k * (10 * p) + (c * p + n)
  {
    MulDistrib(p, k * 10, c);
    MulAssoc(k, 10, p);
  }

  lemma LargeAlready(k: nat, p: nat, n: nat)
    requires k > EXPONENT_LIMIT && p > 0
    ensures k * (10 * p) + n >= HUGE
  {
    MulAssoc(k, 10, p);
    MulGrows(k * 10, p);
  }

  /** The digits of an exponent give its value, or the mark that it is huge. */
  lemma {:induction false} PowerValue(s: string, w: Power, t: string)
    requires w.end <= |s| && !w.overflow && OnlyDigits(t) && HoldsAt(s, w.end, t) && DigitOf(At(s, w.end + |t|)) >= 10
    requires w.k < HUGE
    ensures var r, v := ScanPower(s, w), w.k * Pow(10, |t|) + NumberOf(t);
            if r.overflow then r.k > 0 && v >= HUGE else r.k == v < HUGE
    decreases |t|
  {
    if t == "" {
      PowZero(10);
    } else {
      var rest, c := t[1..], DigitOf(t[0]);
      FirstThenRest(s, w.end, t);
      FirstOfNumber(t);
      DivTenStep(|t|);
      PowerTurn(s, w);
      hide HoldsAt, OnlyDigits, NumberOf, Pow, ScanPower;
      if w.k > EXPONENT_LIMIT {
        OverflowStays(s, Power(w.k, true, w.end + 1));
        LargeAlready(w.k, Pow(10, |rest|), NumberOf(t));
      } else {
        ShiftIn(w.k, c, Pow(10, |rest|), NumberOf(rest));
        PowerValue(s, Power(w.k * 10 + c, false, w.end + 1), rest);
      }
    }
  }

  lemma FirstThenRest(s: string, p: nat, t: string)
    requires HoldsAt(s, p, t) && OnlyDigits(t) && t != ""
    ensures HoldsAt(s, p + 1, t[1..]) && At(s, p) == t[0] && DigitOf(t[0]) < 10 && p < |s|
  {
    assert t == t[..1] + t[1..];
    HoldsConcat(s, p, t[..1], t[1..]);
    HoldsFirst(s, p, t);
  }

  lemma PowerTurn(s: string, w: Power)
    requires w.end < |s| && !w.overflow && DigitOf(At(s, w.end)) < 10
    ensures ScanPower(s, w)
         == ScanPower(s, if w.k > EXPONENT_LIMIT then Power(w.k, true, w.end + 1)
                         else Power(w.k * 10 + DigitOf(At(s, w.end)), false, w.end + 1))
  {
  }

  lemma DivTenStep(n: nat)
    requires n > 0
    ensures Pow(10, n) == 10 * Pow(10, n - 1)
  {
  }

  /** The whole exponent, sign and digits. */
  lemma ScanTail(s: string, start: nat, p: nat, t: Tail)
    requires start < p <= |s| && IsTail(t) && HoldsAt(s, p, TailText(t)) && DigitOf(At(s, p + |TailText(t)|)) >= 10
    requires t.Plain? ==> !IsExponentMark(At(s, p))
    ensures IsTailRead(t, ReadExponent(s, start, p))
  {
    if t.Scaled? {
      hide HoldsAt, OnlyDigits, NumberOf, ScanPower, ReadExponent, At;
      var q := TailStands(s, p, t.mark, t.sign, t.digits);
      ScanSigned(s, q, t.digits);
      MarkThenDigits(s, start, p, q);
    }
  }

  lemma MarkThenDigits(s: string, start: nat, p: nat, q: nat)
    requires start < p <= |s| && IsExponentMark(At(s, p)) && q + 1 <= |s| && DigitOf(At(s, q)) < 10
    requires q == if At(s, p + 1) == '+' || At(s, p + 1) == '-' then p + 2 else p + 1
    ensures var r := ScanPower(s, Power(DigitOf(At(s, q)), false, q + 1));
            ReadExponent(s, start, p) == Exponent(if At(s, p + 1) == '-' then 0 - r.k else r.k, r.overflow)
  {
    hide ScanPower;
  }

  lemma TailStands(s: string, p: nat, mark: char, sign: string, digits: string) returns (q: nat)
    requires HoldsAt(s, p, [mark] + (sign + digits)) && IsSign(sign) && OnlyDigits(digits) && digits != ""
    ensures q == p + 1 + |sign| && HoldsAt(s, q, digits) && At(s, p) == mark
    ensures sign == "" ==> '0' <= At(s, p + 1) <= '9'
    ensures sign != "" ==> At(s, p + 1) == sign[0]
  {
    q := p + 1 + |sign|;
    HoldsConcat(s, p, [mark], sign + digits);
    HoldsConcat(s, p + 1, sign, digits);
    HoldsFirst(s, p, [mark]);
    HoldsFirst(s, q, digits);
    if sign != "" { HoldsFirst(s, p + 1, sign); }
  }

  lemma ScanSigned(s: string, q: nat, digits: string)
    requires OnlyDigits(digits) && digits != "" && HoldsAt(s, q, digits) && DigitOf(At(s, q + |digits|)) >= 10
    ensures DigitOf(At(s, q)) < 10 && q + 1 <= |s|
    ensures var r := ScanPower(s, Power(DigitOf(At(s, q)), false, q + 1));
            if r.overflow then r.k > 0 && NumberOf(digits) >= HUGE else r.k == NumberOf(digits) < HUGE
  {
    hide NumberOf, ScanPower, Pow;
    var rest := digits[1..];
    FirstThenRest(s, q, digits);
    FirstOfNumber(digits);
    PowerValue(s, Power(DigitOf(digits[0]), false, q + 1), rest);
  }

  // ----- the literal -----

  /** Where the parts of a literal stand. */
  lemma LiteralStands(s: string, l: Literal, rest: string) returns (p: nat)
    requires IsLiteral(l) && s == Text(l) + rest
    requires Terminates(At(s, |Text(l)|)) && !IsExponentMark(At(s, |Text(l)|))
    ensures |l.sign| < p <= |s| && Stands(s, |l.sign|, l.whole, l.point, l.fraction)
    ensures p == |l.sign| + |l.whole| + |PointText(l.point)| + |l.fraction|
    ensures HoldsAt(s, 0, l.sign)
    ensures HoldsAt(s, p, TailText(l.tail)) && (l.tail.Plain? ==> !IsExponentMark(At(s, p)))
    ensures DigitOf(At(s, p + |TailText(l.tail)|)) >= 10
  {
    hide HoldsAt, OnlyDigits, TailText, At;
    var start, tail, point := |l.sign|, TailText(l.tail), PointText(l.point);
    var q := start + |l.whole| + |point|;
    p := q + |l.fraction|;
    PartsStand(s, l.sign, l.whole, point, l.fraction, tail, rest, start, start + |l.whole|, q, p);
    AfterMantissa(s, l, p);
    if l.point { HoldsFirst(s, start + |l.whole|, "."); }
  }

  lemma AfterMantissa(s: string, l: Literal, p: nat)
    requires IsTail(l.tail) && HoldsAt(s, p, TailText(l.tail))
    requires var c := At(s, p + |TailText(l.tail)|); Terminates(c) && !IsExponentMark(c)
    ensures Terminates(At(s, p)) && (IsExponentMark(At(s, p)) <==> l.tail.Scaled?)
  {
    if l.tail.Scaled? { HoldsFirst(s, p, TailText(l.tail)); }
  }

  lemma PartsStand(s: string, sign: string, whole: string, point: string, fraction: string, tail: string, rest: string,
                   p1: nat, p2: nat, p3: nat, p4: nat)
    requires s == sign + (whole + (point + (fraction + tail))) + rest
    requires p1 == |sign| && p2 == p1 + |whole| && p3 == p2 + |point| && p4 == p3 + |fraction|
    ensures HoldsAt(s, 0, sign) && HoldsAt(s, p1, whole) && HoldsAt(s, p2, point) && HoldsAt(s, p3, fraction)
    ensures HoldsAt(s, p4, tail) && |s| == p4 + |tail| + |rest|
  {
    var c := fraction + tail;
    var b := point + c;
    var a := whole + b;
    Prefix(s, sign + a, rest);
    hide HoldsAt;
    HoldsConcat(s, 0, sign, a);
    HoldsConcat(s, p1, whole, b);
    HoldsConcat(s, p2, point, c);
    HoldsConcat(s, p3, fraction, tail);
  }

  lemma Prefix(s: string, t: string, rest: string)
    requires s == t + rest
    ensures HoldsAt(s, 0, t)
  {
  }

  lemma LiteralBegins(s: string, l: Literal)
    requires IsLiteral(l) && Stands(s, |l.sign|, l.whole, l.point, l.fraction) && HoldsAt(s, 0, l.sign)
    ensures StartOf(s) == |l.sign| && (At(s, 0) == '-' <==> l.sign == "-") && !("Infinity" <= s[StartOf(s)..])
  {
    var start := |l.sign|;
    if l.sign != "" { HoldsFirst(s, 0, l.sign); }
    if l.whole != "" { HoldsFirst(s, start, l.whole); }
    assert At(s, start) == '.' || '0' <= At(s, start) <= '9';
    assert start < |s| && s[start..][0] == s[start] && "Infinity"[0] == 'I';
  }

  /** As long as the place of the first digit fits in 32 bits, checks and conversion give the rounded value. */
  lemma FinishIsRounded(negative: bool, g: Significand, k: int, z: nat, f: int, a: bits64)
    requires f == k - (z + g.count - (if g.at.dot < 0 then g.at.pos else g.at.dot)) && g.count <= MAX_SIGNIFICANT
    requires if g.count > 0 then Pow(10, g.count - 1) <= g.value < Pow(10, g.count) else g.value == 0
    requires g.count > 0 ==> -0x8000_0000 <= f + g.count < 0x8000_0000
    requires NumberText.IsValueOf(Finish(negative, g, k, z), true, a)
    ensures IsRounded(negative, g.value, f, a)
  {
    hide Pow, IsNearest, Decode, Wrap32;
    if g.count > 0 {
      WrapsOnce(f, g.count);
      OutOfRange(negative, g.value, g.count, f, a);
    }
  }

  lemma WrapsOnce(f: int, c: nat)
    ensures Wrap32(Wrap32(f) + c) == Wrap32(f + c)
    ensures c <= MAX_SIGNIFICANT && -0x8000_0000 <= f + c < 0x8000_0000 && -1000 < Wrap32(f + c) < 1000 ==>
              Wrap32(f) == f
  {
  }

  /** Beyond that, the checks see the opposite sign. */
  lemma FinishWraps(negative: bool, g: Significand, k: int, z: nat, f: int)
    requires f == k - (z + g.count - (if g.at.dot < 0 then g.at.pos else g.at.dot)) && 0 < g.count
    requires -0x1_0000_0000 + 1000 <= f + g.count <= 0x1_0000_0000 - 1000
    ensures f + g.count >= 0x8000_0000 ==> Finish(negative, g, k, z) == Vanishes(negative)
    ensures f + g.count < -0x8000_0000 ==> Finish(negative, g, k, z) == Overflows(negative)
  {
    WrapsOnce(f, g.count);
  }

  lemma OutOfRange(negative: bool, value: nat, count: nat, f: int, a: bits64)
    requires count > 0 && Pow(10, count - 1) <= value < Pow(10, count)
    ensures f + count >= 310 && Decode(a) == Infinite(negative) ==> IsRounded(negative, value, f, a)
    ensures f + count <= -324 && Decode(a) == Zero(negative) ==> IsRounded(negative, value, f, a)
    ensures f + count >= 310 && Decode(a) == Zero(negative) ==> !IsRounded(negative, value, f, a)
    ensures f + count <= -324 && Decode(a) == Infinite(negative) ==> !IsRounded(negative, value, f, a)
  {
    hide Pow, IsNearest, Decode;
    var m, e := NearestExists(value, 10, f);
    if f + count >= 310 {
      OverflowIsNearest(value, count, f, m, e);
    } else if f + count <= -324 {
      VanishIsNearest(value, count, f, m, e);
    }
    if IsRounded(negative, value, f, a) {
      var n, g := RoundedFrom(negative, value, f, a);
      RoundTrip.NearestUnique(value, 10, f, m, e, n, g);
    }
  }

  lemma ReadsFinish(s: string, negative: bool, c: Scan, g: Significand)
    requires var start := StartOf(s);
             && (At(s, 0) == '-' <==> negative) && !("Infinity" <= s[start..]) && start <= |s|
             && c == SkipZeros(s, start, Begin(start)) && g == ScanDigits(s, start, Significand(c, 0, 0))
             && g.at.p > start
    ensures var x := ReadExponent(s, StartOf(s), g.at.p);
            !x.BadExponent? ==> Read(s) == AfterTail(negative, g, x, c.pos)
  {
  }

  /** js_atod reads a literal of at most 38 significant digits as the nearest double exactly when the place of
      its first digit fits in 32 bits: then the digits that count, the place of the point, the exponent and the
      two range checks all agree with its meaning. Otherwise the sum wraps around, and a huge number reads as
      zero, a tiny one as infinity. */
  lemma LiteralIsRounded(s: string, l: Literal, rest: string, ok: bool, a: bits64)
    requires IsLiteral(l) && s == Text(l) + rest && |s| <= 0x7FFF_0000 && Significant(l) <= MAX_SIGNIFICANT
    requires Terminates(At(s, |Text(l)|)) && !IsExponentMark(At(s, |Text(l)|))
    requires NumberText.IsValueOf(Read(s), ok, a)
    ensures ok && (IsRounded(l.sign == "-", Mantissa(l), Scale(l), a) <==> PlaceFits(l))
    ensures !PlaceFits(l) ==> Decode(a) == if Scale(l) > 0 then Zero(l.sign == "-") else Infinite(l.sign == "-")
  {
    hide ScanDigits, SkipZeros, ReadExponent, Read, Finish, NumberOf, LeadingZeros, Pow, IsNearest, Decode, TailValue,
         HoldsAt, OnlyDigits, Stands, Text, TailText, At, IsRounded, PlaceFits;
    var negative, t := l.sign == "-", l.whole + l.fraction;
    var p := LiteralStands(s, l, rest);
    LiteralBegins(s, l);
    var c, g := ScanMantissa(s, |l.sign|, l.whole, l.point, l.fraction);
    ReadsFinish(s, negative, c, g);
    SignificantPart(t, c.pos);
    ScanTail(s, |l.sign|, p, l.tail);
    TailRounds(l, negative, c.pos, g, ReadExponent(s, |l.sign|, p), ok, a);
  }

  /** What js_atod made of an exponent that was read as x. */
  function AfterTail(negative: bool, g: Significand, x: Exponent, z: nat): (r: Reading) {
    match x
    case NoExponent => Finish(negative, g, 0, z)
    case BadExponent => Fails
    case Exponent(k, overflow) =>
      if g.count > 0 && overflow then (if k < 0 then Vanishes(negative) else Overflows(negative))
      else Finish(negative, g, k, z)
  }

  ghost predicate IsTailRead(t: Tail, x: Exponent)
    requires IsTail(t)
  {
    match x
    case NoExponent => t.Plain?
    case BadExponent => false
    case Exponent(k, overflow) =>
      && t.Scaled?
      && (if !overflow then -HUGE < k == TailValue(t) < HUGE
          else if k < 0 then TailValue(t) <= -HUGE else TailValue(t) >= HUGE)
  }

  lemma TailRounds(l: Literal, negative: bool, z: nat, g: Significand, x: Exponent, ok: bool, a: bits64)
    requires IsLiteral(l) && |l.whole + l.fraction| <= 0x7FFF_0000 && g.count <= MAX_SIGNIFICANT
    requires g.count + z == |l.whole + l.fraction| == g.at.pos && g.at.dot == DotOf(l.whole, l.point)
    requires g.value == Mantissa(l) && g.count == Significant(l)
    requires if g.count > 0 then Pow(10, g.count - 1) <= g.value < Pow(10, g.count) else g.value == 0
    requires IsTailRead(l.tail, x) && NumberText.IsValueOf(AfterTail(negative, g, x, z), ok, a)
    ensures ok && (IsRounded(negative, Mantissa(l), Scale(l), a) <==> PlaceFits(l))
    ensures !PlaceFits(l) ==> Decode(a) == if Scale(l) > 0 then Zero(negative) else Infinite(negative)
  {
    hide Pow, IsNearest, Decode, Mantissa, Significant, IsRounded, Wrap32, Finish;
    var k, f := if x.Exponent? then x.k else 0, Scale(l);
    FinishAccepts(negative, g, k, z, ok, a);
    if g.count == 0 {
      ZeroIsRounded(negative, f, a);
    } else {
      OutOfRange(negative, g.value, g.count, f, a);
      if !(x.Exponent? && x.overflow) {
        if PlaceFits(l) { FinishIsRounded(negative, g, k, z, f, a); } else { FinishWraps(negative, g, k, z, f); }
      }
    }
  }

  lemma ZeroIsRounded(negative: bool, f: int, a: bits64)
    requires Decode(a) == Zero(negative)
    ensures IsRounded(negative, 0, f, a)
  {
  }

  lemma FinishAccepts(negative: bool, g: Significand, k: int, z: nat, ok: bool, a: bits64)
    ensures NumberText.IsValueOf(Finish(negative, g, k, z), ok, a) ==> ok
    ensures g.count == 0 && NumberText.IsValueOf(Finish(negative, g, k, z), ok, a) ==> Decode(a) == Zero(negative)
  {
  }

  /** A literal through js_atod, whatever follows it. */
  method ReadLiteral(l: Literal, rest: string) returns (ok: bool, a: bits64)
    requires IsLiteral(l) && |Text(l) + rest| <= 0x7FFF_0000 && Significant(l) <= MAX_SIGNIFICANT
    requires Terminates(At(rest, 0)) && !IsExponentMark(At(rest, 0))
    ensures ok && (IsRounded(l.sign == "-", Mantissa(l), Scale(l), a) <==> PlaceFits(l))
    ensures !PlaceFits(l) ==> Decode(a) == if Scale(l) > 0 then Zero(l.sign == "-") else Infinite(l.sign == "-")
  {
    hide Read, Text, Mantissa, Scale, Significant, IsRounded, PlaceFits, Decode;
    var s := Text(l) + rest;
    assert At(s, |Text(l)|) == At(rest, 0);
    ok, a := NumberText.JsAtod(s);
    LiteralIsRounded(s, l, rest, ok, a);
  }

  // ----- a literal that wraps around -----

  /** t is a string of digits that writes n. */
  ghost predicate Writes(t: string, n: nat) { OnlyDigits(t) && NumberOf(t) == n }

  lemma WritesOn(t: string, n: nat, c: char, u: string)
    requires Writes(t, n) && '0' <= c <= '9' && u == t + [c]
    ensures Writes(u, n * 10 + DigitOf(c))
  {
    NumberPush(t, c);
  }

  lemma NineDigits()
    ensures Writes("123456789", 123456789)
  {
    assert Writes("", 0);
    hide Writes;
    WritesOn("", 0, '1', "1");
    WritesOn("1", 1, '2', "12");
    WritesOn("12", 12, '3', "123");
    WritesOn("123", 123, '4', "1234");
    WritesOn("1234", 1234, '5', "12345");
    WritesOn("12345", 12345, '6', "123456");
    WritesOn("123456", 123456, '7', "1234567");
    WritesOn("1234567", 1234567, '8', "12345678");
    WritesOn("12345678", 12345678, '9', "123456789");
  }

  lemma TenDigits()
    ensures Writes("2147483639", 2147483639)
  {
    assert Writes("", 0);
    hide Writes;
    WritesOn("", 0, '2', "2");
    WritesOn("2", 2, '1', "21");
    WritesOn("21", 21, '4', "214");
    WritesOn("214", 214, '7', "2147");
    WritesOn("2147", 2147, '4', "21474");
    WritesOn("21474", 21474, '8', "214748");
    WritesOn("214748", 214748, '3', "2147483");
    WritesOn("2147483", 2147483, '6', "21474836");
    WritesOn("21474836", 21474836, '3', "214748363");
    WritesOn("214748363", 214748363, '9', "2147483639");
  }

  /** Nine digits before the point are too many for the largest exponent that is not flagged. */
  lemma NineDigitsWrap(whole: string, digits: string, l: Literal)
    requires OnlyDigits(whole) && |whole| == 9 && whole[0] != '0' && Writes(digits, 2147483639) && digits != ""
    requires l == Literal("", whole, false, "", Scaled('e', "", digits))
    ensures IsLiteral(l) && Significant(l) == 9 && Mantissa(l) == NumberOf(whole) && Scale(l) == 2147483639
    ensures !PlaceFits(l)
  {
    assert l.whole + l.fraction == whole;
    LeadingDigit(whole);
  }

  /** 123456789e2147483639 reads as zero, although it is far beyond the range of doubles. */
  lemma HugeReadsAsZero(s: string, ok: bool, a: bits64)
    requires s == "123456789e2147483639" && NumberText.IsValueOf(Read(s), ok, a)
    ensures ok && Decode(a) == Zero(false) && !IsRounded(false, 123456789, 2147483639, a)
  {
    hide Read, NumberOf, Decode, IsRounded, PlaceFits, OnlyDigits, Significant, Mantissa, Scale;
    var whole, digits := "123456789", "2147483639";
    assert s == whole + ("e" + digits);
    var l := Literal("", whole, false, "", Scaled('e', "", digits));
    NineDigits();
    TenDigits();
    NineDigitsWrap(whole, digits, l);
    HugeText(whole, digits, l);
    LiteralIsRounded(s, l, "", ok, a);
  }

  lemma HugeText(whole: string, digits: string, l: Literal)
    requires l == Literal("", whole, false, "", Scaled('e', "", digits))
    ensures Text(l) == whole + ("e" + digits) == Text(l) + "" && |Text(l)| == |whole| + 1 + |digits|
    ensures At(Text(l), |Text(l)|) == '\0'
  {
  }
}
