/** Decimal text: how digits are laid out, and how a text is scanned. */
module DecimalText {
  import opened Powers

  // ----- writing -----

  function DigitChar(d: nat): (r: char)
    requires d < 10
  {
    '0' + d as char
  }

  /** The last `len` decimal digits of n. */
  function Digits(n: nat, len: nat): (s: string)
    ensures |s| == len
  {
    if len == 0 then "" else Digits(n / 10, len - 1) + [DigitChar(n % 10)]
  }

  function Zeros(k: nat): (s: string)
    ensures |s| == k
  {
    seq(k, _ => '0')
  }

  /** The dot of output_digits: shown unless it would come last. */
  function Dotted(s: string, dot: nat): (r: string)
    requires dot <= |s|
  {
    if dot == |s| then s else s[..dot] + "." + s[dot..]
  }

  /** The number of decimal digits of n. */
  function Length(n: nat): (r: nat) {
    if n < 10 then 1 else 1 + Length(n / 10)
  }

  /** The text of 0.d1...dp * 10^exponent, as js_dtoa lays it out with an automatic exponent. */
  function Layout(mant: nat, p: nat, exponent: int): (r: string)
    requires p > 0
  {
    var s := Digits(mant, p);
    if exponent <= -6 || exponent > 21 then
      var k := exponent - 1;
      Dotted(s, 1) + (if k < 0 then "e-" else "e+") + Digits(if k < 0 then -k else k, Length(if k < 0 then -k else k))
    else if exponent <= 0 then "0." + Zeros(-exponent) + s
    else if exponent < p then Dotted(s, exponent)
    else s + Zeros(exponent - p)
  }

  /** mant has p digits. */
  ghost predicate HasDigits(mant: nat, p: nat) {
    p > 0 && Pow(10, p - 1) <= mant < Pow(10, p)
  }

  // ----- scanning -----

  /** The text is terminated by a zero character. */
  function At(s: string, i: nat): (r: char) {
    if i < |s| then s[i] else '\0'
  }

  /** to_digit, with everything that is not a decimal digit taken together. */
  function DigitOf(c: char): (r: nat) {
    if '0' <= c <= '9' then (c - '0') as nat else 36
  }

  /** Where a scan is: index in the text, digits passed, and their number at the dot (-1 for none). */
  datatype Scan = Scan(p: nat, pos: nat, dot: int)

  predicate IsPoint(s: string, start: nat, p: nat) {
    At(s, p) == '.' && (p > start || DigitOf(At(s, p + 1)) < 10)
  }

  /** A second dot ends the number. */
  predicate Stops(s: string, start: nat, c: Scan) {
    IsPoint(s, start, c.p) && c.dot >= 0
  }

  function PassPoint(s: string, start: nat, c: Scan): (d: Scan)
    ensures c.p <= |s| ==> d.p <= |s|
    ensures d.p >= c.p
  {
    if IsPoint(s, start, c.p) then Scan(c.p + 1, c.pos, c.pos) else c
  }

  /** The loop of js_atod that skips leading zeros. */
  function SkipZeros(s: string, start: nat, c: Scan): (r: Scan)
    requires c.p <= |s|
    ensures c.p <= r.p <= |s|
    decreases |s| - c.p
  {
    if Stops(s, start, c) then c
    else
      var d := PassPoint(s, start, c);
      if At(s, d.p) != '0' then d else SkipZeros(s, start, Scan(d.p + 1, d.pos + 1, d.dot))
  }

  const MAX_SIGNIFICANT: nat := 38

  datatype Significand = Significand(at: Scan, count: nat, value: nat)

  /** One more digit; those past the limit are dropped. */
  function Push(g: Significand, at: Scan, c: nat): (r: Significand) {
    if g.count < MAX_SIGNIFICANT then Significand(at, g.count + 1, g.value * 10 + c) else g.(at := at)
  }

  /** The loop of js_atod that reads the significant digits. */
  function ScanDigits(s: string, start: nat, g: Significand): (r: Significand)
    requires g.at.p <= |s|
    ensures g.at.p <= r.at.p <= |s|
    decreases |s| - g.at.p
  {
    if Stops(s, start, g.at) then g
    else
      var d := PassPoint(s, start, g.at);
      var c := DigitOf(At(s, d.p));
      if c >= 10 then g.(at := d)
      else ScanDigits(s, start, Push(g, Scan(d.p + 1, d.pos + 1, d.dot), c))
  }

  // ----- what digits are -----

  lemma {:induction false} DigitsSplit(n: nat, len: nat, j: nat)
    requires j <= len
    ensures Digits(n, len) == Digits(n / Pow(10, j), len - j) + Digits(n % Pow(10, j), j)
  {
    if j == 0 {
      PowZero(10);
    } else {
      var p := Pow(10, j - 1);
      DigitsSplit(n / 10, len - 1, j - 1);
      TailDigits(n, p);
      assert Pow(10, j) == 10 * p;
    }
  }

  lemma TailDigits(n: nat, p: nat)
    requires p > 0
    ensures n / 10 / p == n / (10 * p) && n % (10 * p) % 10 == n % 10 && n % (10 * p) / 10 == n / 10 % p
  {
    DivTwiceParts(n, 10, p);
    var q := n / 10 % p;
    DivUnique(q * 10 + n % 10, 10, q, n % 10);
  }

  lemma {:induction false} ZerosAreDigits(k: nat)
    ensures Zeros(k) == Digits(0, k)
  {
    if k > 0 {
      ZerosAreDigits(k - 1);
      assert Zeros(k) == Zeros(k - 1) + ['0'];
    }
  }

  /** A number of p digits does not begin with a zero. */
  lemma FirstDigit(n: nat, p: nat)
    requires p > 0 && Pow(10, p - 1) <= n < Pow(10, p)
    ensures '1' <= Digits(n, p)[0] <= '9'
  {
    var t := Pow(10, p - 1);
    DigitsSplit(n, p, p - 1);
    QuotientBelow(n, t, 10);
    QuotientBelowOne(n, t);
    assert Digits(n / t, 1) == Digits(n / t / 10, 0) + [DigitChar(n / t % 10)];
  }

  lemma QuotientBelow(n: nat, t: nat, q: nat)
    requires t > 0 && n < q * t
    ensures n / t < q
  {
    DivParts(n, t);
    MulCancelStrict(n / t, q, t);
  }

  lemma QuotientBelowOne(n: nat, t: nat)
    requires 0 < t <= n
    ensures 1 <= n / t
  {
    DivParts(n, t);
  }

  lemma {:induction false} LengthDigits(n: nat)
    ensures n > 0 ==> Pow(10, Length(n) - 1) <= n < Pow(10, Length(n))
    ensures n < Pow(10, Length(n))
  {
    if n < 10 {
      PowZero(10);
      assert Pow(10, 1) == 10 * Pow(10, 0);
    } else {
      LengthDigits(n / 10);
      assert Pow(10, Length(n)) == 10 * Pow(10, Length(n / 10));
      assert Pow(10, Length(n) - 1) == 10 * Pow(10, Length(n / 10) - 1);
    }
  }

  // ----- scanning what was written -----

  /** The text holds t from index p on. */
  predicate HoldsAt(s: string, p: nat, t: string) {
    p + |t| <= |s| && s[p..p + |t|] == t
  }

  lemma HoldsConcat(s: string, p: nat, t: string, u: string)
    requires HoldsAt(s, p, t + u)
    ensures HoldsAt(s, p, t) && HoldsAt(s, p + |t|, u)
  {
    var w := s[p..p + |t| + |u|];
    assert s[p..p + |t|] == w[..|t|] == t;
    assert s[p + |t|..p + |t| + |u|] == w[|t|..] == u;
  }

  lemma HoldsFirst(s: string, p: nat, t: string)
    requires HoldsAt(s, p, t) && t != ""
    ensures At(s, p) == t[0]
  {
    assert s[p..p + |t|][0] == s[p];
  }

  lemma ReadDigit(s: string, start: nat, g: Significand)
    requires g.at.p <= |s| && DigitOf(At(s, g.at.p)) < 10
    ensures g.at.p < |s|
    ensures ScanDigits(s, start, g)
         == ScanDigits(s, start, Push(g, Scan(g.at.p + 1, g.at.pos + 1, g.at.dot), DigitOf(At(s, g.at.p))))
  {
  }

  /** The scan after a run of `len` digits that write n. */
  function AfterRun(g: Significand, n: nat, len: nat): (r: Significand) {
    Significand(Scan(g.at.p + len, g.at.pos + len, g.at.dot), g.count + len, g.value * Pow(10, len) + n)
  }

  lemma NextInRun(g: Significand, n: nat, len: nat)
    requires len > 0 && g.count + len <= MAX_SIGNIFICANT
    ensures var h := AfterRun(g, n / 10, len - 1);
            AfterRun(g, n, len) == Push(h, Scan(h.at.p + 1, h.at.pos + 1, h.at.dot), n % 10)
  {
    RunValue(g.value, Pow(10, len - 1), n);
  }

  /** A run of digits is read as the number it writes. */
  lemma {:induction false} ReadRun(s: string, start: nat, g: Significand, n: nat, len: nat)
    requires g.at.p <= |s| && HoldsAt(s, g.at.p, Digits(n, len)) && g.count + len <= MAX_SIGNIFICANT && n < Pow(10, len)
    ensures ScanDigits(s, start, g) == ScanDigits(s, start, AfterRun(g, n, len))
  {
    if len == 0 {
      EmptyRun(g, n);
    } else {
      var p, last := g.at.p + (len - 1), DigitChar(n % 10);
      var t := Digits(n / 10, len - 1);
      HoldsConcat(s, g.at.p, t, [last]);
      HoldsFirst(s, p, [last]);
      assert n / 10 < Pow(10, len - 1);
      ReadRun(s, start, g, n / 10, len - 1);
      ReadNext(s, start, g, n, len);
    }
  }

  lemma EmptyRun(g: Significand, n: nat)
    requires n < Pow(10, 0)
    ensures AfterRun(g, n, 0) == g
  {
  }

  lemma ReadNext(s: string, start: nat, g: Significand, n: nat, len: nat)
    requires len > 0 && g.count + len <= MAX_SIGNIFICANT && g.at.p + len <= |s|
    requires At(s, g.at.p + (len - 1)) == DigitChar(n % 10)
    ensures ScanDigits(s, start, AfterRun(g, n / 10, len - 1)) == ScanDigits(s, start, AfterRun(g, n, len))
  {
    hide ScanDigits, Pow;
    assert DigitOf(DigitChar(n % 10)) == n % 10;
    ReadDigit(s, start, AfterRun(g, n / 10, len - 1));
    NextInRun(g, n, len);
  }

  lemma RunValue(v: nat, p: nat, n: nat)
    ensures (v * p + n / 10) * 10 + n % 10 == v * (10 * p) + n
  {
    MulAssoc(v, p, 10);
  }

  lemma ReadPoint(s: string, start: nat, g: Significand)
    requires start < g.at.p < |s| && At(s, g.at.p) == '.' && g.at.dot < 0 && At(s, g.at.p + 1) != '.'
    ensures ScanDigits(s, start, g) == ScanDigits(s, start, g.(at := Scan(g.at.p + 1, g.at.pos, g.at.pos)))
  {
  }

  lemma ReadEnd(s: string, start: nat, g: Significand)
    requires g.at.p <= |s| && DigitOf(At(s, g.at.p)) >= 10 && At(s, g.at.p) != '.'
    ensures ScanDigits(s, start, g) == g
  {
  }

  /** Leading zeros are passed one by one. */
  lemma {:induction false} SkipRun(s: string, start: nat, c: Scan, k: nat)
    requires c.p <= |s| && HoldsAt(s, c.p, Zeros(k)) && At(s, c.p + k) != '0' && At(s, c.p + k) != '.'
    ensures SkipZeros(s, start, c) == Scan(c.p + k, c.pos + k, c.dot)
    decreases k
  {
    if k > 0 {
      assert Zeros(k) == ['0'] + Zeros(k - 1);
      HoldsConcat(s, c.p, ['0'], Zeros(k - 1));
      HoldsFirst(s, c.p, ['0']);
      SkipRun(s, start, Scan(c.p + 1, c.pos + 1, c.dot), k - 1);
    }
  }

  // ----- exponents -----

  const EXPONENT_LIMIT: nat := (0x7FFF_FFFF - 2 - 9) / 10

  datatype Power = Power(k: nat, overflow: bool, end: nat)

  /** The loop of js_atod that reads the digits of an exponent. */
  function ScanPower(s: string, w: Power): (r: Power)
    requires w.end <= |s|
    ensures w.end <= r.end <= |s|
    decreases |s| - w.end
  {
    var c := DigitOf(At(s, w.end));
    if c >= 10 then w
    else if w.overflow || w.k > EXPONENT_LIMIT then ScanPower(s, Power(w.k, true, w.end + 1))
    else ScanPower(s, Power(w.k * 10 + c, false, w.end + 1))
  }

  datatype Exponent = NoExponent | BadExponent | Exponent(k: int, overflow: bool)

  predicate IsExponentMark(c: char) { c == 'e' || c == 'E' }

  function ReadExponent(s: string, start: nat, p: nat): (r: Exponent)
    requires p <= |s|
  {
    if !IsExponentMark(At(s, p)) || p <= start then NoExponent
    else
      var q := if At(s, p + 1) == '+' || At(s, p + 1) == '-' then p + 2 else p + 1;
      var c := DigitOf(At(s, q));
      if c >= 10 then BadExponent
      else
        var w := ScanPower(s, Power(c, false, q + 1));
        Exponent(if At(s, p + 1) == '-' then 0 - w.k else w.k, w.overflow)
  }

  function AfterPower(w: Power, n: nat, len: nat): (r: Power) {
    Power(w.k * Pow(10, len) + n, false, w.end + len)
  }

  lemma PowerSteps(w: Power, n: nat, len: nat)
    requires len > 0 && w.k * Pow(10, len) + n <= EXPONENT_LIMIT
    ensures var v := AfterPower(w, n / 10, len - 1);
            v.k <= EXPONENT_LIMIT && AfterPower(w, n, len) == Power(v.k * 10 + n % 10, false, v.end + 1)
  {
    RunValue(w.k, Pow(10, len - 1), n);
  }

  lemma {:induction false} PowerRun(s: string, w: Power, n: nat, len: nat)
    requires w.end <= |s| && !w.overflow && HoldsAt(s, w.end, Digits(n, len)) && n < Pow(10, len)
    requires w.k * Pow(10, len) + n <= EXPONENT_LIMIT
    ensures ScanPower(s, w) == ScanPower(s, AfterPower(w, n, len))
    decreases len
  {
    if len == 0 {
      EmptyPower(w, n);
    } else {
      var p, last, t := w.end + (len - 1), DigitChar(n % 10), Digits(n / 10, len - 1);
      HoldsConcat(s, w.end, t, [last]);
      HoldsFirst(s, p, [last]);
      assert n / 10 < Pow(10, len - 1);
      PowerSteps(w, n, len);
      PowerRun(s, w, n / 10, len - 1);
      PowerNext(s, AfterPower(w, n / 10, len - 1), n % 10);
    }
  }

  lemma EmptyPower(w: Power, n: nat)
    requires !w.overflow && n < Pow(10, 0)
    ensures AfterPower(w, n, 0) == w
  {
  }

  lemma PowerNext(s: string, w: Power, c: nat)
    requires c < 10 && w.end < |s| && !w.overflow && w.k <= EXPONENT_LIMIT && At(s, w.end) == DigitChar(c)
    ensures ScanPower(s, w) == ScanPower(s, Power(w.k * 10 + c, false, w.end + 1))
  {
    assert DigitOf(DigitChar(c)) == c;
  }
}
