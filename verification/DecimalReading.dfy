/** What js_atod reads in the texts that js_dtoa writes. */
module DecimalReading {
  import opened Powers
  import opened DecimalText

  /** What a text says: a decimal number value * 10^expn, a value out of range, or nothing at all. */
  datatype Reading = Fails | Overflows(negative: bool) | Vanishes(negative: bool)
                   | Reads(negative: bool, value: nat, expn: int)

  const MAX_EXPONENT: int := 309
  const MIN_EXPONENT: int := -324

  /** A sum as a 32-bit int holds it. */
  function Wrap32(x: int): (r: int)
    ensures -0x8000_0000 <= r < 0x8000_0000
    ensures -0x8000_0000 <= x < 0x8000_0000 ==> r == x
  {
    (x + 0x8000_0000) % 0x1_0000_0000 - 0x8000_0000
  }

  /** The range checks after the scan; both sums are 32-bit. */
  function Finish(negative: bool, g: Significand, k: int, sigPos: nat): (r: Reading) {
    if g.count == 0 then Vanishes(negative)
    else
      var dot := if g.at.dot < 0 then g.at.pos else g.at.dot;
      var expn := Wrap32(k - (sigPos + g.count - dot));
      var expn1 := Wrap32(expn + g.count);
      if expn1 >= MAX_EXPONENT + 1 then Overflows(negative)
      else if expn1 <= MIN_EXPONENT then Vanishes(negative)
      else Reads(negative, g.value, expn)
  }

  function StartOf(s: string): (r: nat) { if At(s, 0) == '+' || At(s, 0) == '-' then 1 else 0 }

  function Begin(start: nat): (r: Scan) { Scan(start, 0, -1) }

  /** js_atod with radix 10 and no flags. */
  function Read(s: string): (r: Reading) {
    var start, negative := StartOf(s), At(s, 0) == '-';
    if "Infinity" <= s[start..] then Overflows(negative)
    else
      var c := SkipZeros(s, start, Begin(start));
      var g := ScanDigits(s, start, Significand(c, 0, 0));
      match ReadExponent(s, start, g.at.p)
      case BadExponent => Fails
      case NoExponent => if g.at.p == start then Fails else Finish(negative, g, 0, c.pos)
      case Exponent(k, overflow) =>
        if g.count > 0 && overflow then (if k < 0 then Vanishes(negative) else Overflows(negative))
        else Finish(negative, g, k, c.pos)
  }

  // ----- digits with or without a dot -----

  predicate Terminates(c: char) { DigitOf(c) >= 10 && c != '.' }

  /** A text that begins with a digit other than 0 has no zeros to skip. */
  lemma NothingToSkip(s: string, start: nat, c: Scan)
    requires c.p < |s| && '1' <= At(s, c.p) <= '9'
    ensures SkipZeros(s, start, c) == c
  {
  }

  lemma Halves(mant: nat, p: nat, d: nat)
    requires d <= p && mant < Pow(10, p)
    ensures mant / Pow(10, p - d) < Pow(10, d) && mant % Pow(10, p - d) < Pow(10, p - d)
    ensures mant / Pow(10, p - d) * Pow(10, p - d) + mant % Pow(10, p - d) == mant
  {
    PowAdd(10, d, p - d);
    DivParts(mant, Pow(10, p - d));
    QuotientBelow(mant, Pow(10, p - d), Pow(10, d));
  }

  /** A dotted text is two runs of digits around the dot. */
  lemma DottedLayout(s: string, start: nat, mant: nat, p: nat, d: nat, hi: nat, lo: nat)
    requires 1 <= d < p && HoldsAt(s, start, Dotted(Digits(mant, p), d))
    requires hi == mant / Pow(10, p - d) && lo == mant % Pow(10, p - d)
    ensures HoldsAt(s, start, Digits(hi, d)) && HoldsAt(s, start + d + 1, Digits(lo, p - d))
    ensures At(s, start + d) == '.' && At(s, start + d + 1) != '.'
  {
    var j := p - d;
    DigitsSplit(mant, p, j);
    DigitsAreDigits(lo, j, 0);
    hide Digits, Pow;
    assert Dotted(Digits(mant, p), d) == Digits(hi, d) + ("." + Digits(lo, j));
    HoldsConcat(s, start, Digits(hi, d), "." + Digits(lo, j));
    HoldsConcat(s, start + d, ".", Digits(lo, j));
    HoldsFirst(s, start + d, ".");
    HoldsFirst(s, start + d + 1, Digits(lo, j));
  }

  lemma ReadTwoRuns(s: string, start: nat, g: Significand, hi: nat, d: nat, lo: nat, j: nat)
    requires g == Significand(Scan(start, 0, -1), 0, 0) && 1 <= d && 1 <= j && d + j <= MAX_SIGNIFICANT
    requires hi < Pow(10, d) && lo < Pow(10, j)
    requires HoldsAt(s, start, Digits(hi, d)) && HoldsAt(s, start + d + 1, Digits(lo, j))
    requires At(s, start + d) == '.' && At(s, start + d + 1) != '.' && Terminates(At(s, start + d + 1 + j))
    ensures ScanDigits(s, start, g) == Significand(Scan(start + d + 1 + j, d + j, d), d + j, hi * Pow(10, j) + lo)
  {
    hide ScanDigits, Pow, Digits;
    ReadRun(s, start, g, hi, d);
    var a := AfterRun(g, hi, d);
    ReadPoint(s, start, a);
    var b := a.(at := Scan(start + d + 1, d, d));
    ReadRun(s, start, b, lo, j);
    ReadEnd(s, start, AfterRun(b, lo, j));
  }

  /** The scan of p digits with a dot after the first d. */
  lemma ReadDotted(s: string, start: nat, g: Significand, mant: nat, p: nat, d: nat)
    requires g == Significand(Scan(start, 0, -1), 0, 0) && 1 <= d < p <= MAX_SIGNIFICANT && mant < Pow(10, p)
    requires HoldsAt(s, start, Dotted(Digits(mant, p), d)) && Terminates(At(s, start + p + 1))
    ensures ScanDigits(s, start, g) == Significand(Scan(start + p + 1, p, d), p, mant)
  {
    hide ScanDigits, Pow, Digits;
    var hi, lo := mant / Pow(10, p - d), mant % Pow(10, p - d);
    Halves(mant, p, d);
    DottedLayout(s, start, mant, p, d, hi, lo);
    ReadTwoRuns(s, start, g, hi, d, lo, p - d);
  }

  lemma {:induction false} DigitsAreDigits(n: nat, len: nat, i: nat)
    requires i < len
    ensures '0' <= Digits(n, len)[i] <= '9'
  {
    if i < len - 1 { DigitsAreDigits(n / 10, len - 1, i); }
  }

  /** The scan of p digits followed by z zeros. */
  lemma ReadWhole(s: string, start: nat, g: Significand, mant: nat, p: nat, z: nat)
    requires g == Significand(Scan(start, 0, -1), 0, 0) && p + z <= MAX_SIGNIFICANT && mant < Pow(10, p)
    requires HoldsAt(s, start, Digits(mant, p) + Zeros(z)) && Terminates(At(s, start + p + z))
    ensures ScanDigits(s, start, g) == Significand(Scan(start + p + z, p + z, -1), p + z, mant * Pow(10, z))
  {
    hide ScanDigits, Pow, Digits;
    HoldsConcat(s, start, Digits(mant, p), Zeros(z));
    ZerosAreDigits(z);
    ReadRun(s, start, g, mant, p);
    ReadRun(s, start, AfterRun(g, mant, p), 0, z);
    ReadEnd(s, start, AfterRun(AfterRun(g, mant, p), 0, z));
  }

  lemma FractionLayout(s: string, start: nat, mant: nat, p: nat, k: nat)
    requires HasDigits(mant, p) && HoldsAt(s, start, "0." + Zeros(k) + Digits(mant, p))
    ensures At(s, start) == '0' && At(s, start + 1) == '.' && HoldsAt(s, start + 2, Zeros(k))
    ensures start + 2 + k + p <= |s|
    ensures HoldsAt(s, start + 2 + k, Digits(mant, p)) && '1' <= At(s, start + 2 + k) <= '9'
  {
    var t := Digits(mant, p);
    FirstDigit(mant, p);
    hide Digits, Pow;
    assert "0." + Zeros(k) + t == "0" + ("." + (Zeros(k) + t));
    HoldsConcat(s, start, "0", "." + (Zeros(k) + t));
    HoldsConcat(s, start + 1, ".", Zeros(k) + t);
    HoldsConcat(s, start + 2, Zeros(k), t);
    HoldsFirst(s, start, "0");
    HoldsFirst(s, start + 1, ".");
    HoldsFirst(s, start + 2 + k, t);
  }

  /** The scan of p digits after "0." and k zeros. */
  lemma ReadFraction(s: string, start: nat, mant: nat, p: nat, k: nat)
    requires HasDigits(mant, p) && p <= MAX_SIGNIFICANT
    requires HoldsAt(s, start, "0." + Zeros(k) + Digits(mant, p)) && Terminates(At(s, start + 2 + k + p))
    ensures SkipZeros(s, start, Begin(start)) == Scan(start + 2 + k, 1 + k, 1)
    ensures ScanDigits(s, start, Significand(Scan(start + 2 + k, 1 + k, 1), 0, 0))
         == Significand(Scan(start + 2 + k + p, 1 + k + p, 1), p, mant)
  {
    hide ScanDigits, SkipZeros, Pow, Digits, HoldsAt;
    FractionLayout(s, start, mant, p, k);
    SkipRun(s, start, Scan(start + 2, 1, 1), k);
    PassDot(s, start, k);
    ReadOneRun(s, start, Significand(Scan(start + 2 + k, 1 + k, 1), 0, 0), mant, p);
  }

  lemma ReadOneRun(s: string, start: nat, g: Significand, mant: nat, p: nat)
    requires g.count == 0 && g.value == 0 && p <= MAX_SIGNIFICANT && mant < Pow(10, p)
    requires HoldsAt(s, g.at.p, Digits(mant, p)) && Terminates(At(s, g.at.p + p))
    ensures ScanDigits(s, start, g) == Significand(Scan(g.at.p + p, g.at.pos + p, g.at.dot), p, mant)
  {
    hide ScanDigits, Pow, Digits;
    ReadRun(s, start, g, mant, p);
    ReadEnd(s, start, AfterRun(g, mant, p));
  }

  lemma PassDot(s: string, start: nat, k: nat)
    requires start + 2 + k < |s| && At(s, start) == '0' && At(s, start + 1) == '.'
    requires HoldsAt(s, start + 2, Zeros(k)) && At(s, start + 2 + k) != '.'
    ensures SkipZeros(s, start, Begin(start)) == SkipZeros(s, start, Scan(start + 2, 1, 1))
  {
    if k > 0 { HoldsFirst(s, start + 2, Zeros(k)); }
    assert At(s, start + 2) != '.';
  }

  // ----- exponents -----

  lemma PowerEnds(s: string, w: Power)
    requires w.end == |s|
    ensures ScanPower(s, w) == w
  {
  }

  lemma ExponentLayout(s: string, q: nat, j: nat, n: nat, t: nat, c: nat)
    requires n == Length(j) && t == Pow(10, n - 1) && c == j / t && HoldsAt(s, q, Digits(j, n))
    ensures c < 10 && At(s, q) == DigitChar(c) && HoldsAt(s, q + 1, Digits(j % t, n - 1))
    ensures c * t + j % t == j && j % t < t
  {
    LengthDigits(j);
    DigitsSplit(j, n, n - 1);
    assert Pow(10, n) == 10 * t;
    QuotientBelow(j, t, 10);
    assert Digits(c, 1) == Digits(c / 10, 0) + [DigitChar(c)] == [DigitChar(c)];
    hide Digits, Pow;
    HoldsConcat(s, q, Digits(c, 1), Digits(j % t, n - 1));
    HoldsFirst(s, q, Digits(c, 1));
    DivParts(j, t);
  }

  lemma ExponentScan(s: string, q: nat, j: nat, n: nat, t: nat, c: nat, r: nat)
    requires n > 0 && t == Pow(10, n - 1) && c < 10 && At(s, q) == DigitChar(c) && HoldsAt(s, q + 1, Digits(r, n - 1))
    requires c * t + r == j <= 400 && r < t && q + n == |s|
    ensures DigitOf(At(s, q)) == c && ScanPower(s, Power(c, false, q + 1)) == Power(j, false, |s|)
  {
    hide ScanPower, Digits, Pow;
    assert DigitOf(DigitChar(c)) == c;
    PowerRun(s, Power(c, false, q + 1), r, n - 1);
    PowerEnds(s, AfterPower(Power(c, false, q + 1), r, n - 1));
  }

  lemma ExponentDigits(s: string, q: nat, j: nat)
    requires j <= 400 && HoldsAt(s, q, Digits(j, Length(j))) && q + Length(j) == |s|
    ensures DigitOf(At(s, q)) < 10 && q < |s|
      && ScanPower(s, Power(DigitOf(At(s, q)), false, q + 1)) == Power(j, false, |s|)
  {
    hide ScanPower, Digits, Pow, HoldsAt;
    var n, t := Length(j), Pow(10, Length(j) - 1);
    ExponentLayout(s, q, j, n, t, j / t);
    ExponentScan(s, q, j, n, t, j / t, j % t);
  }

  function ExponentText(k: int): (r: string) {
    var j: nat := if k < 0 then -k else k;
    (if k < 0 then "e-" else "e+") + Digits(j, Length(j))
  }

  lemma ReadWrittenExponent(s: string, start: nat, p: nat, k: int)
    requires start < p && -400 <= k <= 400 && HoldsAt(s, p, ExponentText(k)) && p + |ExponentText(k)| == |s|
    ensures ReadExponent(s, start, p) == Exponent(k, false) && At(s, p) == 'e'
  {
    var j: nat := if k < 0 then -k else k;
    var mark := if k < 0 then "e-" else "e+";
    hide Digits, ScanPower;
    HoldsConcat(s, p, mark, Digits(j, Length(j)));
    assert s[p..p + 2][0] == s[p] && s[p..p + 2][1] == s[p + 1];
    ExponentDigits(s, p + 2, j);
  }

  // ----- whole texts -----

  function SignText(negative: bool): (r: string) { if negative then "-" else "" }

  /** The zeros written after a whole number. */
  function Padding(p: nat, exponent: int): (r: nat) {
    if 0 < exponent <= 21 && exponent >= p then exponent - p else 0
  }

  lemma ScientificLayout(mant: nat, p: nat, exponent: int)
    requires p > 0 && (exponent <= -6 || exponent > 21)
    ensures Layout(mant, p, exponent) == Dotted(Digits(mant, p), 1) + ExponentText(exponent - 1)
  {
  }

  /** The first character is the sign or a digit. */
  lemma TextBegins(s: string, negative: bool, body: string)
    requires s == SignText(negative) + body && body != "" && '0' <= body[0] <= '9'
    ensures StartOf(s) == |SignText(negative)| && (At(s, 0) == '-' <==> negative)
    ensures !("Infinity" <= s[StartOf(s)..]) && HoldsAt(s, StartOf(s), body) && StartOf(s) + |body| == |s|
  {
    var start := |SignText(negative)|;
    assert s[start..] == body && s[start..start + |body|] == body;
    assert "Infinity"[0] == 'I';
  }

  lemma LayoutBegins(mant: nat, p: nat, exponent: int)
    requires HasDigits(mant, p)
    ensures var t := Layout(mant, p, exponent);
            t != "" && (if -6 < exponent <= 0 then t[0] == '0' else '1' <= t[0] <= '9')
  {
    FirstDigit(mant, p);
  }

  /** Reading the digits of any text written for a number. */
  ghost predicate ReadsAs(s: string, negative: bool, mant: nat, p: nat, exponent: int) {
    var z := Padding(p, exponent);
    Read(s) == Reads(negative, mant * Pow(10, z), exponent - p - z)
  }

  lemma FinishReads(negative: bool, g: Significand, k: int, sigPos: nat, exponent: int)
    requires 0 < g.count <= MAX_SIGNIFICANT && -323 <= exponent <= 309
    requires k - (sigPos - (if g.at.dot < 0 then g.at.pos else g.at.dot)) == exponent
    ensures Finish(negative, g, k, sigPos) == Reads(negative, g.value, exponent - g.count)
  {
  }

  lemma ReadParts(s: string, negative: bool, c: Scan, g: Significand, k: int)
    requires var start := StartOf(s);
             && (At(s, 0) == '-' <==> negative) && !("Infinity" <= s[start..])
             && c == SkipZeros(s, start, Begin(start)) && g == ScanDigits(s, start, Significand(c, 0, 0))
             && g.at.p > start
             && ReadExponent(s, start, g.at.p) in
                  [Exponent(k, false), if k == 0 then NoExponent else Exponent(k, false)]
    ensures Read(s) == Finish(negative, g, k, c.pos)
  {
  }

  lemma NoMark(s: string, start: nat)
    ensures ReadExponent(s, start, |s|) == NoExponent
  {
  }

  lemma ReadSmall(s: string, negative: bool, mant: nat, p: nat, exponent: int)
    requires HasDigits(mant, p) && p <= 17 && -6 < exponent <= 0 && s == SignText(negative) + Layout(mant, p, exponent)
    ensures ReadsAs(s, negative, mant, p, exponent)
  {
    hide Digits, SkipZeros, ScanDigits, ReadExponent, Read, Finish;
    var body, k := Layout(mant, p, exponent), -exponent;
    LayoutBegins(mant, p, exponent);
    TextBegins(s, negative, body);
    var start := StartOf(s);
    ReadFraction(s, start, mant, p, k);
    var c, g := Scan(start + 2 + k, 1 + k, 1), Significand(Scan(start + 2 + k + p, 1 + k + p, 1), p, mant);
    NoMark(s, start);
    ReadParts(s, negative, c, g, 0);
    FinishReads(negative, g, 0, 1 + k, exponent);
    PowZero(10);
  }

  lemma ReadMiddle(s: string, negative: bool, mant: nat, p: nat, exponent: int)
    requires HasDigits(mant, p) && p <= 17 && 0 < exponent < p && s == SignText(negative) + Layout(mant, p, exponent)
    ensures ReadsAs(s, negative, mant, p, exponent)
  {
    hide Digits, SkipZeros, ScanDigits, ReadExponent, Read, Finish;
    var body := Layout(mant, p, exponent);
    LayoutBegins(mant, p, exponent);
    TextBegins(s, negative, body);
    var start := StartOf(s);
    HoldsFirst(s, start, body);
    NothingToSkip(s, start, Begin(start));
    ReadDotted(s, start, Significand(Begin(start), 0, 0), mant, p, exponent);
    var g := Significand(Scan(start + p + 1, p, exponent), p, mant);
    NoMark(s, start);
    ReadParts(s, negative, Begin(start), g, 0);
    FinishReads(negative, g, 0, 0, exponent);
    PowZero(10);
  }

  lemma ReadLarge(s: string, negative: bool, mant: nat, p: nat, exponent: int)
    requires HasDigits(mant, p) && p <= exponent <= 21 && s == SignText(negative) + Layout(mant, p, exponent)
    ensures ReadsAs(s, negative, mant, p, exponent)
  {
    hide Digits, SkipZeros, ScanDigits, ReadExponent, Read, Finish;
    var body, z := Layout(mant, p, exponent), exponent - p;
    LayoutBegins(mant, p, exponent);
    TextBegins(s, negative, body);
    var start := StartOf(s);
    HoldsFirst(s, start, body);
    NothingToSkip(s, start, Begin(start));
    ReadWhole(s, start, Significand(Begin(start), 0, 0), mant, p, z);
    var g := Significand(Scan(start + exponent, exponent, -1), exponent, mant * Pow(10, z));
    NoMark(s, start);
    ReadParts(s, negative, Begin(start), g, 0);
    FinishReads(negative, g, 0, 0, exponent);
  }

  /** The significand of a scientific text, with or without a dot. */
  lemma ReadScientificDigits(s: string, start: nat, mant: nat, p: nat)
    requires HasDigits(mant, p) && p <= 17
    requires HoldsAt(s, start, Dotted(Digits(mant, p), 1)) && Terminates(At(s, start + |Dotted(Digits(mant, p), 1)|))
    ensures ScanDigits(s, start, Significand(Begin(start), 0, 0))
         == Significand(Scan(start + |Dotted(Digits(mant, p), 1)|, p, if p == 1 then -1 else 1), p, mant)
  {
    hide Digits, ScanDigits, Pow;
    if p > 1 {
      ReadDotted(s, start, Significand(Begin(start), 0, 0), mant, p, 1);
    } else {
      assert Dotted(Digits(mant, 1), 1) == Digits(mant, 1) + Zeros(0);
      ReadWhole(s, start, Significand(Begin(start), 0, 0), mant, 1, 0);
      PowZero(10);
    }
  }

  lemma ScientificScan(s: string, start: nat, mant: nat, p: nat, k: int, digits: string)
    requires HasDigits(mant, p) && p <= 17 && -400 <= k <= 400 && digits == Dotted(Digits(mant, p), 1)
    requires HoldsAt(s, start, digits + ExponentText(k)) && start + |digits + ExponentText(k)| == |s|
    ensures digits != "" && ReadExponent(s, start, start + |digits|) == Exponent(k, false)
    ensures ScanDigits(s, start, Significand(Begin(start), 0, 0))
         == Significand(Scan(start + |digits|, p, if p == 1 then -1 else 1), p, mant)
  {
    hide Digits, ScanDigits, ReadExponent, Pow, ExponentText;
    HoldsConcat(s, start, digits, ExponentText(k));
    ReadWrittenExponent(s, start, start + |digits|, k);
    ReadScientificDigits(s, start, mant, p);
  }

  lemma ReadScientific(s: string, negative: bool, mant: nat, p: nat, exponent: int)
    requires HasDigits(mant, p) && p <= 17 && s == SignText(negative) + Layout(mant, p, exponent)
    requires -323 <= exponent <= -6 || 21 < exponent <= 309
    ensures ReadsAs(s, negative, mant, p, exponent)
  {
    hide Digits, SkipZeros, ScanDigits, ReadExponent, Read, Finish, Layout, Dotted, ExponentText;
    var body, digits := Layout(mant, p, exponent), Dotted(Digits(mant, p), 1);
    ScientificLayout(mant, p, exponent);
    LayoutBegins(mant, p, exponent);
    TextBegins(s, negative, body);
    var start := StartOf(s);
    HoldsFirst(s, start, body);
    NothingToSkip(s, start, Begin(start));
    ScientificScan(s, start, mant, p, exponent - 1, digits);
    var g := Significand(Scan(start + |digits|, p, if p == 1 then -1 else 1), p, mant);
    ReadParts(s, negative, Begin(start), g, exponent - 1);
    FinishReads(negative, g, exponent - 1, 0, exponent);
    PowZero(10);
  }

  /** js_atod reads in the text of 0.d1...dp * 10^exponent that very number. */
  lemma LayoutReads(s: string, negative: bool, mant: nat, p: nat, exponent: int)
    requires HasDigits(mant, p) && p <= 17 && -323 <= exponent <= 309
    requires s == SignText(negative) + Layout(mant, p, exponent)
    ensures ReadsAs(s, negative, mant, p, exponent)
  {
    hide ReadsAs, Layout;
    if exponent <= -6 || exponent > 21 {
      ReadScientific(s, negative, mant, p, exponent);
    } else if exponent <= 0 {
      ReadSmall(s, negative, mant, p, exponent);
    } else if exponent < p {
      ReadMiddle(s, negative, mant, p, exponent);
    } else {
      ReadLarge(s, negative, mant, p, exponent);
    }
  }
}
