/** js_dtoa and js_atod for decimal text, and the identity they make together. */
module NumberText {
  import opened Powers
  import opened Limbs
  import opened LimbDivision
  import opened ExactScaling
  import opened SmallPowers
  import opened BigNum
  import opened Doubles
  import opened RoundTrip
  import opened DecimalDigits
  import opened DtoaFree
  import opened DoubleBits
  import opened DecimalText
  import opened DecimalBounds
  import DecimalReading
  import NearestDoubles

  // ----- digits of machine words -----

  /** u32toa_len: exactly `len` digits, written from the last one back. */
  method FixedDigits(n0: nat, len: nat) returns (s: string)
    ensures s == Digits(n0, len)
  {
    var buf := new char[len];
    var n, i := n0, len;
    while i > 0
      invariant 0 <= i <= len && Digits(n0, len) == Digits(n, i) + buf[i..]
    {
      i := i - 1;
      ghost var done := buf[i + 1..];
      buf[i] := DigitChar(n % 10);
      assert buf[i..] == [DigitChar(n % 10)] + done;
      assert Digits(n, i + 1) + done == Digits(n / 10, i) + ([DigitChar(n % 10)] + done);
      n := n / 10;
    }
    s := buf[..];
    assert buf[0..] == buf[..];
  }

  lemma {:induction false} LengthShift(n: nat, k: nat)
    requires n / Pow(10, k) > 0
    ensures Length(n) == Length(n / Pow(10, k)) + k
  {
    if k == 0 {
      PowZero(10);
    } else {
      DivTwice(n, 10, Pow(10, k - 1));
      if n < 10 {
        DivSmaller(n / 10, Pow(10, k - 1));
      } else {
        LengthShift(n / 10, k - 1);
      }
    }
  }

  /** A number split after its last k digits. */
  lemma SplitText(n: nat, k: nat, high: nat, low: nat)
    requires high == n / Pow(10, k) > 0 && low == n % Pow(10, k)
    ensures Digits(n, Length(n)) == Digits(high, Length(high)) + Digits(low, k)
  {
    LengthShift(n, k);
    DigitsSplit(n, Length(n), k);
  }

  /** u32toa. */
  method ShortDigits(n: nat) returns (s: string)
    ensures s == Digits(n, Length(n))
  {
    s := [DigitChar(n % 10)];
    var r: nat := n / 10;
    ghost var k: nat := 1;
    assert Digits(n, 1) == Digits(n / 10, 0) + [DigitChar(n % 10)];
    PowOne(10);
    while r != 0
      invariant s == Digits(n, k) && r == n / Pow(10, k)
      invariant k + (if r == 0 then 0 else Length(r)) == Length(n)
    {
      PrependDigit(n, k, r);
      s := [DigitChar(r % 10)] + s;
      r := r / 10;
      k := k + 1;
    }
  }

  lemma PrependDigit(n: nat, k: nat, r: nat)
    requires r == n / Pow(10, k)
    ensures Digits(n, k + 1) == [DigitChar(r % 10)] + Digits(n, k) && r / 10 == n / Pow(10, k + 1)
  {
    DigitsSplit(n, k + 1, k);
    LowDigits(n, k, k);
    assert Digits(r, 1) == Digits(r / 10, 0) + [DigitChar(r % 10)];
    DivTwice(n, Pow(10, k), 10);
  }

  /** The last k digits do not see the others. */
  lemma {:induction false} LowDigits(n: nat, p: nat, k: nat)
    requires k <= p
    ensures Digits(n % Pow(10, p), k) == Digits(n, k)
  {
    if k > 0 {
      TailDigits(n, Pow(10, p - 1));
      LowDigits(n / 10, p - 1, k - 1);
    }
  }

  lemma Billion()
    ensures Pow(10, 9) == 1000000000
  {
  }

  /** u64toa: nine digits at a time. */
  method U64ToA(n: nat) returns (s: string)
    requires n < WORD64
    ensures s == Digits(n, Length(n))
  {
    if n < 0x1_0000_0000 {
      s := ShortDigits(n);
      return;
    }
    Billion();
    var n1, n0 := n / 1000000000, n % 1000000000;
    SplitText(n, 9, n1, n0);
    var high;
    if n1 >= 0x1_0000_0000 {
      var n3, n2 := n1 / 1000000000, n1 % 1000000000;
      SplitText(n1, 9, n3, n2);
      TwoDigits(n3);
      high := if n3 >= 10 then [DigitChar(n3 / 10), DigitChar(n3 % 10)] else [DigitChar(n3)];
      var middle := FixedDigits(n2, 9);
      high := high + middle;
    } else {
      high := ShortDigits(n1);
    }
    var low := FixedDigits(n0, 9);
    s := high + low;
  }

  lemma TwoDigits(n: nat)
    requires n < 100
    ensures Digits(n, Length(n)) == if n >= 10 then [DigitChar(n / 10), DigitChar(n % 10)] else [DigitChar(n)]
  {
    if n >= 10 {
      assert Length(n) == 2;
      assert Digits(n, 2) == Digits(n / 10, 1) + [DigitChar(n % 10)];
      assert Digits(n / 10, 1) == Digits(n / 10 / 10, 0) + [DigitChar(n / 10 % 10)];
    } else {
      assert Digits(n, 1) == Digits(n / 10, 0) + [DigitChar(n % 10)];
    }
  }

  // ----- output_digits -----

  /** One step of output_digits: the last k digits come from the remainder by 10^9. */
  lemma ChunkDigits(v: nat, n: nat, k: nat, q: nat, r: nat)
    requires k <= n && (k == 9 || k == n < 9) && v == q * 1000000000 + r && r < 1000000000
    ensures Digits(v, n) == Digits(q, n - k) + Digits(r, k)
  {
    Billion();
    DivUnique(v, 1000000000, q, r);
    DigitsSplit(v, n, k);
    LowDigits(v, 9, k);
    LowDigits(v, k, k);
  }

  /** mp_div1 by 10^9 on the whole number. */
  method PopNine(a: Mpb) returns (r: nat)
    requires a.Valid()
    modifies a, a.tab
    ensures a.Valid() && r < 1000000000 && old(a.Val()) == a.Val() * 1000000000 + r
  {
    r := DivSmall(a.tab, a.len, 1000000000, 0);
    a.Renorm();
  }

  /** output_digits for radix 10: digits by nines from the end, then the dot. */
  method OutputDigits(a: Mpb, n: nat, dot: nat) returns (s: string)
    requires a.Valid() && dot <= n
    modifies a, a.tab
    ensures a.Valid() && s == Dotted(Digits(old(a.Val()), n), dot)
  {
    hide Digits;
    ghost var v := a.Val();
    var left := n;
    s := "";
    while left != 0
      invariant a.Valid() && 0 <= left <= n && Digits(v, n) == Digits(a.Val(), left) + s
    {
      var k := if left < 9 then left else 9;
      ghost var w := a.Val();
      var r := PopNine(a);
      ChunkDigits(w, left, k, a.Val(), r);
      var t := FixedDigits(r, k);
      Join(Digits(a.Val(), left - k), t, s);
      s := t + s;
      left := left - k;
    }
    assert Digits(a.Val(), 0) + s == s;
    if dot != n {
      s := s[..dot] + "." + s[dot..];
    }
  }

  lemma Join(a: string, b: string, c: string)
    ensures a + b + c == a + (b + c)
  {
  }

  // ----- js_dtoa -----

  /** An integer below 2^53 that the fast path prints. */
  predicate IsSmallInteger(m: nat, e: int) {
    1 <= e <= 53 && m % Pow(2, 53 - e) == 0
  }

  /** The integer is the double exactly. */
  lemma IntegerIsNearest(m: nat, e: int, n: nat)
    requires IsDouble(m, e) && IsSmallInteger(m, e) && n == m / Pow(2, 53 - e)
    ensures n > 0 && IsNearest(n, 10, 0, m, e)
  {
    hide Pow;
    var p, k := Pow(2, 53 - e), 55 - e;
    DivParts(m, p);
    PowAdd(2, 53 - e, 2);
    PowZero(10);
    PowZero(2);
    NearestDoubles.TwoAndFour();
    assert n * p == m;
    hide IsSmallInteger;
    MulAssoc(n, p, 4);
    assert Num(n, k, 10, 0) == 4 * m && Den(k, 10, 0) == 1;
    hide Num, Den;
    ConvertsBack(n, 10, 0, m, e, 4 * m, 1);
  }

  lemma SmallIntegerDigits(m: nat, e: int, n: nat)
    requires IsDouble(m, e) && IsSmallInteger(m, e) && n == m / Pow(2, 53 - e) > 0
    ensures n < WORD64 && 1 <= Length(n) <= 17 && HasDigits(n, Length(n))
  {
    Constants();
    DivParts(m, Pow(2, 53 - e));
    MulGrows(n, Pow(2, 53 - e));
    LengthDigits(n);
    if Length(n) > 17 { PowMono(10, 17, Length(n) - 1); }
  }

  /** The text of a finite double: digits that read back as that double. */
  ghost predicate IsTextOf(s: string, negative: bool, m: nat, e: int) {
    exists mant: nat, p: nat, exponent: int ::
      && HasDigits(mant, p) && p <= 17 && -323 <= exponent <= 309 && IsNearest(mant, 10, exponent - p, m, e)
      && s == DecimalReading.SignText(negative) + Layout(mant, p, exponent)
  }

  /** The layout part of js_dtoa, the mantissa being in `tmp`. */
  method WriteLayout(tmp: Mpb, p: nat, exponent: int) returns (s: string)
    requires tmp.Valid() && p > 0 && -400 <= exponent <= 400
    modifies tmp, tmp.tab
    ensures s == Layout(old(tmp.Val()), p, exponent)
  {
    hide Digits;
    if exponent <= -6 || exponent > 21 {
      s := OutputDigits(tmp, p, 1);
      var k := exponent - 1;
      var j := if k < 0 then -k else k;
      s := s + (if k < 0 then "e-" else "e+");
      var t := ShortDigits(j);
      s := s + t;
    } else if exponent <= 0 {
      s := OutputDigits(tmp, p, p);
      s := "0." + Zeros(-exponent) + s;
    } else {
      s := OutputDigits(tmp, p, if p < exponent then p else exponent);
      if exponent > p { s := s + Zeros(exponent - p); }
    }
  }

  /** js_dtoa of a finite double that is not zero: radix 10, free format, automatic exponent. */
  method PrintFinite(m: nat, e: int) returns (s: string, ghost mant: nat, ghost p: nat, ghost exponent: int)
    requires IsDouble(m, e)
    ensures HasDigits(mant, p) && p <= 17 && -323 <= exponent <= 309 && IsNearest(mant, 10, exponent - p, m, e)
    ensures s == Layout(mant, p, exponent)
  {
    hide Digits, IsNearest, Pow;
    if IsSmallInteger(m, e) {
      var n := m / Pow(2, 53 - e);
      IntegerIsNearest(m, e, n);
      SmallIntegerDigits(m, e, n);
      s := U64ToA(n);
      mant, p, exponent := n, Length(n), Length(n);
      assert s == s + Zeros(0);
      return;
    }
    var tmp := new Mpb(DBIGNUM_LEN_MAX);
    var digits, count, at := FreeDigits(tmp, m, e);
    mant, p, exponent := digits, count, at;
    ExponentRange(e);
    TenPowers(count);
    tmp.SetU64(digits);
    s := WriteLayout(tmp, count, at);
  }

  /** js_dtoa: radix 10, free format, automatic exponent. */
  method JsDtoa(a: bits64, minusZero: bool) returns (s: string)
    ensures match Decode(a)
            case NotANumber => s == "NaN"
            case Infinite(negative) => s == DecimalReading.SignText(negative) + "Infinity"
            case Zero(negative) => s == DecimalReading.SignText(negative && minusZero) + "0"
            case Finite(negative, m, e) => IsTextOf(s, negative, m, e)
  {
    match Decode(a)
    case NotANumber => s := "NaN";
    case Infinite(negative) => s := (if negative then "-" else "") + "Infinity";
    case Zero(negative) => s := (if negative && minusZero then "-" else "") + "0";
    case Finite(negative, m, e) =>
      EncodeDecode(a);
      hide Layout, IsNearest, HasDigits, Decode;
      ghost var mant, p, exponent;
      s, mant, p, exponent := PrintFinite(m, e);
      s := (if negative then "-" else "") + s;
  }

  // ----- js_atod -----

  method SkipLeadingZeros(s: string, start: nat) returns (c: Scan)
    requires start <= |s|
    ensures c == SkipZeros(s, start, DecimalReading.Begin(start))
  {
    c := DecimalReading.Begin(start);
    while true
      invariant c.p <= |s| && SkipZeros(s, start, c) == SkipZeros(s, start, DecimalReading.Begin(start))
      decreases |s| - c.p
    {
      if Stops(s, start, c) {
        return;
      }
      var d := PassPoint(s, start, c);
      if At(s, d.p) != '0' {
        return d;
      }
      c := Scan(d.p + 1, d.pos + 1, d.dot);
    }
  }

  lemma AccumulateDigit(v: nat, p: nat, cur: nat, c: nat)
    ensures v * (10 * p) + (cur * 10 + c) == (v * p + cur) * 10 + c
  {
    MulAssoc(v, p, 10);
  }

  /** One turn of the scan of significant digits. */
  lemma ScanTurn(s: string, start: nat, g: Significand)
    requires g.at.p <= |s|
    ensures var d := PassPoint(s, start, g.at);
            var c := DigitOf(At(s, d.p));
            ScanDigits(s, start, g) == if Stops(s, start, g.at) then g
                                       else if c >= 10 then g.(at := d)
                                       else ScanDigits(s, start, Push(g, Scan(d.p + 1, d.pos + 1, d.dot), c))
    ensures var d := PassPoint(s, start, g.at); DigitOf(At(s, d.p)) < 10 ==> d.p + 1 <= |s|
  {
  }

  /** The digits of g are those in the number and the n in the limb being filled. */
  ghost predicate Gathered(tmp: Mpb, g: Significand, cur: nat, n: nat)
    reads tmp, tmp.tab
  {
    && tmp.Valid() && tmp.Normal() && tmp.tab.Length == DBIGNUM_LEN_MAX
    && n < 9 && g.count % 9 == n && g.count <= MAX_SIGNIFICANT && tmp.len <= 1 + g.count / 9
    && cur < Pow(10, n) && g.value == tmp.Val() * Pow(10, n) + cur
  }

  /** The significant digits of a text, gathered nine at a time into `tmp`. */
  method ReadSignificand(tmp: Mpb, s: string, start: nat, c0: Scan) returns (at: Scan, count: nat)
    requires tmp.Valid() && tmp.Normal() && tmp.Val() == 0 && tmp.len == 1 && tmp.tab.Length == DBIGNUM_LEN_MAX
    requires c0.p <= |s|
    modifies tmp, tmp.tab
    ensures tmp.Valid() && tmp.Normal() && tmp.len <= 6 && count <= MAX_SIGNIFICANT
    ensures ScanDigits(s, start, Significand(c0, 0, 0)) == Significand(at, count, tmp.Val())
  {
    hide ScanDigits;
    ghost var g := Significand(c0, 0, 0);
    var cur, n := 0, 0;
    at, count := c0, 0;
    PowZero(10);
    var more := true;
    while more
      invariant at.p <= |s| && g.at == at && g.count == count && Gathered(tmp, g, cur, n)
      invariant ScanDigits(s, start, Significand(c0, 0, 0)) == if more then ScanDigits(s, start, g) else g
      decreases more, |s| - at.p
    {
      ScanTurn(s, start, g);
      var d := PassPoint(s, start, at);
      var c := DigitOf(At(s, d.p));
      if Stops(s, start, at) {
        more := false;
      } else if c >= 10 {
        more, at, g := false, d, g.(at := d);
      } else {
        at := Scan(d.p + 1, d.pos + 1, d.dot);
        cur, n := TakeDigit(tmp, g, at, cur, n, count, c);
        count := if count < MAX_SIGNIFICANT then count + 1 else count;
        g := Push(g, at, c);
      }
    }
    Flush(tmp, g, cur, n);
  }

  /** The digits left in the limb. */
  method Flush(tmp: Mpb, ghost g: Significand, cur: nat, n: nat)
    requires Gathered(tmp, g, cur, n)
    modifies tmp, tmp.tab
    ensures tmp.Valid() && tmp.Normal() && tmp.len <= 6 && tmp.Val() == g.value
  {
    PowZero(10);
    if n != 0 {
      ChunkFits(n);
      var base := PowUi(10, n);
      tmp.MulAdd(base, cur);
    }
  }

  lemma ChunkFits(n: nat)
    requires n <= 9
    ensures 0 < Pow(10, n) <= 1000000000 < BASE
  {
    Billion();
    PowMono(10, n, 9);
  }

  /** One digit into the current limb, and the limb into the number when it is full. */
  method TakeDigit(tmp: Mpb, ghost g: Significand, at: Scan, cur0: nat, n0: nat, count: nat, c: nat)
      returns (cur: nat, n: nat)
    requires Gathered(tmp, g, cur0, n0) && g.count == count && c < 10
    modifies tmp, tmp.tab
    ensures Gathered(tmp, Push(g, at, c), cur, n)
  {
    cur, n := cur0, n0;
    if count < MAX_SIGNIFICANT {
      cur, n := cur0 * 10 + c, n0 + 1;
      AccumulateDigit(tmp.Val(), Pow(10, n0), cur0, c);
      PowTenStep(n);
      if n == 9 {
        Billion();
        PowZero(10);
        tmp.MulAdd(1000000000, cur);
        cur, n := 0, 0;
      }
    }
  }

  lemma {:induction false} SkipStopsBefore(s: string, start: nat, c0: Scan)
    requires c0.p <= |s|
    ensures var c := SkipZeros(s, start, c0); Stops(s, start, c) || (!IsPoint(s, start, c.p) && At(s, c.p) != '0')
    decreases |s| - c0.p
  {
    if !Stops(s, start, c0) {
      var d := PassPoint(s, start, c0);
      if At(s, d.p) == '0' { SkipStopsBefore(s, start, Scan(d.p + 1, d.pos + 1, d.dot)); }
    }
  }

  lemma {:induction false} ScanKeepsPositive(s: string, start: nat, g: Significand)
    requires g.at.p <= |s| && g.value > 0
    ensures ScanDigits(s, start, g).value > 0
    decreases |s| - g.at.p
  {
    ScanTurn(s, start, g);
    var d := PassPoint(s, start, g.at);
    var c := DigitOf(At(s, d.p));
    if !Stops(s, start, g.at) && c < 10 {
      ScanKeepsPositive(s, start, Push(g, Scan(d.p + 1, d.pos + 1, d.dot), c));
    }
  }

  /** The first significant digit is not zero. */
  lemma SignificantIsPositive(s: string, start: nat, c0: Scan)
    requires c0.p <= |s|
    ensures var g := ScanDigits(s, start, Significand(SkipZeros(s, start, c0), 0, 0)); g.count > 0 ==> g.value > 0
  {
    var c := SkipZeros(s, start, c0);
    SkipStopsBefore(s, start, c0);
    var g := Significand(c, 0, 0);
    ScanTurn(s, start, g);
    var digit := DigitOf(At(s, c.p));
    if !Stops(s, start, c) && digit < 10 {
      ScanKeepsPositive(s, start, Push(g, Scan(c.p + 1, c.pos + 1, c.dot), digit));
    }
  }

  /** The exponent part of js_atod. */
  method ParseExponent(s: string, start: nat, p: nat) returns (x: Exponent)
    requires p <= |s|
    ensures x == ReadExponent(s, start, p)
  {
    if !IsExponentMark(At(s, p)) || p <= start {
      return NoExponent;
    }
    var q, negative := p + 1, At(s, p + 1) == '-';
    if At(s, q) == '+' || negative { q := q + 1; }
    var c := DigitOf(At(s, q));
    if c >= 10 {
      return BadExponent;
    }
    var w := Power(c, false, q + 1);
    ghost var first := w;
    while DigitOf(At(s, w.end)) < 10
      invariant w.end <= |s| && ScanPower(s, w) == ScanPower(s, first)
      decreases |s| - w.end
    {
      if w.overflow || w.k > EXPONENT_LIMIT {
        w := Power(w.k, true, w.end + 1);
      } else {
        w := Power(w.k * 10 + DigitOf(At(s, w.end)), false, w.end + 1);
      }
    }
    return Exponent(if negative then 0 - w.k else w.k, w.overflow);
  }

  lemma RoomToRead(expn: int, len: nat)
    requires -400 <= expn <= 309 && 1 <= len <= 6
    ensures len + DoubleRoom(5, 1, expn, 32 * (len - 1)) <= DBIGNUM_LEN_MAX
  {
  }

  /** What js_atod returns for a reading. */
  ghost predicate IsValueOf(r: DecimalReading.Reading, ok: bool, a: bits64) {
    match r
    case Fails => !ok
    case Overflows(negative) => ok && Decode(a) == Infinite(negative)
    case Vanishes(negative) => ok && Decode(a) == Zero(negative)
    case Reads(negative, value, expn) => ok && IsRounded(negative, value, expn, a)
  }

  /** The last part of js_atod: range checks, conversion, bits. */
  method ConvertRead(tmp: Mpb, negative: bool, at: Scan, count: nat, k: int, sigPos: nat, ghost value: nat)
        returns (a: bits64)
    requires tmp.Valid() && tmp.Normal() && tmp.len <= 6 && tmp.tab.Length == DBIGNUM_LEN_MAX
    requires tmp.Val() == value && count <= MAX_SIGNIFICANT && (count > 0 ==> value > 0)
    modifies tmp, tmp.tab
    ensures IsValueOf(DecimalReading.Finish(negative, Significand(at, count, value), k, sigPos), true, a)
  {
    hide Pow, IsNearest, Encode, Decode;
    DecodeSpecial(negative);
    if count == 0 {
      return Encode(negative, 0, 0);
    }
    var dot := if at.dot < 0 then at.pos else at.dot;
    var expn := DecimalReading.Wrap32(k - (sigPos + count - dot));
    var expn1 := DecimalReading.Wrap32(expn + count);
    if expn1 >= DecimalReading.MAX_EXPONENT + 1 {
      return Encode(negative, Pow(2, 52), 1025);
    }
    if expn1 <= DecimalReading.MIN_EXPONENT {
      return Encode(negative, 0, 0);
    }
    RadixTen();
    RoomToRead(expn, tmp.len);
    var m, e := MulPowRoundToD(tmp, 10, 5, 1, expn);
    StoredIsRounded(negative, value, expn, m, e);
    a := Encode(negative, m, e);
  }

  /** js_atod with radix 10 and no flags; `ok` is false when it returns NaN. */
  method JsAtod(s: string) returns (ok: bool, a: bits64)
    ensures IsValueOf(DecimalReading.Read(s), ok, a)
  {
    hide ScanDigits, SkipZeros, ReadExponent, DecimalReading.Finish, Encode, Decode, IsNearest, IsRounded, Pow;
    var start, negative := DecimalReading.StartOf(s), At(s, 0) == '-';
    DecodeSpecial(negative);
    if "Infinity" <= s[start..] {
      return true, Encode(negative, Pow(2, 52), 1025);
    }
    var tmp := new Mpb(DBIGNUM_LEN_MAX);
    tmp.SetU64(0);
    var c := SkipLeadingZeros(s, start);
    SignificantIsPositive(s, start, DecimalReading.Begin(start));
    var at, count := ReadSignificand(tmp, s, start, c);
    ghost var value := tmp.Val();
    var x := ParseExponent(s, start, at.p);
    match x
    case BadExponent => return false, 0;
    case NoExponent =>
      if at.p == start {
        return false, 0;
      }
      a := ConvertRead(tmp, negative, at, count, 0, c.pos, value);
      return true, a;
    case Exponent(k, overflow) =>
      if count > 0 && overflow {
        return true, if k < 0 then Encode(negative, 0, 0) else Encode(negative, Pow(2, 52), 1025);
      }
      a := ConvertRead(tmp, negative, at, count, k, c.pos, value);
      return true, a;
  }

  // ----- the round trip -----

  lemma {:induction false} PaddedIsNearest(mant: nat, z: nat, f: int, m: nat, e: int)
    requires IsNearest(mant, 10, f, m, e)
    ensures IsNearest(mant * Pow(10, z), 10, f - z, m, e)
  {
    hide IsNearest;
    if z == 0 {
      PowZero(10);
    } else {
      PaddedIsNearest(mant, z - 1, f, m, e);
      PowTenStep(z);
      MulAssoc(mant, Pow(10, z - 1), 10);
      TenfoldIsNearest(mant * Pow(10, z - 1), f - z, m, e);
    }
  }

  /** Any text js_dtoa may write for a finite double, read by js_atod, gives the same bits. */
  lemma TextReadsBack(a: bits64, s: string, ok: bool, b: bits64)
    requires Decode(a).Finite? && IsTextOf(s, Decode(a).negative, Decode(a).m, Decode(a).e)
    requires IsValueOf(DecimalReading.Read(s), ok, b)
    ensures ok && b == a
  {
    hide IsNearest, Encode, Decode, DecimalReading.Read, Layout;
    var negative, m, e := Decode(a).negative, Decode(a).m, Decode(a).e;
    var mant: nat, p: nat, exponent: int :|
      && HasDigits(mant, p) && p <= 17 && -323 <= exponent <= 309 && IsNearest(mant, 10, exponent - p, m, e)
      && s == DecimalReading.SignText(negative) + Layout(mant, p, exponent);
    DecimalReading.LayoutReads(s, negative, mant, p, exponent);
    var z := DecimalReading.Padding(p, exponent);
    PaddedIsNearest(mant, z, exponent - p, m, e);
    RoundedUnique(negative, mant * Pow(10, z), exponent - p - z, a, b);
    DecodeInjective(a, b);
  }

  lemma ReadsZero(negative: bool)
    ensures DecimalReading.Read(DecimalReading.SignText(negative) + "0") == DecimalReading.Vanishes(negative)
  {
    var s := DecimalReading.SignText(negative) + "0";
    var start := |s| - 1;
    assert s == if negative then "-0" else "0";
    assert s[start..] == "0" && "Infinity"[0] == 'I';
    assert SkipZeros(s, start, DecimalReading.Begin(start)) == Scan(|s|, 1, -1);
    assert ScanDigits(s, start, Significand(Scan(|s|, 1, -1), 0, 0)) == Significand(Scan(|s|, 1, -1), 0, 0);
  }

  lemma ReadsInfinity(negative: bool)
    ensures DecimalReading.Read(DecimalReading.SignText(negative) + "Infinity") == DecimalReading.Overflows(negative)
  {
    var s := DecimalReading.SignText(negative) + "Infinity";
    assert s[DecimalReading.StartOf(s)..] == "Infinity";
  }

  lemma ReadsNaN()
    ensures DecimalReading.Read("NaN") == DecimalReading.Fails
  {
    var s := "NaN";
    assert s[0..] == s && "Infinity"[0] == 'I' && s[0] == 'N';
    assert SkipZeros(s, 0, DecimalReading.Begin(0)) == DecimalReading.Begin(0);
    assert ScanDigits(s, 0, Significand(DecimalReading.Begin(0), 0, 0)) == Significand(DecimalReading.Begin(0), 0, 0);
  }

  /** Printing a double and reading the text gives back its bits, unless it is NaN, or is minus zero
      and the sign of zero was not asked for. */
  method PrintThenRead(a: bits64, minusZero: bool) returns (ok: bool, b: bits64)
    ensures ok <==> !Decode(a).NotANumber?
    ensures ok ==> (b == a <==> !(Decode(a) == Zero(true) && !minusZero))
    ensures Decode(a) == Zero(true) && !minusZero ==> b == 0
  {
    hide IsTextOf, DecimalReading.Read, Decode;
    var s := JsDtoa(a, minusZero);
    ok, b := JsAtod(s);
    match Decode(a)
    case NotANumber => ReadsNaN();
    case Infinite(negative) =>
      ReadsInfinity(negative);
      DecodeInjective(a, b);
    case Zero(negative) =>
      ReadsZero(negative && minusZero);
      ZeroBits();
      if Decode(b) == Decode(a) { DecodeInjective(a, b); } else { DecodeInjective(0, b); }
    case Finite(_, _, _) => TextReadsBack(a, s, ok, b);
  }

  lemma ZeroBits()
    ensures Decode(0) == Zero(false)
  {
  }
}
