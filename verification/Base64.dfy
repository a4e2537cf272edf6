/** Base64 text (section 4 of RFC 4648), with the decode table as it is: no entry for '8' and '9'. */
module Base64 {
  import Powers

  type Byte = b: int | 0 <= b < 256
  type Sextet = v: int | 0 <= v < 64

  // ---- Digits

  const UPPER := "ABCDEFGHIJKLMNOPQRSTUVWXYZ"
  const LOWER := "abcdefghijklmnopqrstuvwxyz"
  const NUMERALS := "0123456789"

  function Digit(v: Sextet): (c: char)
    ensures c != '=' && c != '\n' && c != '\r'
  {
    var n: int := v;
    if n < 26 then 'A' + n as char
    else if n < 52 then 'a' + (n - 26) as char
    else if n < 62 then '0' + (n - 52) as char
    else if n == 62 then '+' else '/'
  }

  /** The digits are those of the encode table, one alphabet after the other. */
  lemma DigitIsInTable(v: Sextet)
    ensures Digit(v) == if v < 26 then UPPER[v] else if v < 52 then LOWER[v - 26] else if v < 62 then NUMERALS[v - 52]
                        else if v == 62 then '+' else '/'
  {
  }

  /** The decode table; characters without an entry read as zero. */
  function Value(c: char): (v: Sextet) {
    if 'A' <= c <= 'Z' then (c - 'A') as int
    else if 'a' <= c <= 'z' then (c - 'a') as int + 26
    else if '0' <= c <= '7' then (c - '0') as int + 52
    else if c == '+' then 62 else if c == '/' then 63 else 0
  }

  /** The digits that the decode table does not know. */
  predicate Unknown(c: char) {
    c == '8' || c == '9'
  }

  lemma ValueOfDigit(v: Sextet)
    ensures Value(Digit(v)) == v <==> !Unknown(Digit(v))
    ensures Unknown(Digit(v)) <==> v == 60 || v == 61
    ensures Unknown(Digit(v)) ==> Value(Digit(v)) == 0
  {
  }

  // ---- Groups

  /** The i-th six bits of three bytes. */
  function Six(a: Byte, b: Byte, c: Byte, i: nat): (v: Sextet)
    requires i < 4
  {
    var x: int, y: int, z: int := a, b, c;
    if i == 0 then x / 4 else if i == 1 then x % 4 * 16 + y / 16 else if i == 2 then y % 16 * 4 + z / 64 else z % 64
  }

  /** The i-th byte of four sextets. */
  function Eight(p: Sextet, q: Sextet, r: Sextet, s: Sextet, i: nat): (b: Byte)
    requires i < 3
  {
    var w: int, x: int, y: int, z: int := p, q, r, s;
    if i == 0 then w * 4 + x / 16 else if i == 1 then x % 16 * 16 + y / 4 else y % 4 * 64 + z
  }

  lemma SixOfEight(a: Byte, b: Byte, c: Byte)
    ensures Eight(Six(a, b, c, 0), Six(a, b, c, 1), Six(a, b, c, 2), Six(a, b, c, 3), 0) == a
    ensures Eight(Six(a, b, c, 0), Six(a, b, c, 1), Six(a, b, c, 2), Six(a, b, c, 3), 1) == b
    ensures Eight(Six(a, b, c, 0), Six(a, b, c, 1), Six(a, b, c, 2), Six(a, b, c, 3), 2) == c
  {
  }

  lemma EightOfSix(p: Sextet, q: Sextet, r: Sextet, s: Sextet)
    ensures var a, b, c := Eight(p, q, r, s, 0), Eight(p, q, r, s, 1), Eight(p, q, r, s, 2);
            Six(a, b, c, 0) == p && Six(a, b, c, 1) == q && Six(a, b, c, 2) == r && Six(a, b, c, 3) == s
  {
  }

  /** The text without padding. */
  function Digits(x: seq<Byte>): (s: string) {
    if |x| == 0 then []
    else if |x| == 1 then [Digit(Six(x[0], 0, 0, 0)), Digit(Six(x[0], 0, 0, 1))]
    else if |x| == 2 then
      [Digit(Six(x[0], x[1], 0, 0)), Digit(Six(x[0], x[1], 0, 1)), Digit(Six(x[0], x[1], 0, 2))]
    else Group(x[0], x[1], x[2]) + Digits(x[3..])
  }

  function Group(a: Byte, b: Byte, c: Byte): (s: string)
    ensures |s| == 4
  {
    [Digit(Six(a, b, c, 0)), Digit(Six(a, b, c, 1)), Digit(Six(a, b, c, 2)), Digit(Six(a, b, c, 3))]
  }

  function Padding(mod: nat): (s: string) {
    if mod == 1 then "==" else if mod == 2 then "=" else ""
  }

  function Encoded(x: seq<Byte>): (s: string) {
    Digits(x) + Padding(|x| % 3)
  }

  function Bytes(s: string): (x: seq<Byte>) {
    if |s| <= 1 then []
    else if |s| == 2 then [Eight(Value(s[0]), Value(s[1]), 0, 0, 0)]
    else
      var v: Sextet := if |s| == 3 then 0 else Value(s[3]);
      var first, second := Eight(Value(s[0]), Value(s[1]), Value(s[2]), v, 0),
          Eight(Value(s[0]), Value(s[1]), Value(s[2]), v, 1);
      if |s| == 3 then [first, second]
      else [first, second, Eight(Value(s[0]), Value(s[1]), Value(s[2]), v, 2)] + Bytes(s[4..])
  }

  predicate Trailing(c: char) {
    c == '=' || c == '\n' || c == '\r'
  }

  function Stripped(s: string): (t: string) {
    if s != [] && Trailing(s[|s| - 1]) then Stripped(s[..|s| - 1]) else s
  }

  function Decoded(s: string): (x: seq<Byte>) {
    Bytes(Stripped(s))
  }

  // ---- The round trip

  predicate Known(s: string) {
    forall i :: 0 <= i < |s| ==> !Unknown(s[i])
  }

  lemma {:induction false} DigitsEnd(x: seq<Byte>)
    ensures Digits(x) != [] ==> !Trailing(Digits(x)[|Digits(x)| - 1])
  {
    if |x| >= 3 { DigitsEnd(x[3..]); }
  }

  lemma StrippedOne(s: string, c: char)
    requires Trailing(c)
    ensures Stripped(s + [c]) == Stripped(s)
  {
    assert (s + [c])[..|s|] == s;
  }

  lemma StrippedDigits(x: seq<Byte>)
    ensures Stripped(Encoded(x)) == Digits(x)
  {
    DigitsEnd(x);
    hide Digits;
    var d := Digits(x);
    StrippedOne(d, '=');
    StrippedOne(d + ['='], '=');
    assert d + "" == d && d + "==" == d + ['='] + ['='] && d + "=" == d + ['='];
  }

  lemma KnownConcat(s: string, t: string)
    ensures Known(s + t) <==> Known(s) && Known(t)
  {
    assert forall i :: 0 <= i < |s| ==> (s + t)[i] == s[i];
    assert forall i :: 0 <= i < |t| ==> (s + t)[|s| + i] == t[i];
  }

  /** The length is right for every input. */
  lemma {:induction false} LengthKept(x: seq<Byte>)
    ensures |Bytes(Digits(x))| == |x|
  {
    if |x| >= 3 {
      LengthKept(x[3..]);
      assert Digits(x)[4..] == Digits(x[3..]);
    }
  }

  lemma OneGroup(a: Byte, b: Byte, c: Byte)
    ensures var g := Group(a, b, c);
            (Eight(Value(g[0]), Value(g[1]), Value(g[2]), Value(g[3]), 0) == a &&
             Eight(Value(g[0]), Value(g[1]), Value(g[2]), Value(g[3]), 1) == b &&
             Eight(Value(g[0]), Value(g[1]), Value(g[2]), Value(g[3]), 2) == c) <==> Known(g)
  {
    hide Digit, Value, Unknown;
    var g := Group(a, b, c);
    var p, q, r, s := Six(a, b, c, 0), Six(a, b, c, 1), Six(a, b, c, 2), Six(a, b, c, 3);
    ValueOfDigit(p);
    ValueOfDigit(q);
    ValueOfDigit(r);
    ValueOfDigit(s);
    SixOfEight(a, b, c);
    EightOfSix(Value(g[0]), Value(g[1]), Value(g[2]), Value(g[3]));
    assert Known(g) <==> !Unknown(g[0]) && !Unknown(g[1]) && !Unknown(g[2]) && !Unknown(g[3]);
  }

  lemma TwoBytes(a: Byte, b: Byte, p: Sextet, q: Sextet, r: Sextet)
    requires p == Six(a, b, 0, 0) || (p == 0 && Six(a, b, 0, 0) >= 60)
    requires q == Six(a, b, 0, 1) || (q == 0 && Six(a, b, 0, 1) >= 60)
    requires r == Six(a, b, 0, 2) || (r == 0 && Six(a, b, 0, 2) >= 60)
    ensures Eight(p, q, r, 0, 0) == a && Eight(p, q, r, 0, 1) == b <==>
            p == Six(a, b, 0, 0) && q == Six(a, b, 0, 1) && r == Six(a, b, 0, 2)
  {
    EightOfSix(p, q, r, 0);
    SixOfEight(a, b, 0);
  }

  lemma LastTwo(a: Byte, b: Byte)
    ensures Bytes(Digits([a, b])) == [a, b] <==> Known(Digits([a, b]))
  {
    hide Digit, Value, Unknown, Six, Eight;
    var d := Digits([a, b]);
    ValueOfDigit(Six(a, b, 0, 0));
    ValueOfDigit(Six(a, b, 0, 1));
    ValueOfDigit(Six(a, b, 0, 2));
    assert Known(d) <==> !Unknown(d[0]) && !Unknown(d[1]) && !Unknown(d[2]);
    TwoBytes(a, b, Value(d[0]), Value(d[1]), Value(d[2]));
  }

  lemma LastOne(a: Byte)
    ensures Bytes(Digits([a])) == [a] <==> Known(Digits([a]))
  {
    hide Digit, Value, Unknown;
    var d := Digits([a]);
    ValueOfDigit(Six(a, 0, 0, 0));
    ValueOfDigit(Six(a, 0, 0, 1));
    assert Known(d) <==> !Unknown(d[0]) && !Unknown(d[1]);
  }

  lemma SplitEqual(x: seq<Byte>, head: seq<Byte>, tail: seq<Byte>)
    requires |x| >= 3 && |head| == 3
    ensures head + tail == x <==> head[0] == x[0] && head[1] == x[1] && head[2] == x[2] && tail == x[3..]
  {
    if head + tail == x {
      assert tail == (head + tail)[3..];
      assert head[0] == (head + tail)[0] && head[1] == (head + tail)[1] && head[2] == (head + tail)[2];
    }
    assert x == [x[0], x[1], x[2]] + x[3..];
    assert head == [head[0], head[1], head[2]];
  }

  lemma {:induction false} DigitsRoundTrip(x: seq<Byte>)
    ensures Bytes(Digits(x)) == x <==> Known(Digits(x))
  {
    if |x| == 1 {
      assert x == [x[0]];
      LastOne(x[0]);
    } else if |x| == 2 {
      assert x == [x[0], x[1]];
      LastTwo(x[0], x[1]);
    } else if |x| >= 3 {
      hide Digit, Value, Unknown, Eight, Six;
      var rest := x[3..];
      var g := Group(x[0], x[1], x[2]);
      DigitsRoundTrip(rest);
      OneGroup(x[0], x[1], x[2]);
      assert Digits(x)[4..] == Digits(rest);
      KnownConcat(g, Digits(rest));
      hide Known;
      var d := Digits(x);
      var y := [Eight(Value(d[0]), Value(d[1]), Value(d[2]), Value(d[3]), 0),
                Eight(Value(d[0]), Value(d[1]), Value(d[2]), Value(d[3]), 1),
                Eight(Value(d[0]), Value(d[1]), Value(d[2]), Value(d[3]), 2)];
      assert Bytes(d) == y + Bytes(Digits(rest));
      SplitEqual(x, y, Bytes(Digits(rest)));
    }
  }

  /** Decoding gives back the input exactly when its text has no '8' and no '9'; its length always. */
  lemma RoundTrip(x: seq<Byte>)
    ensures |Decoded(Encoded(x))| == |x|
    ensures Decoded(Encoded(x)) == x <==> Known(Encoded(x))
  {
    StrippedDigits(x);
    LengthKept(x);
    DigitsRoundTrip(x);
    KnownConcat(Digits(x), Padding(|x| % 3));
  }

  /** One byte that does not survive. */
  lemma RoundTripFails()
    ensures Encoded([240]) == "8A==" && Decoded(Encoded([240])) == [0]
  {
    StrippedDigits([240]);
  }

  // ---- The loops

  function At(x: seq<Byte>, i: nat): (b: Byte) {
    if i < |x| then x[i] else 0
  }

  function After(x: seq<Byte>): (rest: seq<Byte>)
    requires x != []
    ensures |rest| < |x|
  {
    if |x| < 3 then [] else x[3..]
  }

  /** Whole groups, the last one filled up with zeros. */
  function Filled(x: seq<Byte>): (s: string)
    decreases |x|
  {
    if x == [] then [] else Group(At(x, 0), At(x, 1), At(x, 2)) + Filled(After(x))
  }

  function Patched(s: string, mod: nat): (t: string)
    requires mod < 3 && (mod > 0 ==> |s| >= 2)
  {
    if mod == 1 then s[..|s| - 2] + "==" else if mod == 2 then s[..|s| - 1] + "=" else s
  }

  lemma {:induction false} FilledLength(x: seq<Byte>)
    ensures |Filled(x)| == 4 * ((|x| + 2) / 3)
    decreases |x|
  {
    if x != [] {
      FilledLength(After(x));
      assert |x| >= 3 ==> (|x| + 2) / 3 == (|x| - 3 + 2) / 3 + 1;
    }
  }

  lemma FilledOne(x: seq<Byte>)
    requires 0 < |x| < 3
    ensures Filled(x) == Group(x[0], At(x, 1), 0)
  {
    assert After(x) == [] && Filled([]) == [];
  }

  lemma PatchLast(x: seq<Byte>)
    requires |x| < 3
    ensures |x| > 0 ==> |Filled(x)| == 4
    ensures Patched(Filled(x), |x|) == Digits(x) + Padding(|x|)
  {
    if x != [] {
      FilledOne(x);
      hide Digit, Filled;
    }
  }

  lemma ModThree(n: nat, mod: nat)
    requires n >= 3 && mod == n % 3
    ensures (n - 3) % 3 == mod
  {
  }

  lemma PatchGroup(g: string, filled: string, digits: string, mod: nat)
    requires mod < 3 && (mod > 0 ==> |filled| >= 4) && Patched(filled, mod) == digits + Padding(mod)
    ensures Patched(g + filled, mod) == g + digits + Padding(mod)
  {
    PatchAfter(g, filled, mod);
    assert g + digits + Padding(mod) == g + (digits + Padding(mod));
  }

  /** Patching the last group gives the padded text. */
  lemma {:induction false} PatchedIsEncoded(x: seq<Byte>, mod: nat)
    requires mod == |x| % 3
    ensures mod < 3 && (mod > 0 ==> |Filled(x)| >= 4)
    ensures Patched(Filled(x), mod) == Digits(x) + Padding(mod)
    decreases |x|
  {
    if |x| < 3 {
      PatchLast(x);
    } else {
      hide Patched, Padding, Group;
      ModThree(|x|, mod);
      PatchedIsEncoded(x[3..], mod);
      PatchGroup(Group(x[0], x[1], x[2]), Filled(x[3..]), Digits(x[3..]), mod);
    }
  }

  lemma PatchAfter(g: string, s: string, mod: nat)
    requires mod < 3 && (mod > 0 ==> |s| >= 2)
    ensures Patched(g + s, mod) == g + Patched(s, mod)
  {
    assert mod == 1 ==> (g + s)[..|g + s| - 2] == g + s[..|s| - 2];
    assert mod == 2 ==> (g + s)[..|g + s| - 1] == g + s[..|s| - 1];
  }

  /** The shifts and masks of the source pick the sextets. */
  lemma TripleSextets(a: Byte, b: Byte, c: Byte, triple: int)
    requires triple == (a as int) * 65536 + (b as int) * 256 + c as int
    ensures triple / 262144 % 64 == Six(a, b, c, 0) && triple / 4096 % 64 == Six(a, b, c, 1)
    ensures triple / 64 % 64 == Six(a, b, c, 2) && triple % 64 == Six(a, b, c, 3)
  {
    var p: int, q: int, r: int, s: int := Six(a, b, c, 0), Six(a, b, c, 1), Six(a, b, c, 2), Six(a, b, c, 3);
    assert triple == p * 262144 + q * 4096 + r * 64 + s;
    hide Six;
    Powers.DivUnique(triple, 262144, p, q * 4096 + r * 64 + s);
    Powers.DivUnique(triple, 4096, p * 64 + q, r * 64 + s);
    Powers.DivUnique(triple, 64, p * 4096 + q * 64 + r, s);
    Powers.DivUnique(p * 64 + q, 64, p, q);
    Powers.DivUnique(p * 4096 + q * 64 + r, 64, p * 64 + q, r);
  }

  lemma TripleBytes(p: Sextet, q: Sextet, r: Sextet, s: Sextet, triple: int)
    requires triple == (p as int) * 262144 + (q as int) * 4096 + (r as int) * 64 + s as int
    ensures triple / 65536 % 256 == Eight(p, q, r, s, 0) && triple / 256 % 256 == Eight(p, q, r, s, 1)
    ensures triple % 256 == Eight(p, q, r, s, 2)
  {
    var a: int, b: int, c: int := Eight(p, q, r, s, 0), Eight(p, q, r, s, 1), Eight(p, q, r, s, 2);
    assert triple == a * 65536 + b * 256 + c;
    hide Eight;
    Powers.DivUnique(triple, 65536, a, b * 256 + c);
    Powers.DivUnique(triple, 256, a * 256 + b, c);
    Powers.DivUnique(a * 256 + b, 256, a, b);
  }

  method StoreGroup(out: array<char>, j: nat, a: Byte, b: Byte, c: Byte)
    requires j + 4 <= out.Length
    modifies out
    ensures out[..j + 4] == old(out[..j]) + Group(a, b, c)
  {
    var x: int, y: int, z: int := a, b, c;
    var triple := x * 65536 + y * 256 + z;
    TripleSextets(a, b, c, triple);
    hide Digit, Six;
    out[j], out[j + 1] := Digit(triple / 262144 % 64), Digit(triple / 4096 % 64);
    out[j + 2], out[j + 3] := Digit(triple / 64 % 64), Digit(triple % 64);
  }

  ghost predicate FilledSoFar(data: seq<Byte>, i: nat, text: string) {
    i <= |data| && text + Filled(data[i..]) == Filled(data)
  }

  lemma FilledNext(data: seq<Byte>, i: nat, text: string)
    requires i < |data| && FilledSoFar(data, i, text)
    ensures var next := if i + 3 <= |data| then i + 3 else |data|;
            FilledSoFar(data, next, text + Group(At(data, i), At(data, i + 1), At(data, i + 2)))
    ensures |text| + 4 <= |Filled(data)|
  {
    hide Group;
    var rest := data[i..];
    var g := Group(At(data, i), At(data, i + 1), At(data, i + 2));
    assert Filled(rest) == g + Filled(After(rest));
    assert After(rest) == data[if i + 3 <= |data| then i + 3 else |data|..];
    assert text + (g + Filled(After(rest))) == text + g + Filled(After(rest));
  }

  lemma FilledEnds(data: seq<Byte>, text: string)
    requires FilledSoFar(data, |data|, text)
    ensures text == Filled(data)
  {
    assert data[|data|..] == [];
  }

  /** base64_encode: the padded text and a terminator. */
  method Encode(data: seq<Byte>) returns (out: array<char>, n: nat)
    ensures fresh(out) && n < out.Length && out[..n] == Encoded(data) && out[n] == '\0'
  {
    hide Encoded, Group, Patched, Digits, Filled, FilledSoFar;
    FilledLength(data);
    out := new char[4 * ((|data| + 2) / 3) + 1];
    var i, j := 0, 0;
    FilledStarts(data);
    while i < |data|
      invariant i <= |data| && j <= |Filled(data)| && FilledSoFar(data, i, out[..j])
    {
      FilledNext(data, i, out[..j]);
      var a := data[i];
      var b := if i + 1 < |data| then data[i + 1] else 0;
      var c := if i + 2 < |data| then data[i + 2] else 0;
      StoreGroup(out, j, a, b, c);
      i := if i + 3 <= |data| then i + 3 else |data|;
      j := j + 4;
    }
    FilledEnds(data, out[..j]);
    PatchedIsEncoded(data, |data| % 3);
    EncodedIs(data);
    Patch(out, j, |data| % 3);
    ghost var text := out[..j];
    out[j] := '\0';
    assert out[..j] == text;
    n := j;
  }

  lemma FilledStarts(data: seq<Byte>)
    ensures FilledSoFar(data, 0, [])
  {
    assert data[0..] == data && [] + Filled(data) == Filled(data);
  }

  lemma EncodedIs(x: seq<Byte>)
    ensures Encoded(x) == Digits(x) + Padding(|x| % 3)
  {
  }

  method Patch(out: array<char>, j: nat, mod: nat)
    requires j < out.Length && mod < 3 && (mod > 0 ==> j >= 2)
    modifies out
    ensures out[..j] == Patched(old(out[..j]), mod)
  {
    if mod == 1 {
      out[j - 1], out[j - 2] := '=', '=';
    } else if mod == 2 {
      out[j - 1] := '=';
    }
  }

  // ---- Decoding

  function Digit0(s: string, i: nat): (v: Sextet) {
    if i < |s| then Value(s[i]) else 0
  }

  function AfterFour(s: string): (rest: string) {
    if |s| < 4 then [] else s[4..]
  }

  lemma {:induction false} BytesLength(s: string)
    ensures |Bytes(s)| == |s| * 3 / 4
  {
    if |s| >= 4 {
      BytesLength(s[4..]);
      assert |s| * 3 == (|s| - 4) * 3 + 3 * 4;
    }
  }

  /** The bytes of one group, as many of them as are wanted. */
  lemma BytesStep(s: string, k: nat)
    requires s != [] && k == (if |Bytes(s)| < 3 then |Bytes(s)| else 3)
    ensures var p, q, r, t := Digit0(s, 0), Digit0(s, 1), Digit0(s, 2), Digit0(s, 3);
            Bytes(s) == [Eight(p, q, r, t, 0), Eight(p, q, r, t, 1), Eight(p, q, r, t, 2)][..k] + Bytes(AfterFour(s))
  {
    hide Value, Eight;
  }

  ghost predicate BytesSoFar(s: string, i: nat, x: seq<Byte>) {
    i <= |s| && x + Bytes(s[i..]) == Bytes(s)
  }

  lemma BytesNext(s: string, i: nat, x: seq<Byte>, k: nat)
    requires i < |s| && BytesSoFar(s, i, x) && k == (if |Bytes(s)| - |x| < 3 then |Bytes(s)| - |x| else 3)
    ensures |x| + k <= |Bytes(s)|
    ensures var p, q, r, t := Digit0(s, i), Digit0(s, i + 1), Digit0(s, i + 2), Digit0(s, i + 3);
            var next := if i + 4 <= |s| then i + 4 else |s|;
            BytesSoFar(s, next, x + [Eight(p, q, r, t, 0), Eight(p, q, r, t, 1), Eight(p, q, r, t, 2)][..k])
  {
    hide Value, Eight, Bytes;
    var rest := s[i..];
    BytesStep(rest, k);
    assert AfterFour(rest) == s[if i + 4 <= |s| then i + 4 else |s|..];
    var p, q, r, t := Digit0(s, i), Digit0(s, i + 1), Digit0(s, i + 2), Digit0(s, i + 3);
    var g := [Eight(p, q, r, t, 0), Eight(p, q, r, t, 1), Eight(p, q, r, t, 2)][..k];
    assert x + (g + Bytes(AfterFour(rest))) == x + g + Bytes(AfterFour(rest));
  }

  lemma BytesStarts(s: string)
    ensures BytesSoFar(s, 0, [])
  {
    assert s[0..] == s && [] + Bytes(s) == Bytes(s);
  }

  lemma BytesEnds(s: string, x: seq<Byte>)
    requires BytesSoFar(s, |s|, x)
    ensures x == Bytes(s)
  {
    assert s[|s|..] == [];
  }

  /** Three bytes, or as many as fit below the limit. */
  method StoreBytes(out: array<Byte>, j: nat, limit: nat, p: Sextet, q: Sextet, r: Sextet, t: Sextet)
        returns (next: nat)
    requires j <= limit <= out.Length
    modifies out
    ensures next == (if limit - j < 3 then limit else j + 3)
    ensures out[..next]
      == old(out[..j]) + [Eight(p, q, r, t, 0), Eight(p, q, r, t, 1), Eight(p, q, r, t, 2)][..next - j]
  {
    var w: int, x: int, y: int, z: int := p, q, r, t;
    var triple := w * 262144 + x * 4096 + y * 64 + z;
    TripleBytes(p, q, r, t, triple);
    hide Eight;
    next := j;
    if next < limit { out[next] := triple / 65536 % 256; next := next + 1; }
    if next < limit { out[next] := triple / 256 % 256; next := next + 1; }
    if next < limit { out[next] := triple % 256; next := next + 1; }
  }

  method StripEnd(src: string) returns (n: nat)
    ensures n <= |src| && src[..n] == Stripped(src)
  {
    n := |src|;
    assert src[..n] == src;
    while n > 0 && Trailing(src[n - 1])
      invariant n <= |src| && Stripped(src[..n]) == Stripped(src)
    {
      assert src[..n][..n - 1] == src[..n - 1];
      n := n - 1;
    }
  }

  /** base64_decode: the bytes of the text, up to its padding. */
  method Decode(src: string) returns (out: array<Byte>, j: nat)
    ensures fresh(out) && j <= out.Length && out[..j] == Decoded(src)
  {
    hide Bytes, BytesSoFar, Stripped, Eight, Value;
    var n := StripEnd(src);
    var s := src[..n];
    BytesLength(s);
    var limit := |s| * 3 / 4;
    out := new Byte[limit + 1];
    var i := 0;
    j := 0;
    BytesStarts(s);
    while i < |s|
      invariant i <= |s| && j <= limit && BytesSoFar(s, i, out[..j])
    {
      BytesNext(s, i, out[..j], if limit - j < 3 then limit - j else 3);
      j := StoreBytes(out, j, limit, Digit0(s, i), Digit0(s, i + 1), Digit0(s, i + 2), Digit0(s, i + 3));
      i := if i + 4 <= |s| then i + 4 else |s|;
    }
    BytesEnds(s, out[..j]);
  }
}
