/** The string codecs as they work on buffers of any size. */
module Utf8Buffers {
  import opened Extremes
  import opened Surrogates
  import opened Utf8

  /** Bytes that are stored are the encoding of a whole number of code points. */
  ghost predicate Prefix(src: seq<Unit>, i: nat, stored: seq<Byte>) {
    i <= |src| && Encoded(src) == stored + Encoded(src[i..])
  }

  lemma PrefixNext(src: seq<Unit>, i: nat, stored: seq<Byte>)
    requires i < |src| && Prefix(src, i, stored)
    ensures var (c, n) := NextPoint(src[i..]);
            i + n <= |src| && Prefix(src, i + n, stored + EncodeOne(c)) && |stored| + EncodeLen(c) <= |Encoded(src)|
  {
    var (c, n) := NextPoint(src[i..]);
    assert src[i..][n..] == src[i + n..];
  }

  method StoreOne(dest: array<Byte>, j: nat, c: Point)
    requires j + EncodeLen(c) <= dest.Length
    modifies dest
    ensures dest[..j + EncodeLen(c)] == old(dest[..j]) + EncodeOne(c)
  {
    var x: int := c;
    if x < 0x80 {
      dest[j] := x;
    } else if x < 0x800 {
      dest[j], dest[j + 1] := x / 64 + 0xC0, Tail(x);
    } else if x < 0x1_0000 {
      dest[j], dest[j + 1], dest[j + 2] := x / 4096 + 0xE0, Tail(x / 64), Tail(x);
    } else {
      dest[j], dest[j + 1], dest[j + 2], dest[j + 3] := x / 262144 + 0xF0, Tail(x / 4096), Tail(x / 64), Tail(x);
    }
  }

  /** The unit at i, joined with the next one when they are a surrogate pair. */
  method TakePoint(src: seq<Unit>, i: nat) returns (c: Point, next: nat)
    requires i < |src|
    ensures (c, next - i) == NextPoint(src[i..]) && i < next <= |src|
  {
    c, next := src[i], i + 1;
    if IsHi(c) && next < |src| && IsLo(src[next]) {
      c, next := FromSurrogate(src[i], src[next]), next + 1;
    }
  }

  /** The rest of the length once the buffer is full. */
  method CountRest(src: seq<Unit>, i0: nat, j0: nat, ghost stored: seq<Byte>) returns (j: nat)
    requires Prefix(src, i0, stored) && |stored| == j0
    ensures j == |Encoded(src)|
  {
    hide Encoded, NextPoint, EncodeOne;
    var i := i0;
    j := j0;
    ghost var seen := stored;
    while i < |src|
      invariant i <= |src| && Prefix(src, i, seen) && |seen| == j
    {
      var c, next := TakePoint(src, i);
      PrefixNext(src, i, seen);
      seen := seen + EncodeOne(c);
      j := j + EncodeLen(c);
      i := next;
    }
    PrefixEnd(src, seen);
  }

  lemma PrefixEnd(src: seq<Unit>, stored: seq<Byte>)
    requires Prefix(src, |src|, stored)
    ensures Encoded(src) == stored
  {
    assert src[|src|..] == [];
  }

  lemma PrefixStart(src: seq<Unit>)
    ensures Prefix(src, 0, [])
  {
    assert src[0..] == src;
  }

  /**
   * utf8_encode_buf16: the full length of the encoding, whatever the size of the buffer. The buffer
   * gets all of it and a terminator if there is room, otherwise as many whole code points as leave
   * room for the terminator.
   */
  method EncodeBuf16(dest: array<Byte>, src: seq<Unit>) returns (j: nat, ghost i: nat, ghost stored: seq<Byte>)
    modifies dest
    ensures j == |Encoded(src)|
    ensures Prefix(src, i, stored) && |stored| <= dest.Length && dest[..|stored|] == stored
    ensures dest.Length > 0 ==> |stored| < dest.Length && dest[|stored|] == 0
    ensures j < dest.Length ==> stored == Encoded(src)
    ensures j >= dest.Length ==> src == [] || (i < |src| && |stored| + EncodeLen(NextPoint(src[i..]).0) >= dest.Length)
  {
    hide Encoded, NextPoint, EncodeOne;
    stored := [];
    i := 0;
    j := 0;
    var at := 0;
    PrefixStart(src);
    while at < |src|
      invariant at == i && i <= |src| && Prefix(src, i, stored) && |stored| == j
      invariant j <= dest.Length && (j > 0 ==> j < dest.Length) && (at > 0 ==> j > 0) && dest[..j] == stored
      decreases |src| - at
    {
      var c, next := TakePoint(src, at);
      PrefixNext(src, at, stored);
      if j + EncodeLen(c) >= dest.Length {
        if j < dest.Length { dest[j] := 0; }
        j := CountRest(src, at, j, stored);
        return;
      }
      StoreOne(dest, j, c);
      stored := stored + EncodeOne(c);
      j := j + EncodeLen(c);
      at, i := next, next;
    }
    PrefixEnd(src, stored);
    if j < dest.Length { dest[j] := 0; }
  }

  // ---- Decoding

  ghost predicate DecodedSoFar(src: seq<Byte>, p: nat, units: seq<Unit>) {
    p <= |src| && Decoded(src) == units + Decoded(src[p..])
  }

  lemma DecodeNextPart(src: seq<Byte>, p: nat, units: seq<Unit>)
    requires p < |src| && DecodedSoFar(src, p, units)
    ensures var (c, n) := DecodeNext(src[p..]); p + n <= |src| && DecodedSoFar(src, p + n, units + Units(c))
  {
    var (c, n) := DecodeNext(src[p..]);
    assert src[p..][n..] == src[p + n..];
  }

  lemma DecodeStart(src: seq<Byte>)
    ensures DecodedSoFar(src, 0, [])
  {
    assert src[0..] == src;
  }

  lemma DecodeEnd(src: seq<Byte>, units: seq<Unit>)
    requires DecodedSoFar(src, |src|, units)
    ensures Decoded(src) == units
  {
    assert src[|src|..] == [];
  }

  lemma OneByte(s: seq<Byte>)
    requires s != [] && s[0] < 0x80
    ensures DecodeNext(s) == (s[0] as int, 1)
  {
  }

  method StoreUnit(dest: array<Unit>, i: nat, u: Unit, ghost units: seq<Unit>)
    requires |units| == i && dest[..Min(i, dest.Length)] == units[..Min(i, dest.Length)]
    modifies dest
    ensures dest[..Min(i + 1, dest.Length)] == (units + [u])[..Min(i + 1, dest.Length)]
  {
    if i < dest.Length { dest[i] := u; }
  }

  lemma UnitsAdded(units: seq<Unit>, c: Point)
    ensures units + Units(c) == if c > 0xFFFF then units + [HiSurrogate(c)] + [LoSurrogate(c)] else units + [c]
  {
  }

  /** utf8_decode_buf16: the number of units of the whole text; the buffer gets as many as fit. */
  method DecodeBuf16(dest: array<Unit>, src: seq<Byte>) returns (i: nat)
    modifies dest
    ensures i == |Decoded(src)| && dest[..Min(i, dest.Length)] == Decoded(src)[..Min(i, dest.Length)]
  {
    hide Decoded, DecodeNext, Units;
    var p := 0;
    i := 0;
    ghost var units: seq<Unit> := [];
    DecodeStart(src);
    while p < |src|
      invariant p <= |src| && |units| == i && DecodedSoFar(src, p, units)
      invariant dest[..Min(i, dest.Length)] == units[..Min(i, dest.Length)]
      decreases |src| - p
    {
      DecodeNextPart(src, p, units);
      var c: Point, n := src[p] as int, 1;
      if src[p] < 0x80 { OneByte(src[p..]); } else { var r := DecodeNext(src[p..]); c, n := r.0, r.1; }
      ghost var whole := units + Units(c);
      var u: int := c;
      UnitsAdded(units, c);
      if c > 0xFFFF {
        StoreUnit(dest, i, HiSurrogate(c), units);
        units := units + [HiSurrogate(c)];
        i := i + 1;
        u := LoSurrogate(c);
      }
      StoreUnit(dest, i, u, units);
      units := units + [u];
      assert units == whole;
      i := i + 1;
      p := p + n;
    }
    DecodeEnd(src, units);
  }

  /** A string written to a large enough buffer and read back is the same string. */
  method ThereAndBack(bytes: array<Byte>, units: array<Unit>, src: seq<Unit>) returns (n: nat)
    requires |Encoded(src)| < bytes.Length && |src| <= units.Length
    modifies bytes, units
    ensures n == |src| && units[..n] == src
  {
    var j, _, _ := EncodeBuf16(bytes, src);
    n := DecodeBuf16(units, bytes[..j]);
    RoundTrip(src);
  }

  // ---- What a scan finds out, and the 8-bit decoder that relies on it

  ghost predicate Wide(units: seq<Unit>) {
    exists i :: 0 <= i < |units| && units[i] > 0xFF
  }

  lemma WideConcat(s: seq<Unit>, t: seq<Unit>)
    ensures Wide(s + t) <==> Wide(s) || Wide(t)
  {
    if Wide(s) {
      var i :| 0 <= i < |s| && s[i] > 0xFF;
      assert (s + t)[i] > 0xFF;
    }
    if Wide(t) {
      var i :| 0 <= i < |t| && t[i] > 0xFF;
      assert (s + t)[|s| + i] > 0xFF;
    }
  }

  lemma WideUnits(c: Point)
    ensures Wide(Units(c)) <==> c > 0xFF
    ensures |Units(c)| == if c > 0xFFFF then 2 else 1
  {
    assert Units(c)[0] > 0xFF <==> c > 0xFF;
  }

  ghost predicate Ascii(src: seq<Byte>) {
    forall i :: 0 <= i < |src| ==> src[i] < 0x80
  }

  lemma {:induction false} AsciiDecoded(src: seq<Byte>)
    requires Ascii(src)
    ensures |Decoded(src)| == |src| && !Wide(Decoded(src))
  {
    if src != [] {
      OneByte(src);
      AsciiDecoded(src[1..]);
      WideUnits(src[0] as int);
      WideConcat(Units(src[0] as int), Decoded(src[1..]));
    }
  }

  /** The code points that decoding reads, an error being read as U+FFFD. */
  function Points(src: seq<Byte>): (points: seq<Point>) {
    if src == [] then [] else [DecodeNext(src).0] + Points(src[DecodeNext(src).1..])
  }

  function EncodedPoints(points: seq<Point>): (bytes: seq<Byte>) {
    if points == [] then [] else EncodedPoints(points[..|points| - 1]) + EncodeOne(points[|points| - 1])
  }

  ghost predicate Astral(points: seq<Point>) {
    exists i :: 0 <= i < |points| && points[i] > 0xFFFF
  }

  /** The bytes encode some code points and nothing else. */
  ghost predicate IsText(src: seq<Byte>) {
    exists points :: src == EncodedPoints(points)
  }

  lemma PointsAppend(points: seq<Point>, c: Point)
    ensures EncodedPoints(points + [c]) == EncodedPoints(points) + EncodeOne(c)
    ensures Astral(points + [c]) <==> Astral(points) || c > 0xFFFF
  {
    assert (points + [c])[..|points|] == points;
    assert (points + [c])[|points|] == c;
    if Astral(points) {
      var i :| 0 <= i < |points| && points[i] > 0xFFFF;
      assert (points + [c])[i] > 0xFFFF;
    }
  }

  /** The first p bytes read as these code points, and are their encoding unless there was an error. */
  ghost predicate PointsSoFar(src: seq<Byte>, p: nat, points: seq<Point>, errors: bool) {
    && p <= |src| && Points(src) == points + Points(src[p..])
    && (if errors then |EncodedPoints(points)| > p else EncodedPoints(points) == src[..p])
  }

  lemma PointsStart(src: seq<Byte>)
    ensures PointsSoFar(src, 0, [], false) && !Astral([])
  {
    assert src[0..] == src && src[..0] == [];
  }

  lemma PointsNext(src: seq<Byte>, p: nat, points: seq<Point>, errors: bool)
    requires p < |src| && PointsSoFar(src, p, points, errors)
    ensures var (c, n) := DecodeNext(src[p..]);
            p + n <= |src| && PointsSoFar(src, p + n, points + [c], errors || (n == 1 && src[p] >= 0x80))
  {
    hide DecodeNext, EncodeOne, EncodedPoints;
    var (c, n) := DecodeNext(src[p..]);
    assert src[p..][n..] == src[p + n..];
    Reassociate(points, c, Points(src[p + n..]));
    PointsAppend(points, c);
    DecodedLength(src[p..]);
    assert src[p..][..n] == src[p..p + n] && src[..p + n] == src[..p] + src[p..p + n];
  }

  lemma Reassociate(points: seq<Point>, c: Point, rest: seq<Point>)
    ensures points + ([c] + rest) == points + [c] + rest
  {
  }

  /** A step that is no error reads exactly an encoding; an error reads less than its encoding is long. */
  lemma DecodedLength(s: seq<Byte>)
    requires s != []
    ensures var (c, n) := DecodeNext(s);
            if n == 1 && s[0] >= 0x80 then |EncodeOne(c)| > 1 else s[..n] == EncodeOne(c)
  {
    if DecodeNext(s) != (REPLACEMENT, 1) {
      DecodedBytes(s);
    }
  }

  lemma PointsEnd(src: seq<Byte>, points: seq<Point>, errors: bool)
    requires PointsSoFar(src, |src|, points, errors)
    ensures Points(src) == points && (errors <==> !IsText(src))
  {
    assert src[|src|..] == [] && src[..|src|] == src;
    assert Points([]) == [];
    hide Points, EncodedPoints;
    if IsText(src) { TextPoints(src); }
  }

  lemma TextPoints(src: seq<Byte>)
    requires IsText(src)
    ensures EncodedPoints(Points(src)) == src
  {
    var points :| src == EncodedPoints(points);
    ReadsBack(points, []);
    assert src + [] == src && points + [] == points && Points([]) == [];
  }

  lemma Grouped(a: seq<Byte>, b: seq<Byte>, c: seq<Byte>)
    ensures a + b + c == a + (b + c)
  {
  }

  lemma ReadsFirst(c: Point, rest: seq<Byte>)
    ensures Points(EncodeOne(c) + rest) == [c] + Points(rest)
  {
    DecodeEncodeOne(c, rest);
    assert (EncodeOne(c) + rest)[EncodeLen(c)..] == rest;
  }

  /** Encoded code points are read back. */
  lemma {:induction false} ReadsBack(points: seq<Point>, rest: seq<Byte>)
    ensures Points(EncodedPoints(points) + rest) == points + Points(rest)
    decreases |points|
  {
    if points == [] {
      assert [] + rest == rest;
    } else {
      var k := |points| - 1;
      var front, c := points[..k], points[k];
      Grouped(EncodedPoints(front), EncodeOne(c), rest);
      ReadsBack(front, EncodeOne(c) + rest);
      ReadsFirst(c, rest);
      hide Points, EncodeOne;
      Reassociate(front, c, Points(rest));
      assert points == front + [c];
    }
  }

  /**
   * utf8_scan: the number of units that decoding gives, for any bytes, and whether the text is plain,
   * needs 16-bit units, has a code point that needs a surrogate pair, or is no encoding at all.
   */
  method Scan(src: seq<Byte>) returns (len: nat, plain: bool, wide: bool, astral: bool, errors: bool)
    ensures len == |Decoded(src)| && (plain <==> Ascii(src)) && (wide <==> Wide(Decoded(src)))
    ensures (astral <==> Astral(Points(src))) && (errors <==> !IsText(src))
  {
    hide Decoded, DecodeNext, Units, Wide, Points, Astral, IsText;
    plain := true;
    for i := 0 to |src|
      invariant plain <==> Ascii(src[..i])
    {
      if src[i] >= 0x80 { plain := false; }
    }
    assert src[..|src|] == src;
    len, wide, astral, errors := |src|, false, false, false;
    if plain {
      AsciiDecoded(src);
      AsciiPoints(src);
      return;
    }
    len, wide, astral, errors := ScanAll(src);
  }

  method ScanAll(src: seq<Byte>) returns (len: nat, wide: bool, astral: bool, errors: bool)
    ensures len == |Decoded(src)| && (wide <==> Wide(Decoded(src)))
    ensures (astral <==> Astral(Points(src))) && (errors <==> !IsText(src))
  {
    hide Decoded, DecodeNext, Units, Wide, Points, Astral, IsText, PointsSoFar, DecodedSoFar;
    len, wide, astral, errors := 0, false, false, false;
    var p := 0;
    ghost var units: seq<Unit>, points: seq<Point> := [], [];
    DecodeStart(src);
    PointsStart(src);
    NotWide();
    while p < |src|
      invariant p <= |src| && |units| == len && DecodedSoFar(src, p, units) && PointsSoFar(src, p, points, errors)
      invariant (wide <==> Wide(units)) && (astral <==> Astral(points))
      decreases |src| - p
    {
      DecodeNextPart(src, p, units);
      PointsNext(src, p, points, errors);
      len := len + 1;
      var c: Point, n := src[p] as int, 1;
      if src[p] >= 0x80 {
        var r := DecodeNext(src[p..]);
        c, n := r.0, r.1;
        if n == 1 { errors := true; }
        if c > 0xFF {
          wide := true;
          if c > 0xFFFF {
            len := len + 1;
            astral := true;
          }
        }
      } else {
        OneByte(src[p..]);
      }
      WideUnits(c);
      WideConcat(units, Units(c));
      PointsAppend(points, c);
      units, points := units + Units(c), points + [c];
      p := p + n;
    }
    DecodeEnd(src, units);
    PointsEnd(src, points, errors);
  }

  lemma AsciiPoints(src: seq<Byte>)
    requires Ascii(src)
    ensures !Astral(Points(src)) && IsText(src)
  {
    var points := AsciiRead(src, |src|);
    PointsEnd(src, points, false);
  }

  lemma {:induction false} AsciiRead(src: seq<Byte>, p: nat) returns (points: seq<Point>)
    requires Ascii(src) && p <= |src|
    ensures PointsSoFar(src, p, points, false) && !Astral(points)
  {
    PointsStart(src);
    points := [];
    if p > 0 {
      hide PointsSoFar, Astral, DecodeNext;
      points := AsciiRead(src, p - 1);
      PointsNext(src, p - 1, points, false);
      OneByte(src[p - 1..]);
      PointsAppend(points, src[p - 1] as int);
      points := points + [src[p - 1] as int];
    }
  }

  lemma NotWide()
    ensures !Wide([])
  {
  }

  /** A text without 16-bit units begins with one byte, or with two that a subtraction decodes. */
  lemma NarrowStep(s: seq<Byte>)
    requires s != [] && !Wide(Decoded(s))
    ensures var (c, n) := DecodeNext(s);
            && c <= 0xFF && Units(c) == [c as int] && !Wide(Decoded(s[n..]))
            && (if s[0] >= 0xC0
                then n == 2 && |s| >= 2 && c == 64 * (s[0] as int) + s[1] as int - (0xC0 * 64 + 0x80)
                else n == 1 && c == s[0])
  {
    var (c, n) := DecodeNext(s);
    WideUnits(c);
    WideConcat(Units(c), Decoded(s[n..]));
  }

  method StoreByte(dest: array<Byte>, i: nat, u: Byte, ghost units: seq<Unit>)
    requires |units| == i && SameUpTo(dest[..], units, Min(i, dest.Length))
    modifies dest
    ensures SameUpTo(dest[..], units + [u as int], Min(i + 1, dest.Length))
  {
    if i < dest.Length { dest[i] := u; }
  }

  ghost predicate SameUpTo(bytes: seq<Byte>, units: seq<Unit>, n: nat) {
    n <= |bytes| && n <= |units| && forall k :: 0 <= k < n ==> bytes[k] as int == units[k]
  }

  /**
   * utf8_decode_buf8: where the scan found no 16-bit unit it gives what the general decoder gives,
   * one byte a unit, cut off to leave room for a terminator.
   */
  method DecodeBuf8(dest: array<Byte>, src: seq<Byte>) returns (i: nat)
    requires !Wide(Decoded(src))
    modifies dest
    ensures i == |Decoded(src)|
    ensures SameUpTo(dest[..], Decoded(src), if dest.Length == 0 then 0 else Min(i, dest.Length - 1))
    ensures dest.Length > 0 ==> dest[Min(i, dest.Length - 1)] == 0
  {
    hide Decoded, DecodeNext, Units, Wide;
    var p := 0;
    i := 0;
    ghost var units: seq<Unit> := [];
    DecodeStart(src);
    assert src[0..] == src;
    while p < |src|
      invariant p <= |src| && |units| == i && DecodedSoFar(src, p, units) && !Wide(Decoded(src[p..]))
      invariant SameUpTo(dest[..], units, Min(i, dest.Length))
      decreases |src| - p
    {
      ghost var (point, n) := DecodeNext(src[p..]);
      DecodeNextPart(src, p, units);
      NarrowStep(src[p..]);
      assert src[p..][n..] == src[p + n..];
      var c: int := src[p];
      p := p + 1;
      if c >= 0xC0 {
        c := c * 64 + src[p] - (0xC0 * 64 + 0x80);
        p := p + 1;
      }
      StoreByte(dest, i, c, units);
      units := units + [c];
      i := i + 1;
    }
    DecodeEnd(src, units);
    if i < dest.Length {
      dest[i] := 0;
    } else if dest.Length > 0 {
      dest[dest.Length - 1] := 0;
    }
  }

  // ---- Bytes as code points

  function AsUnits(src: seq<Byte>): (units: seq<Unit>) {
    seq(|src|, i requires 0 <= i < |src| => src[i] as int)
  }

  lemma NarrowPoint(src: seq<Byte>, i: nat)
    requires i < |src|
    ensures NextPoint(AsUnits(src)[i..]) == (src[i] as int, 1)
    ensures EncodeLen(src[i] as int) == if src[i] < 0x80 then 1 else 2
  {
  }

  /** utf8_encode_buf8: the full length, and the same bytes as the 16-bit encoder gives for these code points. */
  method EncodeBuf8(dest: array<Byte>, src: seq<Byte>) returns (j: nat, ghost i: nat, ghost stored: seq<Byte>)
    modifies dest
    ensures j == |Encoded(AsUnits(src))|
    ensures Prefix(AsUnits(src), i, stored) && |stored| <= dest.Length && dest[..|stored|] == stored
    ensures dest.Length > 0 ==> |stored| < dest.Length && dest[|stored|] == 0
    ensures j < dest.Length ==> stored == Encoded(AsUnits(src))
  {
    hide Encoded, NextPoint, EncodeOne;
    ghost var units := AsUnits(src);
    stored := [];
    i := 0;
    j := 0;
    var at := 0;
    PrefixStart(units);
    while at < |src|
      invariant at == i && i <= |src| && Prefix(units, i, stored) && |stored| == j
      invariant j <= dest.Length && (j > 0 ==> j < dest.Length) && dest[..j] == stored
      decreases |src| - at
    {
      var c: int := src[at];
      NarrowPoint(src, at);
      PrefixNext(units, at, stored);
      var n := if c < 0x80 then 1 else 2;
      if j + n >= dest.Length {
        if j < dest.Length { dest[j] := 0; }
        j := CountRest8(src, at, j, stored);
        return;
      }
      StoreOne(dest, j, c);
      stored := stored + EncodeOne(c);
      j := j + n;
      at, i := at + 1, at + 1;
    }
    PrefixEnd(units, stored);
    if j < dest.Length { dest[j] := 0; }
  }

  method CountRest8(src: seq<Byte>, i0: nat, j0: nat, ghost stored: seq<Byte>) returns (j: nat)
    requires Prefix(AsUnits(src), i0, stored) && |stored| == j0
    ensures j == |Encoded(AsUnits(src))|
  {
    hide Encoded, NextPoint, EncodeOne;
    var i := i0;
    j := j0;
    ghost var seen := stored;
    while i < |src|
      invariant i <= |src| && Prefix(AsUnits(src), i, seen) && |seen| == j
    {
      NarrowPoint(src, i);
      PrefixNext(AsUnits(src), i, seen);
      seen := seen + EncodeOne(src[i] as int);
      j := j + 1 + (if src[i] >= 0x80 then 1 else 0);
      i := i + 1;
    }
    PrefixEnd(AsUnits(src), seen);
  }

  /** Bytes written as UTF-8 and read back by the 8-bit decoder are the same bytes. */
  method ThereAndBack8(text: array<Byte>, bytes: array<Byte>, src: seq<Byte>) returns (n: nat)
    requires |Encoded(AsUnits(src))| < text.Length && |src| < bytes.Length
    modifies text, bytes
    ensures n == |src| && bytes[..n] == src
  {
    var j, _, _ := EncodeBuf8(text, src);
    RoundTrip(AsUnits(src));
    NotWideBytes(src);
    n := DecodeBuf8(bytes, text[..j]);
  }

  lemma NotWideBytes(src: seq<Byte>)
    ensures !Wide(AsUnits(src))
  {
  }
}
