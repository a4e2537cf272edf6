/** UTF-8 with surrogates: one code point at a time, and whole strings of 16-bit units. */
module Utf8 {
  import opened Surrogates

  type Byte = b: int | 0 <= b < 0x100
  type Unit = u: int | 0 <= u < 0x1_0000
  type Point = c: int | 0 <= c < 0x11_0000

  const REPLACEMENT: Point := 0xFFFD

  // ---- Surrogates

  function HiSurrogate(c: Point): (u: Unit)
    requires c > 0xFFFF
  {
    var x: int := c;
    x / 1024 - 64 + 0xD800
  }

  function LoSurrogate(c: Point): (u: Unit) {
    var x: int := c;
    x % 1024 + 0xDC00
  }

  /** The 16-bit units of a code point. */
  function Units(c: Point): (s: seq<Unit>) {
    if c > 0xFFFF then [HiSurrogate(c), LoSurrogate(c)] else [c]
  }

  lemma UnitsOfPair(hi: Unit, lo: Unit)
    requires IsHi(hi) && IsLo(lo)
    ensures Units(FromSurrogate(hi, lo)) == [hi, lo]
  {
    var h: int, l: int := hi, lo;
    assert h == 0xD800 + h % 1024 && l == 0xDC00 + l % 1024;
    var c: int := FromSurrogate(hi, lo);
    assert c == 1024 * (64 + h % 1024) + l % 1024;
    assert c / 1024 == 64 + h % 1024 && c % 1024 == l % 1024;
  }

  // ---- One code point

  function EncodeLen(c: Point): (n: nat)
    ensures 1 <= n <= 4
  {
    if c < 0x80 then 1 else if c < 0x800 then 2 else if c < 0x1_0000 then 3 else 4
  }

  function Tail(x: int): (b: Byte) {
    x % 64 + 0x80
  }

  /** utf8_encode on a valid code point. */
  function EncodeOne(c: Point): (s: seq<Byte>)
    ensures |s| == EncodeLen(c)
  {
    var x: int := c;
    if x < 0x80 then [x]
    else if x < 0x800 then [x / 64 + 0xC0, Tail(x)]
    else if x < 0x1_0000 then [x / 4096 + 0xE0, Tail(x / 64), Tail(x)]
    else [x / 262144 + 0xF0, Tail(x / 4096), Tail(x / 64), Tail(x)]
  }

  predicate IsTail(b: int) {
    0x80 <= b <= 0xBF
  }

  /** The bytes that a lead byte calls for. */
  function Needed(lead: Byte): (n: nat) {
    if lead < 0x80 then 1 else if lead < 0xE0 then 2 else if lead < 0xF0 then 3 else 4
  }

  /** utf8_decode: the code point at the start of s and the bytes it takes; one byte on error. */
  function DecodeOne(s: seq<Byte>): (r: (Point, nat))
    requires |s| >= 1 && |s| >= Needed(s[0])
    ensures 1 <= r.1 <= Needed(s[0])
  {
    var b: int := s[0];
    if b < 0x80 then (b, 1)
    else if 0xC2 <= b <= 0xDF then
      var b1: int := s[1];
      if IsTail(b1) then ((b - 0xC0) * 64 + (b1 - 0x80), 2) else (REPLACEMENT, 1)
    else if 0xE0 <= b <= 0xEF then
      var b1: int, b2: int := s[1], s[2];
      var lower := if b == 0xE0 then 0xA0 else 0x80;
      if lower <= b1 <= 0xBF && IsTail(b2)
      then ((b - 0xE0) * 4096 + (b1 - 0x80) * 64 + (b2 - 0x80), 3) else (REPLACEMENT, 1)
    else if 0xF0 <= b <= 0xF4 then
      var b1: int, b2: int, b3: int := s[1], s[2], s[3];
      var lower, upper := if b == 0xF0 then 0x90 else 0x80, if b == 0xF4 then 0x8F else 0xBF;
      if lower <= b1 <= upper && IsTail(b2) && IsTail(b3)
      then ((b - 0xF0) * 262144 + (b1 - 0x80) * 4096 + (b2 - 0x80) * 64 + (b3 - 0x80), 4) else (REPLACEMENT, 1)
    else (REPLACEMENT, 1)
  }

  /** utf8_decode_len: an incomplete sequence at the end is an error of one byte. */
  function DecodeNext(s: seq<Byte>): (r: (Point, nat))
    requires s != []
    ensures 1 <= r.1 <= |s|
  {
    if |s| >= Needed(s[0]) then DecodeOne(s) else (REPLACEMENT, 1)
  }

  lemma Split3(x: int)
    ensures x == x / 4096 * 4096 + x / 64 % 64 * 64 + x % 64
  {
    assert x / 64 / 64 == x / 4096;
  }

  lemma Split4(x: int)
    ensures x == x / 262144 * 262144 + x / 4096 % 64 * 4096 + x / 64 % 64 * 64 + x % 64
  {
    Split3(x);
    assert x / 4096 / 64 == x / 262144;
  }

  lemma DecodeThree(x: int, s: seq<Byte>)
    requires 0x800 <= x < 0x1_0000 && |s| >= 3
    requires s[0] == x / 4096 + 0xE0 && s[1] == x / 64 % 64 + 0x80 && s[2] == x % 64 + 0x80
    ensures DecodeOne(s) == (x, 3)
  {
    Split3(x);
  }

  lemma DecodeFour(x: int, s: seq<Byte>)
    requires 0x1_0000 <= x < 0x11_0000 && |s| >= 4
    requires s[0] == x / 262144 + 0xF0 && s[1] == x / 4096 % 64 + 0x80
    requires s[2] == x / 64 % 64 + 0x80 && s[3] == x % 64 + 0x80
    ensures DecodeOne(s) == (x, 4)
  {
    Split4(x);
  }

  /** Every code point, surrogates included, is read back from its own bytes. */
  lemma DecodeEncodeOne(c: Point, rest: seq<Byte>)
    ensures DecodeNext(EncodeOne(c) + rest) == (c, EncodeLen(c))
  {
    var x: int, s := c, EncodeOne(c) + rest;
    if 0x800 <= x < 0x1_0000 {
      DecodeThree(x, s);
    } else if x >= 0x1_0000 {
      DecodeFour(x, s);
    }
  }

  lemma EncodeTwo(b: int, b1: int, x: int)
    requires 0xC2 <= b <= 0xDF && IsTail(b1) && x == (b - 0xC0) * 64 + (b1 - 0x80)
    ensures 0x80 <= x < 0x800 && x / 64 + 0xC0 == b && Tail(x) == b1
  {
  }

  lemma EncodeThree(b: int, b1: int, b2: int, x: int)
    requires 0xE0 <= b <= 0xEF && IsTail(b1) && IsTail(b2) && (b == 0xE0 ==> b1 >= 0xA0)
    requires x == (b - 0xE0) * 4096 + (b1 - 0x80) * 64 + (b2 - 0x80)
    ensures 0x800 <= x < 0x1_0000 && x / 4096 + 0xE0 == b && Tail(x / 64) == b1 && Tail(x) == b2
  {
    assert x == ((b - 0xE0) * 64 + (b1 - 0x80)) * 64 + (b2 - 0x80);
    assert x / 64 == (b - 0xE0) * 64 + (b1 - 0x80);
  }

  lemma EncodeFour(b: int, b1: int, b2: int, b3: int, x: int)
    requires 0xF0 <= b <= 0xF4 && IsTail(b1) && IsTail(b2) && IsTail(b3)
    requires (b == 0xF0 ==> b1 >= 0x90) && (b == 0xF4 ==> b1 <= 0x8F)
    requires x == (b - 0xF0) * 262144 + (b1 - 0x80) * 4096 + (b2 - 0x80) * 64 + (b3 - 0x80)
    ensures 0x1_0000 <= x < 0x11_0000 && x / 262144 + 0xF0 == b
    ensures Tail(x / 4096) == b1 && Tail(x / 64) == b2 && Tail(x) == b3
  {
    assert x == (((b - 0xF0) * 64 + (b1 - 0x80)) * 64 + (b2 - 0x80)) * 64 + (b3 - 0x80);
    assert x / 64 == ((b - 0xF0) * 64 + (b1 - 0x80)) * 64 + (b2 - 0x80);
    assert x / 4096 == (b - 0xF0) * 64 + (b1 - 0x80);
  }

  lemma DecodedBytes(s: seq<Byte>)
    requires s != [] && DecodeNext(s) != (REPLACEMENT, 1)
    ensures var (c, n) := DecodeNext(s); n == EncodeLen(c) && s[..n] == EncodeOne(c)
  {
    var (c, n) := DecodeNext(s);
    if n == 2 {
      EncodeTwo(s[0], s[1], c);
    } else if n == 3 {
      EncodeThree(s[0], s[1], s[2], c);
    } else if n == 4 {
      EncodeFour(s[0], s[1], s[2], s[3], c);
    }
  }

  /**
   * Decoding any bytes takes exactly the encoding of the code point it gives, or else reports an error
   * of one byte, and then no code point at all is encoded there: overlong and truncated forms are
   * errors, surrogates are not.
   */
  lemma DecodeIsExact(s: seq<Byte>)
    requires s != []
    ensures var (c, n) := DecodeNext(s);
            if exists d :: EncodeOne(d) <= s then n == EncodeLen(c) && s[..n] == EncodeOne(c)
            else (c, n) == (REPLACEMENT, 1)
  {
    if d :| EncodeOne(d) <= s {
      DecodeEncodeOne(d, s[EncodeLen(d)..]);
      assert s == EncodeOne(d) + s[EncodeLen(d)..];
    } else if DecodeNext(s) != (REPLACEMENT, 1) {
      DecodedBytes(s);
    }
  }

  // ---- Whole strings

  /** The first code point of a string of units: a surrogate pair counts as one. */
  function NextPoint(src: seq<Unit>): (r: (Point, nat))
    requires src != []
    ensures 1 <= r.1 <= |src| && (r.1 == 2 <==> r.0 > 0xFFFF)
  {
    if IsHi(src[0]) && |src| > 1 && IsLo(src[1]) then (FromSurrogate(src[0], src[1]), 2) else (src[0], 1)
  }

  function Encoded(src: seq<Unit>): (s: seq<Byte>) {
    if src == [] then [] else EncodeOne(NextPoint(src).0) + Encoded(src[NextPoint(src).1..])
  }

  function Decoded(s: seq<Byte>): (units: seq<Unit>) {
    if s == [] then [] else Units(DecodeNext(s).0) + Decoded(s[DecodeNext(s).1..])
  }

  /** Every string of 16-bit units, lone surrogates included, survives encoding and decoding. */
  lemma {:induction false} RoundTrip(src: seq<Unit>)
    ensures Decoded(Encoded(src)) == src
  {
    if src != [] {
      var (c, n) := NextPoint(src);
      var rest := Encoded(src[n..]);
      RoundTrip(src[n..]);
      DecodeEncodeOne(c, rest);
      assert (EncodeOne(c) + rest)[EncodeLen(c)..] == rest;
      assert Units(c) == src[..n] by { if n == 2 { UnitsOfPair(src[0], src[1]); } }
      assert src == src[..n] + src[n..];
    }
  }
}
