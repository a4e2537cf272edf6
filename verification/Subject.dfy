/** The text a regular expression is run on: 16-bit units, read either one unit at a
    time or, in UTF-16 mode, one code point at a time. */
module Subject {
  import opened Surrogates

  datatype Subject = Subject(units: seq<nat>, utf16: bool, multiline: bool)

  /** A surrogate pair that counts as one character starts at `i`. */
  predicate PairAt(t: Subject, i: int) {
    t.utf16 && 0 <= i && i + 1 < |t.units| && IsHi(t.units[i]) && IsLo(t.units[i + 1])
  }

  /** `p` does not fall inside a surrogate pair. */
  predicate Boundary(t: Subject, p: nat) {
    p <= |t.units| && !PairAt(t, p - 1)
  }

  /** GET_CHAR: the character read at `p`. */
  function CharAt(t: Subject, p: nat): (r: nat)
    requires p < |t.units|
  {
    if PairAt(t, p) then FromSurrogate(t.units[p], t.units[p + 1]) else t.units[p]
  }

  /** GET_CHAR: where the read leaves the pointer. */
  function NextPos(t: Subject, p: nat): (r: nat) {
    if PairAt(t, p) then p + 2 else p + 1
  }

  /** PREV_CHAR, for a pointer past the start of the buffer. */
  function PrevPos(t: Subject, p: nat): (r: nat)
    requires p > 0
  {
    if PairAt(t, p - 2) then p - 2 else p - 1
  }

  /** PEEK_PREV_CHAR: the character that ends at `p`. */
  function CharBefore(t: Subject, p: nat): (r: nat)
    requires 0 < p <= |t.units|
  {
    if PairAt(t, p - 2) then FromSurrogate(t.units[p - 2], t.units[p - 1]) else t.units[p - 1]
  }

  /** PREV_CHAR applied `k` times; it stops at the start of the buffer. */
  function PrevMany(t: Subject, p: nat, k: nat): (r: nat)
    decreases k
  {
    if k == 0 || p == 0 then p else PrevMany(t, PrevPos(t, p), k - 1)
  }

  /** Reading forwards and stepping back undo each other between character boundaries. */
  lemma StepForward(t: Subject, p: nat)
    requires Boundary(t, p) && p < |t.units|
    ensures p < NextPos(t, p) && Boundary(t, NextPos(t, p)) && PrevPos(t, NextPos(t, p)) == p
  {
  }

  lemma StepBack(t: Subject, p: nat)
    requires Boundary(t, p) && p > 0
    ensures PrevPos(t, p) < p && Boundary(t, PrevPos(t, p)) && NextPos(t, PrevPos(t, p)) == p
    ensures p <= |t.units| && CharAt(t, PrevPos(t, p)) == CharBefore(t, p)
  {
  }

  predicate IsLineTerminator(c: nat) {
    c == 0x0A || c == 0x0D || c == 0x2028 || c == 0x2029
  }

  predicate IsWordChar(c: nat) {
    0x30 <= c <= 0x39 || 0x61 <= c <= 0x7A || 0x41 <= c <= 0x5A || c == 0x5F
  }

  /** REOP_line_start */
  predicate AtLineStart(t: Subject, p: nat)
    requires p <= |t.units|
  {
    p == 0 || (t.multiline && IsLineTerminator(CharBefore(t, p)))
  }

  /** REOP_line_end */
  predicate AtLineEnd(t: Subject, p: nat)
    requires p <= |t.units|
  {
    p == |t.units| || (t.multiline && IsLineTerminator(CharAt(t, p)))
  }

  /** The two neighbours of `p` differ in being word characters. */
  predicate AtWordBoundary(t: Subject, p: nat)
    requires p <= |t.units|
  {
    var before := p > 0 && IsWordChar(CharBefore(t, p));
    var after := p < |t.units| && IsWordChar(CharAt(t, p));
    before != after
  }
}
