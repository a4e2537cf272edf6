/** Run-length tables of code points, scanned from the start or entered through an index. */
module UnicodeTables {
  import opened CharSets
  import opened CharRanges

  type Byte = b: int | 0 <= b < 256

  // ---- The table

  /** The bytes of one entry. */
  function Size(b: Byte): (n: nat) {
    if b < 0x40 || b >= 0x80 then 1 else if b < 0x60 then 2 else 3
  }

  /** Entries end exactly at the end of the table. */
  predicate WellFormed(table: seq<Byte>, pos: nat)
    decreases |table| - pos
  {
    pos == |table| || (pos < |table| && pos + Size(table[pos]) <= |table| && WellFormed(table, pos + Size(table[pos])))
  }

  /** A short entry holds two runs, the other ones hold one. */
  predicate Double(b: Byte) {
    b < 0x40
  }

  function FirstRun(table: seq<Byte>, pos: nat): (n: nat)
    requires pos < |table| && pos + Size(table[pos]) <= |table|
    ensures n > 0
  {
    var b: int := table[pos];
    if b < 0x40 then b / 8 + 1
    else if b >= 0x80 then b - 0x80 + 1
    else
      var low: int := table[pos + 1];
      if b < 0x60 then (b - 0x40) * 256 + low + 1
      else
        var lower: int := table[pos + 2];
        (b - 0x60) * 65536 + low * 256 + lower + 1
  }

  function SecondRun(b: Byte): (n: nat) {
    if Double(b) then b % 8 + 1 else 0
  }

  function Advance(table: seq<Byte>, pos: nat): (n: nat)
    requires pos < |table| && pos + Size(table[pos]) <= |table|
    ensures n > 0
  {
    FirstRun(table, pos) + SecondRun(table[pos])
  }

  /** Runs alternate, so an entry of two leaves the bit as it was. */
  predicate NextBit(b: Byte, bit: bool) {
    if Double(b) then bit else !bit
  }

  /** The code points that a scan from here marks: those in the runs read while the bit is set. */
  predicate Marks(table: seq<Byte>, pos: nat, code: nat, bit: bool, c: nat)
    requires WellFormed(table, pos)
    decreases |table| - pos
  {
    pos < |table| &&
    (var mid := code + FirstRun(table, pos);
     var end := code + Advance(table, pos);
     || (bit && code <= c < mid)
     || (!bit && mid <= c < end)
     || Marks(table, pos + Size(table[pos]), end, NextBit(table[pos], bit), c))
  }

  function TableEnd(table: seq<Byte>, pos: nat, code: nat): (end: nat)
    requires WellFormed(table, pos)
    ensures end >= code
    decreases |table| - pos
  {
    if pos == |table| then code else TableEnd(table, pos + Size(table[pos]), code + Advance(table, pos))
  }

  /** A scan that is at pos with this code and bit comes to pos1 with that code and bit. */
  predicate Reaches(table: seq<Byte>, pos: nat, code: nat, bit: bool, pos1: nat, code1: nat, bit1: bool)
    requires WellFormed(table, pos)
    decreases |table| - pos
  {
    || (pos == pos1 && code == code1 && bit == bit1)
    || (pos < |table| &&
        Reaches(table, pos + Size(table[pos]), code + Advance(table, pos), NextBit(table[pos], bit), pos1, code1, bit1))
  }

  lemma {:induction false} NotBefore(table: seq<Byte>, pos: nat, code: nat, bit: bool, c: nat)
    requires WellFormed(table, pos) && c < code
    ensures !Marks(table, pos, code, bit, c)
    decreases |table| - pos
  {
    if pos < |table| {
      NotBefore(table, pos + Size(table[pos]), code + Advance(table, pos), NextBit(table[pos], bit), c);
    }
  }

  lemma {:induction false} NotAfter(table: seq<Byte>, pos: nat, code: nat, bit: bool, c: nat)
    requires WellFormed(table, pos) && c >= TableEnd(table, pos, code)
    ensures !Marks(table, pos, code, bit, c)
    decreases |table| - pos
  {
    if pos < |table| {
      NotAfter(table, pos + Size(table[pos]), code + Advance(table, pos), NextBit(table[pos], bit), c);
    }
  }

  /** From a point the scan passes, it marks what it would mark from the start. */
  lemma {:induction false} ScanFromHere(table: seq<Byte>, pos: nat, code: nat, bit: bool,
                                        pos1: nat, code1: nat, bit1: bool, c: nat)
    requires WellFormed(table, pos) && Reaches(table, pos, code, bit, pos1, code1, bit1) && c >= code1
    ensures WellFormed(table, pos1) && code <= code1
    ensures Marks(table, pos, code, bit, c) == Marks(table, pos1, code1, bit1, c)
    ensures TableEnd(table, pos, code) == TableEnd(table, pos1, code1)
    decreases |table| - pos
  {
    if !(pos == pos1 && code == code1 && bit == bit1) {
      ScanFromHere(table, pos + Size(table[pos]), code + Advance(table, pos), NextBit(table[pos], bit), pos1, code1,
                   bit1, c);
    }
  }

  // ---- The plain scan

  method AddInterval(cr: CharRange, c1: nat, c2: nat)
    requires cr.Valid() && cr.len % 2 == 0
    modifies cr, cr.points
    ensures cr.Valid() && cr.len % 2 == 0 && (cr.points == old(cr.points) || fresh(cr.points))
    ensures forall c: nat :: Member(cr.Contents(), c) <==> Member(old(cr.Contents()), c) || c1 <= c < c2
  {
    cr.AddPoint(c1);
    cr.AddPoint(c2);
    assert cr.Contents() == old(cr.Contents()) + [c1, c2];
    forall c: nat ensures Member(cr.Contents(), c) <==> Member(old(cr.Contents()), c) || c1 <= c < c2 {
      MemberAppend(old(cr.Contents()), c1, c2, c);
    }
  }

  lemma {:induction false} MemberAppend(s: seq<nat>, c1: nat, c2: nat, c: nat)
    requires |s| % 2 == 0
    ensures Member(s + [c1, c2], c) <==> Member(s, c) || c1 <= c < c2
  {
    if s != [] {
      MemberAppend(s[2..], c1, c2, c);
      assert (s + [c1, c2])[2..] == s[2..] + [c1, c2];
    }
  }

  /** One entry: the runs read while the bit is set are added. */
  method AddRuns(table: seq<Byte>, cr: CharRange, p0: nat, code0: nat, bit0: bool) returns (p: nat, c: nat, bit: bool)
    requires p0 < |table| && WellFormed(table, p0) && cr.Valid() && cr.len % 2 == 0
    modifies cr, cr.points
    ensures cr.Valid() && cr.len % 2 == 0 && (cr.points == old(cr.points) || fresh(cr.points))
    ensures p == p0 + Size(table[p0]) && c == code0 + Advance(table, p0) && bit == NextBit(table[p0], bit0)
    ensures var mid := code0 + FirstRun(table, p0);
            forall x: nat :: Member(cr.Contents(), x) <==>
              Member(old(cr.Contents()), x) || (bit0 && code0 <= x < mid) || (!bit0 && mid <= x < c)
  {
    hide Member;
    bit := bit0;
    var c0 := code0;
    var b := table[p0];
    c := code0 + FirstRun(table, p0);
    if b < 64 {
      if bit { AddInterval(cr, c0, c); }
      bit := !bit;
      c0 := c;
      c := c + SecondRun(b);
    }
    p := p0 + Size(b);
    if bit { AddInterval(cr, c0, c); }
    bit := !bit;
  }

  /** unicode_prop1: the ranges that a table marks. */
  method TableRanges(table: seq<Byte>, cr: CharRange)
    requires WellFormed(table, 0) && cr.Valid() && cr.Contents() == []
    modifies cr, cr.points
    ensures cr.Valid() && cr.len % 2 == 0
    ensures forall c: nat :: Member(cr.Contents(), c) <==> Marks(table, 0, 0, false, c)
  {
    var p: nat, c: nat, bit := 0, 0, false;
    while p < |table|
      invariant p <= |table| && WellFormed(table, p) && cr.Valid() && cr.len % 2 == 0
      invariant cr.points == old(cr.points) || fresh(cr.points)
      invariant forall x: nat ::
                  Marks(table, 0, 0, false, x) <==> Member(cr.Contents(), x) || Marks(table, p, c, bit, x)
      decreases |table| - p
    {
      ghost var p0, c0, bit0, was := p, c, bit, cr.Contents();
      p, c, bit := AddRuns(table, cr, p, c, bit);
      forall x: nat ensures Marks(table, 0, 0, false, x) <==> Member(cr.Contents(), x) || Marks(table, p, c, bit, x) {
        assert Marks(table, 0, 0, false, x) <==> Member(was, x) || Marks(table, p0, c0, bit0, x);
      }
    }
  }

  // ---- The index

  const BLOCK_LEN := 32
  const CODE_MASK := 0x20_0000

  function Entry(index: seq<Byte>, k: nat): (v: nat)
    requires 3 * k + 2 < |index|
  {
    var b0: int, b1: int, b2: int := index[3 * k], index[3 * k + 1], index[3 * k + 2];
    b0 + b1 * 256 + b2 * 65536
  }

  function EntryCode(index: seq<Byte>, k: nat): (code: nat)
    requires 3 * k + 2 < |index|
  {
    Entry(index, k) % CODE_MASK
  }

  function EntryPos(index: seq<Byte>, k: nat): (pos: nat)
    requires 3 * k + 2 < |index|
  {
    (k + 1) * BLOCK_LEN + Entry(index, k) / CODE_MASK
  }

  /** Each entry but the last records where a scan is when it has a zero bit; the last records where it ends. */
  predicate Consistent(table: seq<Byte>, index: seq<Byte>, n: nat) {
    && n > 0 && |index| == 3 * n && WellFormed(table, 0)
    && Entry(index, n - 1) == TableEnd(table, 0, 0) < CODE_MASK
    && forall k :: 0 <= k < n - 1 ==> Reaches(table, 0, 0, false, EntryPos(index, k), EntryCode(index, k), false)
  }

  lemma FirstIsInside(index: seq<Byte>, n: nat, table: seq<Byte>)
    requires Consistent(table, index, n)
    ensures EntryCode(index, 0) <= TableEnd(table, 0, 0) && Reaches(table, 0, 0, false, 0, 0, false)
  {
    if n > 1 {
      ScanFromHere(table, 0, 0, false, EntryPos(index, 0), EntryCode(index, 0), false, EntryCode(index, 0));
    }
  }

  /** get_index_pos: the block to scan, or none when c is past the table. */
  method IndexPos(c: nat, index: seq<Byte>, n: nat, ghost table: seq<Byte>) returns (found: bool, pos: nat, code: nat)
    requires Consistent(table, index, n)
    ensures !found ==> c >= TableEnd(table, 0, 0)
    ensures found ==> code <= c < TableEnd(table, 0, 0) && Reaches(table, 0, 0, false, pos, code, false)
  {
    hide Reaches, TableEnd, Entry;
    var lo := 0;
    FirstIsInside(index, n, table);
    if c < EntryCode(index, 0) {
      return true, 0, 0;
    }
    var hi := n - 1;
    if c >= Entry(index, hi) {
      return false, 0, 0;
    }
    while hi - lo > 1
      invariant 0 <= lo < hi < n && EntryCode(index, lo) <= c && c < TableEnd(table, 0, 0)
    {
      var mid := (hi + lo) / 2;
      if c < EntryCode(index, mid) { hi := mid; } else { lo := mid; }
    }
    return true, EntryPos(index, lo), EntryCode(index, lo);
  }

  /** lre_is_in_table: the indexed lookup answers as the plain scan does, for every code point. */
  method IsInTable(c: nat, table: seq<Byte>, index: seq<Byte>, n: nat) returns (found: bool)
    requires Consistent(table, index, n)
    ensures found <==> Marks(table, 0, 0, false, c)
  {
    var inside: bool, p: nat, code: nat := IndexPos(c, index, n, table);
    if !inside {
      NotAfter(table, 0, 0, false, c);
      return false;
    }
    ScanFromHere(table, 0, 0, false, p, code, false, c);
    var bit := false;
    found := false;
    while true
      invariant p <= |table| && WellFormed(table, p) && code <= c < TableEnd(table, p, code)
      invariant Marks(table, 0, 0, false, c) == Marks(table, p, code, bit, c)
      decreases |table| - p
    {
      NotInLater(table, p, code, bit, c);
      hide FirstRun, Size;
      var b := table[p];
      code := code + FirstRun(table, p);
      if b < 64 {
        if c < code { return bit; }
        bit := !bit;
        code := code + SecondRun(b);
      }
      p := p + Size(b);
      if c < code { return bit; }
      bit := !bit;
    }
  }

  lemma NotInLater(table: seq<Byte>, pos: nat, code: nat, bit: bool, c: nat)
    requires pos < |table| && WellFormed(table, pos)
    ensures c < code + Advance(table, pos) ==>
            !Marks(table, pos + Size(table[pos]), code + Advance(table, pos), NextBit(table[pos], bit), c)
  {
    if c < code + Advance(table, pos) {
      NotBefore(table, pos + Size(table[pos]), code + Advance(table, pos), NextBit(table[pos], bit), c);
    }
  }

  /** The indexed lookup and the list of ranges agree on every code point. */
  method LookupsAgree(c: nat, table: seq<Byte>, index: seq<Byte>, n: nat, cr: CharRange) returns (found: bool)
    requires Consistent(table, index, n) && cr.Valid() && cr.Contents() == []
    modifies cr, cr.points
    ensures cr.Valid() && (found <==> Member(cr.Contents(), c))
  {
    TableRanges(table, cr);
    found := IsInTable(c, table, index, n);
  }
}
