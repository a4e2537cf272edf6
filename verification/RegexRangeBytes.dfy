/** Character ranges in the byte code: re_emit_range writes them, the machine searches them there. */
module RegexRangeBytes {
  import opened RegexSyntax
  import opened RegexVm
  import opened RegexRanges
  import CharSets

  type Byte = b: int | 0 <= b < 256

  // ---- Little-endian numbers

  function Put(v: nat, size: nat): (bytes: seq<Byte>)
    ensures |bytes| == size
  {
    if size == 0 then [] else [v % 256] + Put(v / 256, size - 1)
  }

  function Fetch(bytes: seq<Byte>, at: nat, size: nat): (v: nat)
    requires at + size <= |bytes|
    decreases size
  {
    if size == 0 then 0
    else
      var low: int := bytes[at];
      low + 256 * Fetch(bytes, at + 1, size - 1)
  }

  function Limit(size: nat): (n: nat)
    ensures n > 0
  {
    if size == 0 then 1 else 256 * Limit(size - 1)
  }

  lemma FetchLocal(s: seq<Byte>, at: nat, t: seq<Byte>, from: nat, size: nat)
    requires at + size <= |s| && from + size <= |t| && s[at..at + size] == t[from..from + size]
    ensures Fetch(s, at, size) == Fetch(t, from, size)
    decreases size
  {
    if size > 0 {
      assert s[at] == s[at..at + size][0] == t[from];
      assert s[at + 1..at + size] == s[at..at + size][1..] == t[from + 1..from + size];
      FetchLocal(s, at + 1, t, from + 1, size - 1);
    }
  }

  lemma {:induction false} FetchPut(v: nat, size: nat)
    requires v < Limit(size)
    ensures Fetch(Put(v, size), 0, size) == v
  {
    if size > 0 {
      FetchPut(v / 256, size - 1);
      var rest := Put(v / 256, size - 1);
      FetchLocal(Put(v, size), 1, rest, 0, size - 1);
    }
  }

  lemma Limits()
    ensures Limit(2) == 0x1_0000 && Limit(4) == 0x1_0000_0000
  {
    assert Limit(1) == 256;
    assert Limit(3) == 256 * Limit(2);
  }

  // ---- A list of intervals in bytes

  function Width(narrow: bool): (size: nat) {
    if narrow then 2 else 4
  }

  /** Where interval i begins, after the count. */
  function Offset(narrow: bool, i: nat): (at: nat) {
    if narrow then 2 + 4 * i else 2 + 8 * i
  }

  function Low(bytes: seq<Byte>, narrow: bool, i: nat): (v: nat)
    requires Offset(narrow, i + 1) <= |bytes|
  {
    Fetch(bytes, Offset(narrow, i), Width(narrow))
  }

  function High(bytes: seq<Byte>, narrow: bool, i: nat): (v: nat)
    requires Offset(narrow, i + 1) <= |bytes|
  {
    Fetch(bytes, Offset(narrow, i) + Width(narrow), Width(narrow))
  }

  ghost predicate HoldsPair(bytes: seq<Byte>, narrow: bool, i: nat, pair: (nat, nat)) {
    Offset(narrow, i + 1) <= |bytes| && Low(bytes, narrow, i) == pair.0 && High(bytes, narrow, i) == pair.1
  }

  /** The count of all intervals and then the two ends of the first n of them. */
  ghost predicate Written(bytes: seq<Byte>, narrow: bool, pairs: seq<(nat, nat)>, n: nat) {
    && n <= |pairs| && |bytes| == Offset(narrow, n) && Fetch(bytes, 0, 2) == |pairs|
    && forall i: nat :: i < n ==> HoldsPair(bytes, narrow, i, pairs[i])
  }

  lemma WriteCount(narrow: bool, pairs: seq<(nat, nat)>)
    requires |pairs| < 65535
    ensures Written(Put(|pairs|, 2), narrow, pairs, 0)
  {
    Limits();
    FetchPut(|pairs|, 2);
  }

  lemma StillHolds(bytes: seq<Byte>, more: seq<Byte>, narrow: bool, i: nat, pair: (nat, nat))
    requires HoldsPair(bytes, narrow, i, pair)
    ensures HoldsPair(bytes + more, narrow, i, pair)
  {
    var at, w := Offset(narrow, i), Width(narrow);
    FetchLocal(bytes, at, bytes + more, at, w);
    FetchLocal(bytes, at + w, bytes + more, at + w, w);
  }

  lemma FetchMiddle(before: seq<Byte>, v: nat, size: nat, after: seq<Byte>)
    requires v < Limit(size)
    ensures Fetch(before + Put(v, size) + after, |before|, size) == v
  {
    var all := before + Put(v, size) + after;
    FetchPut(v, size);
    assert all[|before|..|before| + size] == Put(v, size)[0..size];
    FetchLocal(all, |before|, Put(v, size), 0, size);
  }

  lemma WritePair(bytes: seq<Byte>, narrow: bool, pairs: seq<(nat, nat)>, n: nat, more: seq<Byte>)
    requires Written(bytes, narrow, pairs, n) && n < |pairs|
    requires pairs[n].0 < Limit(Width(narrow)) && pairs[n].1 < Limit(Width(narrow))
    requires more == bytes + Put(pairs[n].0, Width(narrow)) + Put(pairs[n].1, Width(narrow))
    ensures Written(more, narrow, pairs, n + 1)
  {
    hide Fetch, Put, Limit;
    var w := Width(narrow);
    var low, high := Put(pairs[n].0, w), Put(pairs[n].1, w);
    assert more == bytes + (low + high);
    FetchLocal(bytes, 0, more, 0, 2);
    forall i: nat | i < n ensures HoldsPair(more, narrow, i, pairs[i]) {
      StillHolds(bytes, low + high, narrow, i, pairs[i]);
    }
    FetchMiddle(bytes, pairs[n].0, w, high);
    FetchMiddle(bytes + low, pairs[n].1, w, []);
    assert more == bytes + low + high + [];
  }

  /** Both ends of every interval fit where they are written: nothing is truncated. */
  lemma PairsFit(points: seq<nat>, narrow: bool, i: nat)
    requires CanonicalPoints(points) && points != [] && narrow == UsesNarrowForm(points) && 2 * i < |points|
    ensures |RangePairs(points, narrow)| == |points| / 2
    ensures var (low, high) := RangePairs(points, narrow)[i]; low < Limit(Width(narrow)) && high < Limit(Width(narrow))
  {
    RangePairsAt(points, narrow, i);
    Limits();
    var last := |points| - 1;
    assert points[2 * i] < points[2 * i + 1] <= points[last];
    assert 2 * i + 1 < last ==> points[2 * i + 1] < points[last - 1] || 2 * i + 1 == last - 1;
  }

  datatype Emitted = TooMany | Nothing | Ranges(narrow: bool, bytes: seq<Byte>)

  /** re_emit_range. */
  method EmitRange(points: seq<nat>) returns (code: Emitted)
    requires CanonicalPoints(points)
    ensures code.TooMany? <==> |points| / 2 >= 65535
    ensures code.Nothing? <==> points == []
    ensures code.Ranges? ==> points != [] && code.narrow == UsesNarrowForm(points)
                             && Written(code.bytes, code.narrow, RangePairs(points, code.narrow), |points| / 2)
  {
    hide Written, RangePairs, Limit, Put;
    var len := |points| / 2;
    if len >= 65535 { return TooMany; }
    if len == 0 { return Nothing; }
    var high := points[|points| - 1];
    if high == 0xFFFF_FFFF { high := points[|points| - 2]; }
    var narrow := high <= 0xFFFF;
    ghost var pairs := RangePairs(points, narrow);
    PairsFit(points, narrow, 0);
    var bytes := Put(len, 2);
    WriteCount(narrow, pairs);
    for i := 0 to len
      invariant Written(bytes, narrow, pairs, i)
    {
      PairsFit(points, narrow, i);
      RangePairsAt(points, narrow, i);
      var top := points[2 * i + 1] - 1;
      if narrow && top == 0xFFFF_FFFE { top := 0xFFFF; }
      WritePair(bytes, narrow, pairs, i, bytes + Put(points[2 * i], Width(narrow)) + Put(top, Width(narrow)));
      bytes := bytes + Put(points[2 * i], Width(narrow)) + Put(top, Width(narrow));
    }
    return Ranges(narrow, bytes);
  }

  lemma PairAt(bytes: seq<Byte>, narrow: bool, pairs: seq<(nat, nat)>, i: nat)
    requires Written(bytes, narrow, pairs, |pairs|) && i < |pairs|
    ensures HoldsPair(bytes, narrow, i, pairs[i])
  {
  }

  /**
   * REOP_range and REOP_range32: the search over the bytes, with unsigned indices. An index below
   * another is only formed for a positive one, and no byte outside the list is read.
   */
  method RangeContains(bytes: seq<Byte>, narrow: bool, c: nat, ghost pairs: seq<(nat, nat)>) returns (hit: bool)
    requires Written(bytes, narrow, pairs, |pairs|) && pairs != [] && SortedPairs(pairs)
    ensures hit <==> RangeHit(pairs, narrow, c)
    ensures hit <==> || (exists i :: 0 <= i < |pairs| && InPair(pairs, i, c))
                     || (narrow && c >= 0xFFFF && pairs[|pairs| - 1].1 == 0xFFFF)
  {
    RangeHitIsPair(pairs, narrow, c);
    hide BinarySearch, Written, Fetch, InPair, SortedPairs;
    CountIs(bytes, narrow, pairs);
    var n := Fetch(bytes, 0, 2);
    PairAt(bytes, narrow, pairs, 0);
    PairAt(bytes, narrow, pairs, n - 1);
    if c < Low(bytes, narrow, 0) { return false; }
    var high := High(bytes, narrow, n - 1);
    if narrow && c >= 0xFFFF && high == 0xFFFF { return true; }
    if c > high { return false; }
    hit := SearchBytes(bytes, narrow, c, n, pairs);
  }

  lemma CountIs(bytes: seq<Byte>, narrow: bool, pairs: seq<(nat, nat)>)
    requires Written(bytes, narrow, pairs, |pairs|)
    ensures |bytes| >= 2 && Fetch(bytes, 0, 2) == |pairs|
  {
  }

  method SearchBytes(bytes: seq<Byte>, narrow: bool, c: nat, n: nat, ghost pairs: seq<(nat, nat)>) returns (hit: bool)
    requires Written(bytes, narrow, pairs, |pairs|) && n == |pairs| > 0 && pairs[0].0 <= c
    ensures hit <==> BinarySearch(pairs, c, 0, n - 1)
  {
    hide BinarySearch, Written, Fetch, Low, High, Offset;
    var idxMin, idxMax := 0, n - 1;
    while idxMin <= idxMax
      invariant 0 <= idxMin <= idxMax + 1 <= n
      invariant BinarySearch(pairs, c, 0, n - 1) == BinarySearch(pairs, c, idxMin, idxMax)
      decreases idxMax - idxMin + 1
    {
      var idx := (idxMin + idxMax) / 2;
      Halve(pairs, c, idxMin, idxMax, idx);
      PairAt(bytes, narrow, pairs, idx);
      if c < Low(bytes, narrow, idx) {
        assert idx > 0;
        idxMax := idx - 1;
      } else if c > High(bytes, narrow, idx) {
        idxMin := idx + 1;
      } else {
        return true;
      }
    }
    NothingLeft(pairs, c, idxMin, idxMax);
    return false;
  }

  /** From a canonical set to its bytes and back to a decision: exactly its code points are accepted. */
  method EmitThenSearch(points: seq<nat>, c: nat) returns (ok: bool, hit: bool)
    requires CanonicalPoints(points) && c <= 0x10_FFFF
    ensures ok <==> |points| / 2 < 65535
    ensures ok ==> (hit <==> CharSets.Member(points, c))
  {
    hide CharSets.Member, Written, RangePairs, OpAccepts;
    var code := EmitRange(points);
    ok, hit := !code.TooMany?, false;
    RangeOpAcceptsSet(points, c);
    OpIs(points, c);
    if code.Ranges? {
      ghost var pairs := RangePairs(points, code.narrow);
      PairsSorted(points, code.narrow);
      hit := RangeContains(code.bytes, code.narrow, c, pairs);
    }
  }

  lemma OpIs(points: seq<nat>, c: nat)
    requires CanonicalPoints(points) && c <= 0x10_FFFF
    ensures points == [] ==> !OpAccepts(RangeOp(points), c)
    ensures points != [] ==>
              var narrow := UsesNarrowForm(points);
              OpAccepts(RangeOp(points), c) == RangeHit(RangePairs(points, narrow), narrow, c)
  {
  }
}
