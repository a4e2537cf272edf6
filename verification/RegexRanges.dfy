/** The two encodings of a character set and the binary search that reads them. */
module RegexRanges {
  import opened RegexSyntax
  import opened RegexSemantics
  import opened RegexVm
  import CharSets

  predicate InPair(pairs: seq<(nat, nat)>, i: nat, c: nat)
    requires i < |pairs|
  {
    pairs[i].0 <= c <= pairs[i].1
  }

  ghost predicate SortedPairs(pairs: seq<(nat, nat)>) {
    && (forall i :: 0 <= i < |pairs| ==> pairs[i].0 <= pairs[i].1)
    && (forall i, j :: 0 <= i < j < |pairs| ==> pairs[i].1 < pairs[j].0)
  }

  lemma AboveMisses(pairs: seq<(nat, nat)>, c: nat, mid: nat)
    requires SortedPairs(pairs) && mid < |pairs| && c < pairs[mid].0
    ensures forall i :: mid <= i < |pairs| ==> !InPair(pairs, i, c)
  {
  }

  lemma BelowMisses(pairs: seq<(nat, nat)>, c: nat, mid: nat)
    requires SortedPairs(pairs) && mid < |pairs| && c > pairs[mid].1
    ensures forall i :: 0 <= i <= mid ==> !InPair(pairs, i, c)
  {
  }

  lemma {:induction false} BinarySearchFinds(pairs: seq<(nat, nat)>, c: nat, low: nat, high: int)
    requires SortedPairs(pairs) && -1 <= high < |pairs|
    ensures BinarySearch(pairs, c, low, high) <==> exists i :: low <= i <= high && InPair(pairs, i, c)
    decreases high - low + 1
  {
    if low <= high {
      var mid := (low + high) / 2;
      if c < pairs[mid].0 {
        BinarySearchFinds(pairs, c, low, mid - 1);
        AboveMisses(pairs, c, mid);
      } else if c > pairs[mid].1 {
        BinarySearchFinds(pairs, c, mid + 1, high);
        BelowMisses(pairs, c, mid);
      } else {
        assert InPair(pairs, mid, c);
      }
    }
  }

  /** Each pair holds the interval it was made from. */
  lemma {:induction false} RangePairsAt(points: seq<nat>, narrow: bool, i: nat)
    requires CanonicalPoints(points) && 2 * i < |points|
    ensures |RangePairs(points, narrow)| == |points| / 2
    ensures RangePairs(points, narrow)[i] ==
            (points[2 * i], if narrow && points[2 * i + 1] == 0xFFFF_FFFF then 0xFFFF else points[2 * i + 1] - 1)
  {
    if i > 0 {
      RangePairsAt(points[2..], narrow, i - 1);
    } else if |points| > 2 {
      RangePairsAt(points[2..], narrow, 0);
    }
  }

  predicate InInterval(points: seq<nat>, i: nat, c: nat)
    requires 2 * i + 1 < |points|
  {
    points[2 * i] <= c < points[2 * i + 1]
  }

  lemma {:induction false} MemberIsInterval(points: seq<nat>, c: nat)
    requires |points| % 2 == 0
    ensures CharSets.Member(points, c) <==> exists i: nat :: 2 * i + 1 < |points| && InInterval(points, i, c)
  {
    if |points| >= 2 {
      var rest := points[2..];
      MemberIsInterval(rest, c);
      if i: nat :| 2 * i + 1 < |rest| && InInterval(rest, i, c) {
        assert InInterval(points, i + 1, c);
      }
      if points[0] <= c < points[1] {
        assert InInterval(points, 0, c);
      }
      if i: nat :| 2 * i + 1 < |points| && InInterval(points, i, c) {
        if i > 0 { assert InInterval(rest, i - 1, c); }
      }
    }
  }

  lemma PairsSorted(points: seq<nat>, narrow: bool)
    requires CanonicalPoints(points) && points != []
    requires narrow == UsesNarrowForm(points)
    ensures |RangePairs(points, narrow)| == |points| / 2
    ensures SortedPairs(RangePairs(points, narrow))
  {
    var pairs := RangePairs(points, narrow);
    RangePairsAt(points, narrow, 0);
    forall i | 0 <= i < |pairs| ensures pairs[i].0 <= pairs[i].1 {
      RangePairsAt(points, narrow, i);
      assert points[2 * i] < points[2 * i + 1];
      assert points[2 * i] <= points[|points| - 2];
    }
    forall i, j | 0 <= i < j < |pairs| ensures pairs[i].1 < pairs[j].0 {
      RangePairsAt(points, narrow, i);
      RangePairsAt(points, narrow, j);
      assert points[2 * i + 1] < points[2 * j];
    }
  }

  lemma RangeHitIsPair(pairs: seq<(nat, nat)>, narrow: bool, c: nat)
    requires SortedPairs(pairs) && pairs != []
    ensures RangeHit(pairs, narrow, c) <==>
            || (exists i :: 0 <= i < |pairs| && InPair(pairs, i, c))
            || (narrow && c >= 0xFFFF && pairs[|pairs| - 1].1 == 0xFFFF)
  {
    var n := |pairs|;
    BinarySearchFinds(pairs, c, 0, n - 1);
    assert n > 1 ==> pairs[0].1 < pairs[n - 1].0;
    if i :| 0 <= i < n && InPair(pairs, i, c) {
      assert 0 < i ==> pairs[0].1 < pairs[i].0;
      assert i < n - 1 ==> pairs[i].1 < pairs[n - 1].0;
    }
  }

  /** Membership in an interval is membership in its pair, the open last pair aside. */
  lemma PairHoldsInterval(points: seq<nat>, narrow: bool, i: nat, c: nat)
    requires CanonicalPoints(points) && 2 * i < |points|
    requires narrow == UsesNarrowForm(points) && c <= 0x10_FFFF
    ensures |RangePairs(points, narrow)| == |points| / 2
    ensures InInterval(points, i, c) <==>
            var pairs := RangePairs(points, narrow);
            || InPair(pairs, i, c)
            || (i == |pairs| - 1 && narrow && c >= 0xFFFF && pairs[i].1 == 0xFFFF)
  {
    RangePairsAt(points, narrow, i);
    assert points[2 * i] < points[2 * i + 1] <= points[|points| - 1];
    assert points[2 * i] <= points[|points| - 2];
    if 2 * i + 1 < |points| - 1 {
      assert points[2 * i + 1] < points[|points| - 1];
    }
  }

  /** Both encodings accept exactly the code points of the set. */
  lemma RangeOpAcceptsSet(points: seq<nat>, c: nat)
    requires CanonicalPoints(points) && c <= 0x10_FFFF
    ensures OpAccepts(RangeOp(points), c) <==> CharSets.Member(points, c)
  {
    MemberIsInterval(points, c);
    if points != [] {
      var narrow := UsesNarrowForm(points);
      var pairs := RangePairs(points, narrow);
      PairsSorted(points, narrow);
      RangeHitIsPair(pairs, narrow, c);
      forall i: nat | i < |pairs|
        ensures InInterval(points, i, c) <==>
                || InPair(pairs, i, c)
                || (i == |pairs| - 1 && narrow && c >= 0xFFFF && pairs[i].1 == 0xFFFF)
      {
        PairHoldsInterval(points, narrow, i, c);
      }
      assert RangeHit(pairs, narrow, c) ==> exists i: nat :: 2 * i + 1 < |points| && InInterval(points, i, c) by {
        if narrow && c >= 0xFFFF && pairs[|pairs| - 1].1 == 0xFFFF {
          assert InInterval(points, |pairs| - 1, c);
        }
      }
    }
  }

  /** Every character test compiles to an opcode that makes the same decision. */
  lemma TestOpFaithful(test: CharTest, c: nat)
    requires WellFormedTest(test) && c <= 0x10_FFFF
    ensures OpAccepts(TestOp(test), c) <==> Accepts(test, c)
  {
    if test.Class? { RangeOpAcceptsSet(test.points, c); }
  }

  lemma Halve(pairs: seq<(nat, nat)>, c: nat, low: nat, high: int, mid: int)
    requires low <= high < |pairs| && mid == (low + high) / 2
    ensures low <= mid <= high
    ensures BinarySearch(pairs, c, low, high) ==
            if c < pairs[mid].0 then BinarySearch(pairs, c, low, mid - 1)
            else if c > pairs[mid].1 then BinarySearch(pairs, c, mid + 1, high) else true
  {
  }

  lemma NothingLeft(pairs: seq<(nat, nat)>, c: nat, low: nat, high: int)
    requires -1 <= high < low <= |pairs|
    ensures !BinarySearch(pairs, c, low, high)
  {
  }
}
