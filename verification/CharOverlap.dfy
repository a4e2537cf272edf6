/** Sorting intervals and joining those that overlap (cr_sort_and_remove_overlap). */
module CharOverlap {
  import opened CharSets
  import opened CharRanges
  import SortSpec
  import Rqsort

  type Interval = (nat, nat)

  function Compare(p: Interval, q: Interval): (r: int) {
    if p.0 > q.0 then 1 else if p.0 < q.0 then -1 else 0
  }

  lemma CompareIsPreorder()
    ensures SortSpec.TotalPreorder(Compare)
  {
  }

  /** The endpoints of a list of intervals. */
  ghost predicate Lists(points: seq<nat>, pairs: seq<Interval>) {
    && |points| == 2 * |pairs|
    && forall k :: 0 <= k < |pairs| ==> points[2 * k] == pairs[k].0 && points[2 * k + 1] == pairs[k].1
  }

  ghost predicate Covers(pairs: seq<Interval>, c: nat) {
    exists p :: p in pairs && p.0 <= c < p.1
  }

  lemma {:induction false} MemberConcat(s: seq<nat>, t: seq<nat>, c: nat)
    requires |s| % 2 == 0
    ensures Member(s + t, c) <==> Member(s, c) || Member(t, c)
  {
    if s == [] {
      assert s + t == t;
    } else {
      MemberConcat(s[2..], t, c);
      assert (s + t)[2..] == s[2..] + t;
    }
  }

  lemma {:induction false} MemberIsCovered(points: seq<nat>, pairs: seq<Interval>, c: nat)
    requires Lists(points, pairs)
    ensures Member(points, c) <==> Covers(pairs, c)
  {
    if pairs != [] {
      var rest := pairs[1..];
      forall k | 0 <= k < |rest| ensures points[2..][2 * k] == rest[k].0 && points[2..][2 * k + 1] == rest[k].1 {
        assert rest[k] == pairs[k + 1];
        assert points[2 * (k + 1)] == pairs[k + 1].0;
      }
      MemberIsCovered(points[2..], rest, c);
      assert points[2 * 0] == pairs[0].0;
      assert forall p :: p in pairs <==> p == pairs[0] || p in rest;
    }
  }

  /** Reordering intervals changes no membership. */
  lemma ReorderedMember(s: seq<nat>, p: seq<Interval>, t: seq<nat>, q: seq<Interval>, c: nat)
    requires Lists(s, p) && Lists(t, q) && multiset(p) == multiset(q)
    ensures Member(s, c) <==> Member(t, c)
  {
    MemberIsCovered(s, p, c);
    MemberIsCovered(t, q, c);
    assert forall x :: x in p <==> x in multiset(p);
    assert forall x :: x in q <==> x in multiset(q);
  }

  /** The array of endpoints, taken as an array of intervals. */
  method Pairs(cr: CharRange) returns (pairs: array<Interval>)
    requires cr.Valid() && cr.len % 2 == 0
    ensures fresh(pairs) && Lists(cr.Contents(), pairs[..])
  {
    pairs := new Interval[cr.len / 2](_ => (0, 0));
    for k := 0 to pairs.Length
      invariant forall m :: 0 <= m < k ==> pairs[m] == (cr.points[2 * m], cr.points[2 * m + 1])
    {
      pairs[k] := (cr.points[2 * k], cr.points[2 * k + 1]);
    }
  }

  method StorePairs(cr: CharRange, pairs: array<Interval>)
    requires cr.Valid() && cr.len == 2 * pairs.Length
    modifies cr.points
    ensures Lists(cr.Contents(), pairs[..])
  {
    for k := 0 to pairs.Length
      invariant forall m :: 0 <= m < k ==> cr.points[2 * m] == pairs[m].0 && cr.points[2 * m + 1] == pairs[m].1
    {
      cr.points[2 * k] := pairs[k].0;
      cr.points[2 * k + 1] := pairs[k].1;
    }
  }

  // ---- Joining overlapping intervals

  /** Intervals are proper and sorted by their first endpoint. */
  ghost predicate ByStart(points: seq<nat>) {
    && |points| % 2 == 0
    && (forall i :: 0 <= i < |points| - 1 && i % 2 == 0 ==> points[i] <= points[i + 1])
    && (forall i, j :: 0 <= i <= j < |points| && i % 2 == 0 && j % 2 == 0 ==> points[i] <= points[j])
  }

  ghost predicate Proper(points: seq<nat>) {
    forall i :: 0 <= i < |points| - 1 && i % 2 == 0 ==> points[i] < points[i + 1]
  }

  ghost predicate SameMembers(s: seq<nat>, t: seq<nat>) {
    forall c: nat :: Member(s, c) <==> Member(t, c)
  }

  lemma FirstInterval(was: seq<nat>, i: nat, c: nat)
    requires i + 1 < |was|
    ensures Member(was[i..], c) <==> was[i] <= c < was[i + 1] || Member(was[i + 2..], c)
  {
    assert was[i..][2..] == was[i + 2..];
  }

  /** The intervals from i0 to i are joined into [was[i0], end). */
  ghost predicate Grown(was: seq<nat>, i0: nat, i: nat, end: nat) {
    && i0 + 2 <= i <= |was| && i % 2 == i0 % 2 == 0 && was[i0] <= end
    && (was[i0] < was[i0 + 1] ==> was[i0] < end)
    && forall c: nat :: Member(was[i0..], c) <==> was[i0] <= c < end || Member(was[i..], c)
  }

  lemma GrowFirst(was: seq<nat>, i: nat)
    requires ByStart(was) && i % 2 == 0 && i + 1 < |was|
    ensures Grown(was, i, i + 2, was[i + 1])
  {
    forall c: nat ensures Member(was[i..], c) <==> was[i] <= c < was[i + 1] || Member(was[i + 2..], c) {
      FirstInterval(was, i, c);
    }
  }

  lemma GrowNext(was: seq<nat>, i0: nat, i: nat, end: nat)
    requires ByStart(was) && Grown(was, i0, i, end) && i + 1 < |was| && was[i] <= end
    ensures Grown(was, i0, i + 2, if was[i + 1] <= end then end else was[i + 1])
  {
    var wider := if was[i + 1] <= end then end else was[i + 1];
    forall c: nat ensures Member(was[i0..], c) <==> was[i0] <= c < wider || Member(was[i + 2..], c) {
      assert Member(was[i0..], c) <==> was[i0] <= c < end || Member(was[i..], c);
      FirstInterval(was, i, c);
    }
  }

  lemma Even(was: seq<nat>)
    requires ByStart(was)
    ensures |was| % 2 == 0
  {
  }

  /** The run of intervals that reach each other, beginning at i0. */
  method Join(pt: array<nat>, n: nat, i0: nat, ghost was: seq<nat>) returns (i: nat, end: nat)
    requires n <= pt.Length && |was| == n && i0 % 2 == 0 && i0 + 1 < n && pt[i0..n] == was[i0..] && ByStart(was)
    ensures Grown(was, i0, i, end) && (i < n ==> end < was[i])
    ensures i0 + 2 <= i <= n && i % 2 == 0 && pt[i..n] == was[i..]
  {
    hide Grown, ByStart, Member;
    assert n % 2 == 0 by { Even(was); }
    assert forall m :: i0 <= m < n ==> pt[m] == pt[i0..n][m - i0] == was[m];
    i, end := i0 + 2, pt[i0 + 1];
    GrowFirst(was, i0);
    while i < n
      invariant i0 + 2 <= i <= n && i % 2 == 0 && Grown(was, i0, i, end)
    {
      var start1, end1 := pt[i], pt[i + 1];
      if start1 > end { break; }
      GrowNext(was, i0, i, end);
      if end1 > end { end := end1; }
      i := i + 2;
    }
    assert forall m :: 0 <= m < n - i ==> pt[i..n][m] == pt[i + m] == was[i + m];
  }

  /** out is the disjoint list of the intervals before i. */
  ghost predicate Joined(was: seq<nat>, i: nat, out: seq<nat>) {
    && i <= |was| && |out| % 2 == 0 && Ordered(out) && (Proper(was) ==> Increasing(out))
    && (out != [] && i < |was| ==> out[|out| - 1] < was[i])
    && forall c: nat :: Member(was, c) <==> Member(out, c) || Member(was[i..], c)
  }

  lemma JoinStart(was: seq<nat>)
    ensures Joined(was, 0, [])
  {
    assert was[0..] == was;
  }

  lemma JoinNext(was: seq<nat>, i0: nat, i: nat, end: nat, out: seq<nat>)
    requires ByStart(was) && Joined(was, i0, out) && Grown(was, i0, i, end) && (i < |was| ==> end < was[i])
    ensures Joined(was, i, out + [was[i0], end])
  {
    var more := out + [was[i0], end];
    forall c: nat ensures Member(was, c) <==> Member(more, c) || Member(was[i..], c) {
      assert Member(was, c) <==> Member(out, c) || Member(was[i0..], c);
      assert Member(was[i0..], c) <==> was[i0] <= c < end || Member(was[i..], c);
      MemberConcat(out, [was[i0], end], c);
    }
    hide Member;
  }

  lemma JoinEnd(was: seq<nat>, out: seq<nat>)
    requires Joined(was, |was|, out)
    ensures |out| % 2 == 0 && Ordered(out) && (Proper(was) ==> Canonical(out)) && SameMembers(out, was)
  {
    assert was[|was|..] == [];
  }

  method StorePair(pt: array<nat>, j: nat, start: nat, end: nat, i: nat, n: nat)
    requires j + 2 <= i <= n <= pt.Length
    modifies pt
    ensures pt[..j + 2] == old(pt[..j]) + [start, end] && pt[i..n] == old(pt[i..n])
  {
    pt[j] := start;
    pt[j + 1] := end;
  }

  method RemoveOverlap(cr: CharRange)
    requires cr.Valid() && ByStart(cr.Contents())
    modifies cr`len, cr.points
    ensures cr.Valid() && cr.points == old(cr.points) && SameMembers(cr.Contents(), old(cr.Contents()))
    ensures Ordered(cr.Contents()) && cr.len % 2 == 0
    ensures Proper(old(cr.Contents())) ==> Canonical(cr.Contents())
  {
    hide Joined, Grown, SameMembers, ByStart, Member, Proper, Ordered, Canonical;
    ghost var was := cr.Contents();
    var i, j, n, pt := 0, 0, cr.len, cr.points;
    ghost var out: seq<nat> := [];
    JoinStart(was);
    Even(was);
    while i < n
      modifies pt
      invariant 0 <= j <= i <= n && i % 2 == 0 && |out| == j && pt[..j] == out && pt[i..n] == was[i..]
      invariant Joined(was, i, out)
    {
      assert pt[i..n][0] == was[i];
      var start := pt[i];
      var i1, end := Join(pt, n, i, was);
      JoinNext(was, i, i1, end, out);
      StorePair(pt, j, start, end, i1, n);
      out := out + [start, end];
      i, j := i1, j + 2;
    }
    cr.len := j;
    JoinEnd(was, out);
    assert cr.Contents() == out;
  }

  // ---- Sort, then join

  lemma SortedByStart(points: seq<nat>, pairs: seq<Interval>)
    requires Lists(points, pairs) && SortSpec.Sorted(Compare, pairs, 0, |pairs|)
    requires forall p :: p in pairs ==> p.0 <= p.1
    ensures ByStart(points)
    ensures (forall p :: p in pairs ==> p.0 < p.1) ==> Proper(points)
  {
    forall i | 0 <= i < |points| - 1 && i % 2 == 0
      ensures points[i] <= points[i + 1] && ((forall p :: p in pairs ==> p.0 < p.1) ==> points[i] < points[i + 1])
    {
      assert points[2 * (i / 2)] == pairs[i / 2].0;
    }
    forall i, j | 0 <= i <= j < |points| && i % 2 == 0 && j % 2 == 0 ensures points[i] <= points[j] {
      assert points[2 * (i / 2)] == pairs[i / 2].0 && points[2 * (j / 2)] == pairs[j / 2].0;
      assert i / 2 < j / 2 ==> SortSpec.LE(Compare, pairs[i / 2], pairs[j / 2]);
    }
  }

  lemma Reordered(p: seq<Interval>, q: seq<Interval>)
    requires multiset(p) == multiset(q)
    ensures forall x :: x in p <==> x in q
  {
    assert forall x :: x in p <==> x in multiset(p);
    assert forall x :: x in q <==> x in multiset(q);
  }

  lemma IntervalsOf(points: seq<nat>, pairs: seq<Interval>)
    requires Lists(points, pairs)
    requires forall i :: 0 <= i < |points| - 1 && i % 2 == 0 ==> points[i] <= points[i + 1]
    ensures forall p :: p in pairs ==> p.0 <= p.1
    ensures Proper(points) ==> forall p :: p in pairs ==> p.0 < p.1
  {
    forall p | p in pairs ensures p.0 <= p.1 && (Proper(points) ==> p.0 < p.1) {
      var k :| 0 <= k < |pairs| && pairs[k] == p;
      assert points[2 * k] == p.0 && points[2 * k + 1] == p.1;
    }
  }

  /**
   * Any list of intervals, in any order and overlapping in any way, becomes an ordered list of the
   * same set; if none of them is empty, the canonical one.
   */
  method SortAndRemoveOverlap(cr: CharRange)
    requires cr.Valid() && cr.len % 2 == 0
    requires forall i :: 0 <= i < cr.len - 1 && i % 2 == 0 ==> cr.points[i] <= cr.points[i + 1]
    modifies cr, cr.points
    ensures cr.Valid() && SameMembers(cr.Contents(), old(cr.Contents()))
    ensures Ordered(cr.Contents()) && cr.len % 2 == 0
    ensures Proper(old(cr.Contents())) ==> Canonical(cr.Contents())
  {
    ghost var was := cr.Contents();
    var pairs := Pairs(cr);
    ghost var before := pairs[..];
    CompareIsPreorder();
    Rqsort.Sort(pairs, Compare);
    StorePairs(cr, pairs);
    ghost var sorted := cr.Contents();
    Prepared(was, before, sorted, pairs[..]);
    RemoveOverlap(cr);
    SameMembersTrans(cr.Contents(), sorted, was);
  }

  lemma Prepared(was: seq<nat>, before: seq<Interval>, sorted: seq<nat>, pairs: seq<Interval>)
    requires Lists(was, before) && Lists(sorted, pairs) && multiset(pairs) == multiset(before)
    requires SortSpec.Sorted(Compare, pairs, 0, |pairs|)
    requires forall i :: 0 <= i < |was| - 1 && i % 2 == 0 ==> was[i] <= was[i + 1]
    ensures ByStart(sorted) && SameMembers(sorted, was) && (Proper(was) ==> Proper(sorted))
  {
    IntervalsOf(was, before);
    Reordered(before, pairs);
    SortedByStart(sorted, pairs);
    forall c: nat ensures Member(sorted, c) <==> Member(was, c) {
      ReorderedMember(sorted, pairs, was, before, c);
    }
  }

  lemma SameMembersTrans(s: seq<nat>, t: seq<nat>, u: seq<nat>)
    requires SameMembers(s, t) && SameMembers(t, u)
    ensures SameMembers(s, u)
  {
    forall c: nat ensures Member(s, c) <==> Member(u, c) {
      assert Member(s, c) <==> Member(t, c);
      assert Member(t, c) <==> Member(u, c);
    }
  }
}
