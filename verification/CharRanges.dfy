/** Character sets as growing arrays of endpoints: union, intersection, difference, complement. */
module CharRanges {
  import opened CharSets

  datatype SetOp = Union | Inter | Xor

  /** What an operation means for one code point. */
  predicate Combine(op: SetOp, a: bool, b: bool) {
    match op
    case Union => a || b
    case Inter => a && b
    case Xor => a != b
  }

  /** out lists the combination of the sets listed by s and t. */
  ghost predicate Combined(op: SetOp, s: seq<nat>, t: seq<nat>, out: seq<nat>) {
    forall c: nat :: Inside(out, c) == Combine(op, Inside(s, c), Inside(t, c))
  }

  ghost predicate SameSet(s: seq<nat>, t: seq<nat>) {
    forall c: nat :: Inside(s, c) == Inside(t, c)
  }

  predicate Odd(s: seq<nat>) {
    |s| % 2 == 1
  }

  /** One more endpoint v, taken from either list or from both. */
  lemma CombineNext(op: SetOp, s: seq<nat>, t: seq<nat>, out: seq<nat>, v: nat,
                    s2: seq<nat>, t2: seq<nat>, out2: seq<nat>)
    requires UpTo(s, v) && UpTo(t, v) && UpTo(out, v) && Combined(op, s, t, out)
    requires (s2 == s || s2 == s + [v]) && (t2 == t || t2 == t + [v]) && (out2 == out || out2 == out + [v])
    requires Odd(out2) == Combine(op, Odd(s2), Odd(t2))
    ensures Combined(op, s2, t2, out2)
  {
    forall c: nat ensures Inside(out2, c) == Combine(op, Inside(s2, c), Inside(t2, c)) {
      AddLast(s, v, s2, c);
      AddLast(t, v, t2, c);
      AddLast(out, v, out2, c);
    }
  }

  /** The interval [x, y) followed by [y, z) is [x, z). */
  lemma Touching(s: seq<nat>, t: seq<nat>, x: nat, y: nat, z: nat)
    requires SameSet(t, s + [x, y])
    ensures SameSet(t + [y, z], s + [x, z])
  {
    forall c: nat ensures Inside(t + [y, z], c) == Inside(s + [x, z], c) {
      assert Inside(t, c) == Inside(s + [x, y], c);
      BelowLastTwo(s, x, y, c);
      BelowLastTwo(s, x, z, c);
      BelowLastTwo(t, y, z, c);
    }
  }

  lemma SameWithPair(s: seq<nat>, t: seq<nat>, x: nat, y: nat)
    requires SameSet(s, t)
    ensures SameSet(s + [x, y], t + [x, y])
    ensures SameSet(s + [x, x], t)
  {
    forall c: nat
      ensures Inside(s + [x, y], c) == Inside(t + [x, y], c) && Inside(s + [x, x], c) == Inside(t, c)
    {
      assert Inside(s, c) == Inside(t, c);
      BelowLastTwo(s, x, y, c);
      BelowLastTwo(t, x, y, c);
      BelowLastTwo(s, x, x, c);
    }
  }

  /** out is the canonical list of the first i endpoints of an ordered list. */
  ghost predicate Compressed(was: seq<nat>, i: nat, out: seq<nat>) {
    && i <= |was| && |out| % 2 == 0 && Increasing(out) && SameSet(out, was[..i])
    && (out != [] && i < |was| ==> out[|out| - 1] < was[i])
    && (forall m :: 0 <= m < |out| ==> out[m] in was)
  }

  lemma SameSetTrans(s: seq<nat>, t: seq<nat>, u: seq<nat>)
    requires SameSet(s, t) && SameSet(t, u)
    ensures SameSet(s, u) && SameSet(u, s)
  {
    forall c: nat ensures Inside(s, c) == Inside(u, c) {
      assert Inside(s, c) == Inside(t, c) && Inside(t, c) == Inside(u, c);
    }
  }

  lemma SkipEmpty(was: seq<nat>, out: seq<nat>, i: nat)
    requires Ordered(was) && i + 1 < |was| && was[i] == was[i + 1] && Compressed(was, i, out)
    ensures Compressed(was, i + 2, out)
  {
    SameWithPair(was[..i], was[..i], was[i], was[i]);
    assert was[..i + 2] == was[..i] + [was[i], was[i]];
    SameSetTrans(was[..i + 2], was[..i], out) by { SameSetTrans(out, was[..i], was[..i]); }
    hide SameSet;
    assert i + 2 < |was| ==> was[i] <= was[i + 2];
  }

  lemma KeepIncreasing(out: seq<nat>, x: nat, y: nat)
    requires Increasing(out) && (out != [] ==> out[|out| - 1] < x) && x < y
    ensures Increasing(out + [x, y])
  {
  }

  lemma KeepJoined(was: seq<nat>, out: seq<nat>, i: nat, j: nat)
    requires Ordered(was) && i <= j && j + 1 < |was| && was[i] != was[i + 1] && Compressed(was, i, out)
    requires j + 2 < |was| ==> was[j + 1] != was[j + 2]
    requires SameSet(was[..j + 2], was[..i] + [was[i], was[j + 1]])
    ensures Compressed(was, j + 2, out + [was[i], was[j + 1]])
  {
    SameWithPair(out, was[..i], was[i], was[j + 1]);
    SameSetTrans(was[..j + 2], was[..i] + [was[i], was[j + 1]], was[..i] + [was[i], was[j + 1]]);
    SameSetTrans(out + [was[i], was[j + 1]], was[..i] + [was[i], was[j + 1]], was[..j + 2]);
    hide SameSet;
    assert was[i] < was[i + 1] <= was[j + 1];
    assert j + 2 < |was| ==> was[j + 1] < was[j + 2];
    KeepIncreasing(out, was[i], was[j + 1]);
  }

  /** The last interval of a run of touching ones that begins at i. */
  method FindEnd(pt: array<nat>, n: nat, i: nat, ghost was: seq<nat>) returns (j: nat)
    requires n <= pt.Length && |was| == n && n % 2 == i % 2 == 0 && i + 1 < n && pt[i..n] == was[i..]
    ensures i <= j && j % 2 == 0 && j + 1 < n && (j + 2 < n ==> was[j + 1] != was[j + 2])
    ensures SameSet(was[..j + 2], was[..i] + [was[i], was[j + 1]])
  {
    assert forall m :: i <= m < n ==> pt[m] == pt[i..n][m - i] == was[m];
    j := i;
    assert was[..j + 2] == was[..i] + [was[i], was[j + 1]];
    while j + 3 < n && pt[j + 1] == pt[j + 2]
      invariant i <= j && j % 2 == 0 && j + 1 < n
      invariant SameSet(was[..j + 2], was[..i] + [was[i], was[j + 1]])
    {
      Touching(was[..i], was[..j + 2], was[i], was[j + 1], was[j + 3]);
      assert was[..j + 4] == was[..j + 2] + [was[j + 2], was[j + 3]];
      j := j + 2;
    }
  }

  /** The first i endpoints of a and the first j of b, none above top, are merged into out. */
  ghost predicate Merging(op: SetOp, a: seq<nat>, i: nat, b: seq<nat>, j: nat, out: seq<nat>, top: nat) {
    && i <= |a| && j <= |b| && UpTo(a[..i], top) && UpTo(b[..j], top) && UpTo(out, top) && Ordered(out)
    && (i < |a| ==> top <= a[i]) && (j < |b| ==> top <= b[j])
    && (forall m :: UpTo(a, m) && UpTo(b, m) ==> UpTo(out, m))
    && Combined(op, a[..i], b[..j], out) && Odd(out) == Combine(op, Odd(a[..i]), Odd(b[..j]))
  }

  lemma MergeNext(op: SetOp, a: seq<nat>, i: nat, b: seq<nat>, j: nat, out: seq<nat>, top: nat,
                  v: nat, fromA: bool, fromB: bool, out2: seq<nat>)
    requires Ordered(a) && Ordered(b) && Merging(op, a, i, b, j, out, top) && (fromA || fromB)
    requires if fromA then i < |a| && a[i] == v else i < |a| ==> v <= a[i]
    requires if fromB then j < |b| && b[j] == v else j < |b| ==> v <= b[j]
    requires var x, y := if fromA then i + 1 else i, if fromB then j + 1 else j;
             var isIn := Combine(op, x % 2 == 1, y % 2 == 1);
             out2 == if isIn != (|out| % 2 == 1) then out + [v] else out
    ensures Merging(op, a, if fromA then i + 1 else i, b, if fromB then j + 1 else j, out2, v)
  {
    var x, y := if fromA then i + 1 else i, if fromB then j + 1 else j;
    assert a[..i + (if fromA then 1 else 0)] == a[..x] == if fromA then a[..i] + [v] else a[..i];
    assert b[..j + (if fromB then 1 else 0)] == b[..y] == if fromB then b[..j] + [v] else b[..j];
    assert top <= v;
    CombineNext(op, a[..i], b[..j], out, v, a[..x], b[..y], out2);
    hide Combined, Combine;
  }

  lemma MergeStart(op: SetOp, a: seq<nat>, b: seq<nat>)
    ensures Merging(op, a, 0, b, 0, [], 0)
  {
    assert a[..0] == [] && b[..0] == [];
  }

  lemma MergeEnd(op: SetOp, a: seq<nat>, b: seq<nat>, out: seq<nat>, top: nat)
    requires Merging(op, a, |a|, b, |b|, out, top) && |a| % 2 == |b| % 2 == 0
    ensures Combined(op, a, b, out) && Ordered(out) && |out| % 2 == 0
    ensures forall m :: UpTo(a, m) && UpTo(b, m) ==> UpTo(out, m)
  {
    assert a[..|a|] == a && b[..|b|] == b;
  }

  class CharRange {
    var points: array<nat>
    var len: nat

    ghost predicate Valid()
      reads this
    {
      len <= points.Length
    }

    ghost function Contents(): (s: seq<nat>)
      requires Valid()
      reads this, points
    {
      points[..len]
    }

    constructor ()
      ensures Valid() && Contents() == [] && fresh(points)
    {
      points, len := new nat[0], 0;
    }

    method Realloc(size: nat)
      requires Valid()
      modifies this`points
      ensures Valid() && points.Length >= size && Contents() == old(Contents())
      ensures points == old(points) || fresh(points)
    {
      if size > points.Length {
        var grown := points.Length * 3 / 2;
        var more := new nat[if size > grown then size else grown];
        forall i | 0 <= i < len { more[i] := points[i]; }
        assert more[..len] == points[..len];
        points := more;
      }
    }

    method AddPoint(v: nat)
      requires Valid()
      modifies this, points
      ensures Valid() && Contents() == old(Contents()) + [v]
      ensures points == old(points) || fresh(points)
    {
      if len >= points.Length { Realloc(len + 1); }
      points[len] := v;
      len := len + 1;
    }

    /** Removes empty intervals and joins touching ones. */
    method Compress()
      requires Valid() && Ordered(Contents()) && len % 2 == 0
      modifies this`len, points
      ensures Valid() && points == old(points)
      ensures Canonical(Contents()) && SameSet(Contents(), old(Contents()))
      ensures forall v :: UpTo(old(Contents()), v) ==> UpTo(Contents(), v)
    {
      hide SameSet, Compressed, Increasing;
      ghost var was := points[..len];
      var i, k, n, pt := 0, 0, len, points;
      ghost var out: seq<nat> := [];
      NothingCompressed(was);
      while i + 1 < n
        modifies pt
        invariant 0 <= k <= i <= n && i % 2 == 0 && |out| == k
        invariant pt[i..n] == was[i..] && pt[..k] == out
        invariant Compressed(was, i, out)
      {
        assert pt[i..n][0] == was[i] && pt[i..n][1] == was[i + 1];
        if pt[i] == pt[i + 1] {
          SkipEmpty(was, out, i);
          i := i + 2;
        } else {
          var j := FindEnd(pt, n, i, was);
          assert pt[i..n][j + 1 - i] == was[j + 1];
          KeepJoined(was, out, i, j);
          CopyDown(pt, k, i, j, n, was);
          out := out + [was[i], was[j + 1]];
          i, k := j + 2, k + 2;
        }
      }
      len := k;
      AllCompressed(was, out);
    }

    /** cr_op: the canonical list of the combined sets. */
    method Op(a: seq<nat>, b: seq<nat>, op: SetOp)
      requires Valid() && len == 0
      requires Ordered(a) && Ordered(b) && |a| % 2 == |b| % 2 == 0
      modifies this, points
      ensures Valid() && (points == old(points) || fresh(points))
      ensures Canonical(Contents())
      ensures forall c: nat :: Member(Contents(), c) <==> Combine(op, Member(a, c), Member(b, c))
      ensures forall m :: UpTo(a, m) && UpTo(b, m) ==> UpTo(Contents(), m)
    {
      hide Merging, Combined, Combine, SameSet;
      var i, j := 0, 0;
      ghost var top := 0;
      MergeStart(op, a, b);
      while i < |a| || j < |b|
        invariant Valid() && (points == old(points) || fresh(points))
        invariant i <= |a| && j <= |b| && Merging(op, a, i, b, j, Contents(), top)
        decreases |a| - i + |b| - j
      {
        var fromA := i < |a| && (j < |b| ==> a[i] <= b[j]);
        var fromB := j < |b| && (i < |a| ==> b[j] <= a[i]);
        var v := if fromA then a[i] else b[j];
        var x, y := if fromA then i + 1 else i, if fromB then j + 1 else j;
        var isIn := Combine(op, x % 2 == 1, y % 2 == 1);
        ghost var out := Contents();
        if isIn != (len % 2 == 1) { AddPoint(v); }
        MergeNext(op, a, i, b, j, out, top, v, fromA, fromB, Contents());
        i, j, top := x, y, v;
      }
      MergeEnd(op, a, b, Contents(), top);
      ghost var out := Contents();
      Compress();
      CombinedMembers(op, a, b, out, Contents());
    }

    /** cr_union1: the set is joined with the one listed by b. */
    method Union1(b: seq<nat>)
      requires Valid() && Ordered(Contents()) && len % 2 == 0 && Ordered(b) && |b| % 2 == 0
      modifies this
      ensures Valid() && Canonical(Contents()) && fresh(points)
      ensures forall c: nat :: Member(Contents(), c) <==> Member(old(Contents()), c) || Member(b, c)
      ensures forall m :: UpTo(old(Contents()), m) && UpTo(b, m) ==> UpTo(Contents(), m)
    {
      var a := points[..len];
      points, len := new nat[0], 0;
      Op(a, b, Union);
    }

    /** cr_union_interval: the set is joined with the closed interval [c1, c2]. */
    method UnionInterval(c1: nat, c2: nat)
      requires Valid() && Ordered(Contents()) && len % 2 == 0
      requires c1 <= c2 + 1 <= UINT32_MAX
      modifies this
      ensures Valid() && Canonical(Contents()) && fresh(points)
      ensures forall c: nat :: Member(Contents(), c) <==> Member(old(Contents()), c) || c1 <= c <= c2
      ensures UpTo(old(Contents()), UINT32_MAX) ==> UpTo(Contents(), UINT32_MAX)
    {
      var b := [c1, c2 + 1];
      Union1(b);
      assert forall c: nat :: Member(b, c) <==> c1 <= c <= c2;
    }

    /** The endpoints are moved up by one and framed by 0 and the largest value. */
    method Widen()
      requires Valid()
      modifies this, points
      ensures Valid() && Contents() == [0] + old(Contents()) + [UINT32_MAX]
      ensures points == old(points) || fresh(points)
    {
      ghost var was := points[..len];
      Realloc(len + 2);
      assert points[..len] == was;
      forall i | 0 <= i < len { points[i + 1] := points[i]; }
      points[0] := 0;
      points[len + 1] := UINT32_MAX;
      len := len + 2;
      assert forall i :: 0 <= i < |was| ==> points[i + 1] == was[i];
    }

    /** cr_invert: the complement within [0, 2^32 - 1). */
    method Invert()
      requires Valid() && Ordered(Contents()) && UpTo(Contents(), UINT32_MAX) && len % 2 == 0
      modifies this, points
      ensures Valid() && Canonical(Contents()) && UpTo(Contents(), UINT32_MAX)
      ensures points == old(points) || fresh(points)
      ensures forall c: nat :: c < UINT32_MAX ==> (Member(Contents(), c) <==> !Member(old(Contents()), c))
      ensures forall c: nat :: c >= UINT32_MAX ==> !Member(Contents(), c)
    {
      hide SameSet, Member;
      ghost var was := Contents();
      Widen();
      ghost var wide := Contents();
      Compress();
      Inverted(was, wide, Contents());
    }

    /** Inverting twice gives back the same list. */
    method InvertTwice()
      requires Valid() && Canonical(Contents()) && UpTo(Contents(), UINT32_MAX)
      modifies this, points
      ensures Valid() && Contents() == old(Contents())
    {
      ghost var was := Contents();
      Invert();
      ghost var inverse := Contents();
      Invert();
      forall c: nat | c < UINT32_MAX ensures Member(Contents(), c) <==> Member(was, c) {
        assert Member(Contents(), c) <==> !Member(inverse, c);
        assert Member(inverse, c) <==> !Member(was, c);
      }
      CanonicalIsUnique(Contents(), was);
    }
  }

  lemma WideBelow(was: seq<nat>, c: nat)
    ensures Below([0] + was + [UINT32_MAX], c) == 1 + Below(was, c) + One(UINT32_MAX, c)
  {
    BelowConcat([0] + was, [UINT32_MAX], c);
    BelowConcat([0], was, c);
    assert [0][1..] == [] && [UINT32_MAX][1..] == [];
  }

  lemma InvertedAt(was: seq<nat>, points: seq<nat>, c: nat)
    requires Ordered(was) && UpTo(was, UINT32_MAX) && |was| % 2 == 0 && Canonical(points)
    requires Inside(points, c) == Inside([0] + was + [UINT32_MAX], c)
    ensures Member(points, c) <==> c < UINT32_MAX && !Member(was, c)
  {
    hide Below, Member;
    MemberIsInside(points, c);
    MemberIsInside(was, c);
    WideBelow(was, c);
    if c >= UINT32_MAX { BelowAll(was, c); }
  }

  lemma Inverted(was: seq<nat>, wide: seq<nat>, points: seq<nat>)
    requires Ordered(was) && UpTo(was, UINT32_MAX) && |was| % 2 == 0 && wide == [0] + was + [UINT32_MAX]
    requires SameSet(points, wide) && Canonical(points)
    ensures forall c: nat :: Member(points, c) <==> c < UINT32_MAX && !Member(was, c)
  {
    hide Member;
    forall c: nat ensures Member(points, c) <==> c < UINT32_MAX && !Member(was, c) {
      assert Inside(points, c) == Inside(wide, c);
      InvertedAt(was, points, c);
    }
  }

  lemma NothingCompressed(was: seq<nat>)
    ensures Compressed(was, 0, [])
  {
    assert was[..0] == [];
  }

  lemma AllCompressed(was: seq<nat>, out: seq<nat>)
    requires Compressed(was, |was|, out)
    ensures Canonical(out) && SameSet(out, was) && forall v :: UpTo(was, v) ==> UpTo(out, v)
  {
    assert was[..|was|] == was;
  }

  lemma CombinedMembers(op: SetOp, a: seq<nat>, b: seq<nat>, out: seq<nat>, points: seq<nat>)
    requires Combined(op, a, b, out) && SameSet(points, out) && Canonical(points)
    requires Ordered(a) && Ordered(b) && |a| % 2 == |b| % 2 == 0
    ensures forall c: nat :: Member(points, c) <==> Combine(op, Member(a, c), Member(b, c))
  {
    forall c: nat ensures Member(points, c) <==> Combine(op, Member(a, c), Member(b, c)) {
      MemberIsInside(points, c);
      MemberIsInside(a, c);
      MemberIsInside(b, c);
      assert Inside(points, c) == Inside(out, c);
    }
  }

  method CopyDown(pt: array<nat>, k: nat, i: nat, j: nat, n: nat, ghost was: seq<nat>)
    requires k <= i <= j && j + 1 < n <= pt.Length && |was| == n && pt[i..n] == was[i..]
    modifies pt
    ensures pt[..k + 2] == old(pt[..k]) + [was[i], was[j + 1]]
    ensures pt[j + 2..n] == was[j + 2..]
  {
    assert forall m :: i <= m < n ==> pt[m] == pt[i..n][m - i] == was[m];
    pt[k] := pt[i];
    pt[k + 1] := pt[j + 1];
  }
}
