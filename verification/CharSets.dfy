/** Endpoint lists and the sets of code points they denote. */
module CharSets {

  const UINT32_MAX: nat := 0xffff_ffff

  /** `c` lies in one of the half-open intervals [points[0], points[1]), [points[2], points[3]), ... */
  predicate Member(points: seq<nat>, c: nat) {
    |points| >= 2 && (points[0] <= c < points[1] || Member(points[2..], c))
  }

  /** Endpoints in order; intervals may be empty or touch. */
  predicate Ordered(points: seq<nat>) {
    forall i, j :: 0 <= i < j < |points| ==> points[i] <= points[j]
  }

  predicate UpTo(points: seq<nat>, v: nat) {
    forall i :: 0 <= i < |points| ==> points[i] <= v
  }

  /** The only list kept for a set: no interval empty, no two touching. */
  predicate Canonical(points: seq<nat>) {
    |points| % 2 == 0 && Increasing(points)
  }

  // ---- Membership as a parity

  function Below(points: seq<nat>, c: nat): (n: nat) {
    if points == [] then 0 else (if points[0] <= c then 1 else 0) + Below(points[1..], c)
  }

  predicate Inside(points: seq<nat>, c: nat) {
    Below(points, c) % 2 == 1
  }

  lemma {:induction false} BelowNone(points: seq<nat>, c: nat)
    requires forall i :: 0 <= i < |points| ==> c < points[i]
    ensures Below(points, c) == 0
  {
    if points != [] { BelowNone(points[1..], c); }
  }

  lemma {:induction false} BelowAll(points: seq<nat>, c: nat)
    requires UpTo(points, c)
    ensures Below(points, c) == |points|
  {
    if points != [] { BelowAll(points[1..], c); }
  }

  lemma {:induction false} BelowConcat(s: seq<nat>, t: seq<nat>, c: nat)
    ensures Below(s + t, c) == Below(s, c) + Below(t, c)
  {
    if s == [] {
      assert s + t == t;
    } else {
      BelowConcat(s[1..], t, c);
      assert (s + t)[1..] == s[1..] + t;
    }
  }

  function One(x: nat, c: nat): (n: nat) {
    if x <= c then 1 else 0
  }

  lemma BelowTwo(points: seq<nat>, c: nat)
    requires |points| >= 2
    ensures Below(points, c) == One(points[0], c) + One(points[1], c) + Below(points[2..], c)
  {
    assert points[1..][1..] == points[2..];
    assert Below(points[1..], c) == One(points[1], c) + Below(points[2..], c);
  }

  lemma BelowLastTwo(s: seq<nat>, x: nat, y: nat, c: nat)
    ensures Below(s + [x, y], c) == Below(s, c) + One(x, c) + One(y, c)
  {
    BelowConcat(s, [x, y], c);
    BelowTwo([x, y], c);
  }

  /** In an increasing list a code point after some endpoint is after the first. */
  lemma {:induction false} BelowSome(points: seq<nat>, c: nat)
    requires Ordered(points) && Below(points, c) > 0
    ensures points != [] && points[0] <= c
  {
    if points[0] > c {
      BelowSome(points[1..], c);
    }
  }

  /** In an ordered list of intervals a code point is in one exactly when an odd number of endpoints precede it. */
  lemma {:induction false} MemberIsInside(points: seq<nat>, c: nat)
    requires Ordered(points) && |points| % 2 == 0
    ensures Member(points, c) <==> Inside(points, c)
  {
    if points != [] {
      var rest := points[2..];
      BelowTwo(points, c);
      MemberIsInside(rest, c);
      if c < points[1] {
        BelowNone(rest, c);
      }
    }
  }

  /** Adding a last endpoint changes membership from there on only. */
  lemma AddLast(s: seq<nat>, v: nat, t: seq<nat>, c: nat)
    requires UpTo(s, v) && (t == s || t == s + [v])
    ensures UpTo(t, v)
    ensures Inside(t, c) == if c >= v then |t| % 2 == 1 else Inside(s, c)
  {
    if c >= v {
      BelowAll(t, c);
    } else if t == s + [v] {
      BelowConcat(s, [v], c);
      assert [v][1..] == [];
    }
  }

  // ---- A set has one canonical list

  predicate Increasing(points: seq<nat>) {
    forall i, j :: 0 <= i < j < |points| ==> points[i] < points[j]
  }

  lemma FirstIsReached(p: seq<nat>, q: seq<nat>)
    requires Increasing(p) && Ordered(q) && p != [] && Inside(p, p[0]) == Inside(q, p[0])
    ensures q != [] && q[0] <= p[0]
  {
    BelowNone(p[1..], p[0]);
    BelowSome(q, p[0]);
  }

  lemma {:induction false} SameParitySameList(p: seq<nat>, q: seq<nat>)
    requires Increasing(p) && Increasing(q) && forall c: nat :: Inside(p, c) == Inside(q, c)
    ensures p == q
  {
    if p != [] { FirstIsReached(p, q); }
    if q != [] { FirstIsReached(q, p); }
    if p != [] {
      forall c: nat ensures Inside(p[1..], c) == Inside(q[1..], c) {
        assert Inside(p, c) == Inside(q, c);
      }
      SameParitySameList(p[1..], q[1..]);
      assert p == [p[0]] + p[1..] && q == [q[0]] + q[1..];
    }
  }

  /** Two canonical lists of the same set of code points are the same list. */
  lemma CanonicalIsUnique(p: seq<nat>, q: seq<nat>)
    requires Canonical(p) && Canonical(q) && UpTo(p, UINT32_MAX) && UpTo(q, UINT32_MAX)
    requires forall c: nat :: c < UINT32_MAX ==> (Member(p, c) <==> Member(q, c))
    ensures p == q
  {
    forall c: nat ensures Inside(p, c) == Inside(q, c) {
      if c < UINT32_MAX {
        MemberIsInside(p, c);
        MemberIsInside(q, c);
        assert Member(p, c) <==> Member(q, c);
      } else {
        BelowAll(p, c);
        BelowAll(q, c);
      }
    }
    SameParitySameList(p, q);
  }
}
