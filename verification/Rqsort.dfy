/** rqsort: quicksort on an explicit stack, with insertion sort below and heapsort behind. */
module Rqsort {
  import opened SortSpec
  import opened HeapSort
  import opened Partitioning

  const STACK_SIZE: nat := 50

  /** An entry of the work stack: a range still to be sorted. */
  datatype Segment = Segment(base: nat, count: nat, depth: nat)

  predicate Holds(g: Segment, i: nat, j: nat) {
    g.base <= i && j < g.base + g.count
  }

  predicate Apart(g: Segment, h: Segment) {
    g.base + g.count <= h.base || h.base + h.count <= g.base
  }

  /** The segments lie in the array and do not overlap. */
  ghost predicate Disjoint(segs: seq<Segment>, n: nat) {
    && (forall k :: 0 <= k < |segs| ==> segs[k].base + segs[k].count <= n)
    && (forall k, l :: 0 <= k < l < |segs| ==> Apart(segs[k], segs[l]))
  }

  ghost predicate Together(segs: seq<Segment>, i: nat, j: nat) {
    exists k :: 0 <= k < |segs| && Holds(segs[k], i, j)
  }

  /** Elements out of order are in one of the segments. */
  ghost predicate OrderedExcept<T(!new)>(cmp: Compare<T>, s: seq<T>, segs: seq<Segment>) {
    forall i, j :: 0 <= i < j < |s| ==> LE(cmp, s[i], s[j]) || Together(segs, i, j)
  }

  /** With no segment left the array is sorted. */
  lemma NothingLeft<T(!new)>(cmp: Compare<T>, s: seq<T>)
    requires OrderedExcept(cmp, s, [])
    ensures Sorted(cmp, s, 0, |s|)
  {
  }

  /** Two positions, one inside a segment and one outside, are in no segment together. */
  lemma Separate(segs: seq<Segment>, n: nat, i: nat, j: nat, k: nat)
    requires Disjoint(segs, n) && k < |segs| && i < j && !Holds(segs[k], i, j)
    requires (segs[k].base <= i < segs[k].base + segs[k].count) || (segs[k].base <= j < segs[k].base + segs[k].count)
    ensures !Together(segs, i, j)
  {
    forall l | 0 <= l < |segs| ensures !Holds(segs[l], i, j) {
      assert l < k ==> Apart(segs[l], segs[k]);
      assert k < l ==> Apart(segs[k], segs[l]);
    }
  }

  /** Rearranging one segment keeps the order outside the segments. */
  lemma RearrangingKeeps<T(!new)>(cmp: Compare<T>, s: seq<T>, t: seq<T>, segs: seq<Segment>, g: Segment)
    requires Disjoint(segs + [g], |s|) && OrderedExcept(cmp, s, segs + [g])
    requires Rearranged(s, t, g.base, g.base + g.count)
    ensures OrderedExcept(cmp, t, segs + [g])
  {
    var all, lo, hi := segs + [g], g.base, g.base + g.count;
    forall i, j | 0 <= i < j < |t| ensures LE(cmp, t[i], t[j]) || Together(all, i, j) {
      if lo <= i && j < hi {
        assert Holds(all[|segs|], i, j);
      } else {
        KeepsPair(cmp, s, t, all, g, i, j);
      }
    }
  }

  lemma Outside<T(!new)>(s: seq<T>, t: seq<T>, lo: nat, hi: nat, k: nat)
    requires Rearranged(s, t, lo, hi) && k < |s| && !(lo <= k < hi)
    ensures t[k] == s[k]
  {
    if k < lo {
      assert t[..lo][k] == s[..lo][k];
    } else {
      assert t[hi..][k - hi] == s[hi..][k - hi];
    }
  }

  lemma KeepsPair<T(!new)>(cmp: Compare<T>, s: seq<T>, t: seq<T>, all: seq<Segment>, g: Segment, i: nat, j: nat)
    requires all != [] && all[|all| - 1] == g && Disjoint(all, |s|) && OrderedExcept(cmp, s, all)
    requires Rearranged(s, t, g.base, g.base + g.count) && i < j < |t| && !Holds(g, i, j)
    ensures LE(cmp, t[i], t[j]) || Together(all, i, j)
  {
    var lo, hi := g.base, g.base + g.count;
    if lo <= i < hi {
      var k := StaysInside(s, t, lo, hi, i);
      Outside(s, t, lo, hi, j);
      Separate(all, |s|, k, j, |all| - 1);
    } else if lo <= j < hi {
      var k := StaysInside(s, t, lo, hi, j);
      Outside(s, t, lo, hi, i);
      Separate(all, |s|, i, k, |all| - 1);
    } else {
      Outside(s, t, lo, hi, i);
      Outside(s, t, lo, hi, j);
    }
  }

  /** A sorted segment is done. */
  lemma SortedIsDone<T(!new)>(cmp: Compare<T>, s: seq<T>, segs: seq<Segment>, g: Segment)
    requires OrderedExcept(cmp, s, segs + [g]) && g.base + g.count <= |s| && Sorted(cmp, s, g.base, g.base + g.count)
    ensures OrderedExcept(cmp, s, segs)
  {
    forall i, j | 0 <= i < j < |s| ensures LE(cmp, s[i], s[j]) || Together(segs, i, j) {
      if !Holds(g, i, j) && !LE(cmp, s[i], s[j]) {
        var k :| 0 <= k < |segs + [g]| && Holds((segs + [g])[k], i, j);
        assert Holds(segs[k], i, j);
      }
    }
  }

  /** After a partition only the two outer parts are left. */
  lemma PartsAreLeft<T(!new)>(cmp: Compare<T>, s: seq<T>, v: T, segs: seq<Segment>, g: Segment, x: Segment, y: Segment,
                              lt: nat, gt: nat)
    requires TotalPreorder(cmp) && OrderedExcept(cmp, s, segs + [g]) && Disjoint(segs + [g], |s|) && lt <= gt <= g.count
    requires ThreeWay(cmp, s, v, g.base, g.base + lt, g.base + gt, g.base + g.count)
    requires || (x.base == g.base && x.count == lt && y.base == g.base + gt && y.count == g.count - gt)
             || (y.base == g.base && y.count == lt && x.base == g.base + gt && x.count == g.count - gt)
    ensures OrderedExcept(cmp, s, segs + [x] + [y]) && Disjoint(segs + [x] + [y], |s|)
  {
    var left := segs + [x] + [y];
    StillDisjoint(segs, g, x, y, |s|);
    forall i, j | 0 <= i < j < |s| ensures LE(cmp, s[i], s[j]) || Together(left, i, j) {
      if Holds(g, i, j) && g.base + lt <= j && i < g.base + gt {
        AcrossParts(cmp, s, v, g, i, j, lt, gt);
      } else if !LE(cmp, s[i], s[j]) {
        var k :| 0 <= k < |segs + [g]| && Holds((segs + [g])[k], i, j);
        assert Holds(left[k], i, j) || Holds(left[|segs|], i, j) || Holds(left[|segs| + 1], i, j);
      }
    }
  }

  lemma StillDisjoint(segs: seq<Segment>, g: Segment, x: Segment, y: Segment, n: nat)
    requires Disjoint(segs + [g], n) && Apart(x, y) && g.base <= x.base && g.base <= y.base
    requires x.base + x.count <= g.base + g.count && y.base + y.count <= g.base + g.count
    ensures Disjoint(segs + [x] + [y], n)
  {
    var all, left := segs + [g], segs + [x] + [y];
    assert all[|segs|] == g;
    forall k, l | 0 <= k < l < |left| ensures Apart(left[k], left[l]) {
      if k < |segs| {
        assert Apart(all[k], all[if l < |segs| then l else |segs|]);
      }
    }
    forall k | 0 <= k < |left| ensures left[k].base + left[k].count <= n {
      assert all[if k < |segs| then k else |segs|].base >= 0;
    }
  }

  /** Elements of a partitioned range that are not in one outer part are in order. */
  lemma AcrossParts<T(!new)>(cmp: Compare<T>, s: seq<T>, v: T, g: Segment, i: nat, j: nat, lt: nat, gt: nat)
    requires TotalPreorder(cmp) && lt <= gt <= g.count && i < j && Holds(g, i, j)
    requires ThreeWay(cmp, s, v, g.base, g.base + lt, g.base + gt, g.base + g.count)
    requires g.base + lt <= j && i < g.base + gt
    ensures LE(cmp, s[i], s[j])
  {
    Antisymmetric(cmp, s[i], v);
    Antisymmetric(cmp, s[j], v);
    Transitive(cmp, s[i], v, s[j]);
  }

  // ----- the sort -----

  /** Insertion sort on a short range. */
  method InsertionSort<T(!new)>(a: array<T>, cmp: Compare<T>, p: nat, n: nat)
    requires TotalPreorder(cmp) && p + n <= a.Length
    modifies a
    ensures Sorted(cmp, a[..], p, p + n) && Rearranged(old(a[..]), a[..], p, p + n)
  {
    hide TotalPreorder, Rearranged;
    var top := p + n;
    Same(a[..], p, top);
    var pi := p + 1;
    while pi < top
      invariant p + 1 <= pi && (pi <= top || n == 0) && Sorted(cmp, a[..], p, if pi <= top then pi else top)
      invariant Rearranged(old(a[..]), a[..], p, top)
    {
      ghost var s := a[..];
      Insert(a, cmp, p, pi, top);
      Chain(old(a[..]), s, a[..], p, top);
      pi := pi + 1;
    }
  }

  /** In order except that the element at j may belong further left. */
  ghost predicate SortedBut<T(!new)>(cmp: Compare<T>, s: seq<T>, p: nat, j: nat, hi: nat) {
    && p <= j < hi <= |s|
    && (forall k, l :: p <= k < l < hi && k != j && l != j ==> LE(cmp, s[k], s[l]))
    && (forall l :: j < l < hi ==> LE(cmp, s[j], s[l]))
  }

  /** The inner loop of insertion sort. */
  method Insert<T(!new)>(a: array<T>, cmp: Compare<T>, p: nat, pi: nat, top: nat)
    requires TotalPreorder(cmp) && p <= pi < top <= a.Length && Sorted(cmp, a[..], p, pi)
    modifies a
    ensures Sorted(cmp, a[..], p, pi + 1) && Rearranged(old(a[..]), a[..], p, top)
  {
    hide TotalPreorder, Rearranged;
    var j := pi;
    Same(a[..], p, top);
    while j > p && cmp(a[j - 1], a[j]) > 0
      invariant p <= j <= pi && SortedBut(cmp, a[..], p, j, pi + 1) && Rearranged(old(a[..]), a[..], p, top)
    {
      ghost var s := a[..];
      Antisymmetric(cmp, a[j - 1], a[j]);
      Swap(a, j, j - 1, p, top);
      assert a[..] == s[j := s[j - 1]][j - 1 := s[j]];
      MovesLeft(cmp, s, a[..], p, j, pi + 1);
      Chain(old(a[..]), s, a[..], p, top);
      j := j - 1;
    }
    Inserted(cmp, a[..], p, j, pi + 1);
  }

  lemma MovesLeft<T(!new)>(cmp: Compare<T>, s: seq<T>, t: seq<T>, p: nat, j: nat, hi: nat)
    requires SortedBut(cmp, s, p, j, hi) && p < j && LE(cmp, s[j], s[j - 1]) && t == s[j := s[j - 1]][j - 1 := s[j]]
    ensures SortedBut(cmp, t, p, j - 1, hi)
  {
  }

  lemma Inserted<T(!new)>(cmp: Compare<T>, s: seq<T>, p: nat, j: nat, hi: nat)
    requires TotalPreorder(cmp) && SortedBut(cmp, s, p, j, hi) && (j == p || LE(cmp, s[j - 1], s[j]))
    ensures Sorted(cmp, s, p, hi)
  {
    forall k | p <= k < j ensures LE(cmp, s[k], s[j]) {
      if k < j - 1 { Transitive(cmp, s[k], s[j - 1], s[j]); }
    }
  }

  function Total(segs: seq<Segment>): (r: nat) {
    if segs == [] then 0 else Total(segs[..|segs| - 1]) + segs[|segs| - 1].count
  }

  lemma TotalPush(segs: seq<Segment>, g: Segment)
    ensures Total(segs + [g]) == Total(segs) + g.count
  {
    assert (segs + [g])[..|segs|] == segs;
  }

  /** Depths on the stack increase strictly from at least 1, and stay at most `limit`. */
  ghost predicate Deepening(segs: seq<Segment>, limit: nat) {
    && (forall k :: 0 <= k < |segs| ==> 1 <= segs[k].depth <= limit)
    && (forall k, l :: 0 <= k < l < |segs| ==> segs[k].depth < segs[l].depth)
  }

  /** So the stack never holds more entries than the depth limit. */
  lemma {:induction false} StackFits(segs: seq<Segment>, limit: nat)
    requires Deepening(segs, limit)
    ensures |segs| <= limit
    decreases |segs|
  {
    if segs != [] {
      StackFits(segs[..|segs| - 1], segs[|segs| - 1].depth - 1);
    }
  }

  lemma PushDeeper(segs: seq<Segment>, g: Segment, limit: nat)
    requires Deepening(segs, limit) && g.depth == limit + 1
    ensures Deepening(segs + [g], limit + 1)
  {
  }

  /** The depths left on the stack are below the one taken off. */
  lemma PopDeepest(rest: seq<Segment>, g: Segment, limit: nat)
    requires Deepening(rest + [g], limit) || (rest == [] && g.depth == 0)
    ensures Deepening(rest, g.depth) && g.depth <= (if rest == [] && g.depth == 0 then 0 else limit)
  {
    var segs := rest + [g];
    if Deepening(segs, limit) {
      assert segs[|rest|] == g;
      assert forall k :: 0 <= k < |rest| ==> segs[k] == rest[k] && segs[k].depth < g.depth;
    }
  }

  /** What the sort keeps: the segments hold everything that is out of order. */
  ghost predicate Pending<T(!new)>(cmp: Compare<T>, was: seq<T>, s: seq<T>, segs: seq<Segment>) {
    |s| == |was| && Disjoint(segs, |s|) && OrderedExcept(cmp, s, segs) && Rearranged(was, s, 0, |was|)
  }

  lemma StepKeeps<T(!new)>(cmp: Compare<T>, was: seq<T>, s: seq<T>, t: seq<T>, segs: seq<Segment>, g: Segment)
    requires Pending(cmp, was, s, segs + [g]) && g.base + g.count <= |s| && Rearranged(s, t, g.base, g.base + g.count)
    ensures Pending(cmp, was, t, segs + [g])
  {
    RearrangingKeeps(cmp, s, t, segs, g);
    Widen(s, t, g.base, g.base + g.count, 0, |s|);
    Chain(was, s, t, 0, |was|);
  }

  lemma SplitKeeps<T(!new)>(cmp: Compare<T>, was: seq<T>, s: seq<T>, v: T, segs: seq<Segment>, g: Segment, x: Segment,
                            y: Segment, lt: nat, gt: nat)
    requires TotalPreorder(cmp) && Pending(cmp, was, s, segs + [g]) && lt <= gt <= g.count
    requires ThreeWay(cmp, s, v, g.base, g.base + lt, g.base + gt, g.base + g.count)
    requires || (x.base == g.base && x.count == lt && y.base == g.base + gt && y.count == g.count - gt)
             || (y.base == g.base && y.count == lt && x.base == g.base + gt && x.count == g.count - gt)
    ensures Pending(cmp, was, s, segs + [x] + [y])
  {
    PartsAreLeft(cmp, s, v, segs, g, x, y, lt, gt);
  }

  /** The current segment lies in the array. */
  lemma Inside<T(!new)>(cmp: Compare<T>, was: seq<T>, s: seq<T>, segs: seq<Segment>, g: Segment)
    requires Pending(cmp, was, s, segs + [g])
    ensures g.base + g.count <= |s| == |was|
  {
    assert (segs + [g])[|segs|] == g;
  }

  /** A segment that has been sorted is taken off. */
  lemma Finished<T(!new)>(cmp: Compare<T>, was: seq<T>, s: seq<T>, segs: seq<Segment>, g: Segment)
    requires Pending(cmp, was, s, segs + [g]) && g.base + g.count <= |s| && Sorted(cmp, s, g.base, g.base + g.count)
    ensures Pending(cmp, was, s, segs)
  {
    SortedIsDone(cmp, s, segs, g);
    var all := segs + [g];
    assert forall k :: 0 <= k < |segs| ==> segs[k] == all[k];
  }

  lemma Start<T(!new)>(cmp: Compare<T>, was: seq<T>, g: Segment)
    requires g.base == 0 && g.count == |was|
    ensures Pending(cmp, was, was, [g])
  {
    Same(was, 0, |was|);
    forall i, j | 0 <= i < j < |was| ensures Together([g], i, j) {
      assert Holds([g][0], i, j);
    }
  }

  lemma TooShort<T(!new)>(cmp: Compare<T>, s: seq<T>)
    requires |s| < 2
    ensures Sorted(cmp, s, 0, |s|)
  {
  }

  lemma AllDone<T(!new)>(cmp: Compare<T>, was: seq<T>, s: seq<T>)
    requires Pending(cmp, was, s, [])
    ensures Sorted(cmp, s, 0, |s|) && multiset(s) == multiset(was)
  {
  }

  /** One round on a long segment: the larger part is stacked, the smaller one is next. */
  method Divide<T(!new)>(a: array<T>, cmp: Compare<T>, g: Segment, ghost was: seq<T>, ghost rest: seq<Segment>)
      returns (larger: Segment, smaller: Segment)
    requires TotalPreorder(cmp) && g.count > 6 && Pending(cmp, was, a[..], rest + [g])
    modifies a
    ensures Pending(cmp, was, a[..], rest + [larger] + [smaller])
    ensures larger.depth == smaller.depth == g.depth + 1
    ensures larger.count + smaller.count < g.count && smaller.count <= larger.count
  {
    hide TotalPreorder, Rearranged, Pending, ThreeWay;
    ghost var s := a[..];
    Inside(cmp, was, s, rest, g);
    var lt, gt;
    ghost var v;
    lt, gt, v := Partition(a, cmp, g.base, g.count);
    StepKeeps(cmp, was, s, a[..], rest, g);
    var left, right := Segment(g.base, lt, g.depth + 1), Segment(g.base + gt, g.count - gt, g.depth + 1);
    if lt > g.count - gt {
      larger, smaller := left, right;
    } else {
      larger, smaller := right, left;
    }
    SplitKeeps(cmp, was, a[..], v, rest, g, larger, smaller, lt, gt);
  }

  /** A segment sorted as a whole, by heapsort or by insertion. */
  method SortWhole<T(!new)>(a: array<T>, cmp: Compare<T>, g: Segment, heap: bool, ghost was: seq<T>,
                            ghost rest: seq<Segment>)
    requires TotalPreorder(cmp) && Pending(cmp, was, a[..], rest + [g])
    modifies a
    ensures Pending(cmp, was, a[..], rest)
  {
    hide TotalPreorder, Rearranged, Pending, Sorted;
    ghost var s := a[..];
    Inside(cmp, was, s, rest, g);
    if heap {
      Heapsort(a, cmp, g.base, g.count);
    } else {
      InsertionSort(a, cmp, g.base, g.count);
    }
    StepKeeps(cmp, was, s, a[..], rest, g);
    Finished(cmp, was, a[..], rest, g);
  }

  /** The work on one stack entry: it is divided until it is short, or too deep. */
  method SortSegment<T(!new)>(a: array<T>, cmp: Compare<T>, stack: array<Segment>, sp0: nat, g0: Segment,
                              ghost was: seq<T>, ghost rest0: seq<Segment>) returns (sp: nat, ghost rest: seq<Segment>)
    requires TotalPreorder(cmp) && stack.Length == STACK_SIZE && sp0 <= STACK_SIZE && rest0 == stack[..sp0]
    requires (a as object) != stack && Pending(cmp, was, a[..], rest0 + [g0])
    requires Deepening(rest0, g0.depth) && g0.depth <= STACK_SIZE
    modifies a, stack
    ensures sp <= STACK_SIZE && rest == stack[..sp] && Pending(cmp, was, a[..], rest) && Deepening(rest, STACK_SIZE)
    ensures Total(rest) < Total(rest0) + g0.count || (sp == sp0 && Total(rest) <= Total(rest0) + g0.count)
  {
    hide TotalPreorder, Rearranged, Pending, Total;
    var g := g0;
    sp, rest := sp0, rest0;
    while g.count > 6
      invariant sp <= STACK_SIZE && rest == stack[..sp] && Pending(cmp, was, a[..], rest + [g])
      invariant Deepening(rest, g.depth) && g.depth <= STACK_SIZE
      invariant Total(rest) + g.count < Total(rest0) + g0.count
        || (sp == sp0 && Total(rest) + g.count <= Total(rest0) + g0.count)
      decreases g.count
    {
      if g.depth + 1 > STACK_SIZE {
        SortWhole(a, cmp, g, true, was, rest);
        return;
      }
      var larger, smaller := Divide(a, cmp, g, was, rest);
      StackFits(rest, g.depth);
      PushDeeper(rest, larger, g.depth);
      TotalPush(rest, larger);
      stack[sp] := larger;
      rest := rest + [larger];
      sp := sp + 1;
      g := smaller;
    }
    SortWhole(a, cmp, g, false, was, rest);
  }

  /** rqsort: a sorted rearrangement of the array, for every total preorder. The stack has 50 slots
      and every push is within them. */
  method Sort<T(!new)>(a: array<T>, cmp: Compare<T>)
    requires TotalPreorder(cmp)
    modifies a
    ensures Sorted(cmp, a[..], 0, a.Length) && multiset(a[..]) == multiset(old(a[..]))
  {
    hide TotalPreorder, Rearranged, Pending, Sorted, Total, Deepening;
    if a.Length < 2 {
      TooShort(cmp, a[..]);
      return;
    }
    var stack := new Segment[STACK_SIZE](_ => Segment(0, 0, 0));
    stack[0] := Segment(0, a.Length, 0);
    var sp: nat := 1;
    ghost var was, segs := a[..], [stack[0]];
    Start(cmp, was, stack[0]);
    while sp > 0
      invariant 0 <= sp <= STACK_SIZE && segs == stack[..sp] && Pending(cmp, was, a[..], segs)
      invariant Deepening(segs, STACK_SIZE) || (sp == 1 && segs[0].depth == 0)
      decreases Total(segs), sp
    {
      sp := sp - 1;
      var g := stack[sp];
      ghost var rest := segs[..sp];
      assert segs == rest + [g];
      TotalPush(rest, g);
      PopDeepest(rest, g, STACK_SIZE);
      sp, segs := SortSegment(a, cmp, stack, sp, g, was, rest);
    }
    AllDone(cmp, was, a[..]);
  }
}
