/** The three-way partition of the sort. */
module Partitioning {
  import opened Extremes
  import opened SortSpec

  /** Every element of s[lo..hi] compares with v as the sign says: before, equivalent or after. */
  ghost predicate Less<T(!new)>(cmp: Compare<T>, s: seq<T>, v: T, lo: nat, hi: nat) {
    lo <= hi <= |s| && forall k :: lo <= k < hi ==> cmp(v, s[k]) > 0
  }

  ghost predicate Equal<T(!new)>(cmp: Compare<T>, s: seq<T>, v: T, lo: nat, hi: nat) {
    lo <= hi <= |s| && forall k :: lo <= k < hi ==> cmp(v, s[k]) == 0
  }

  ghost predicate Greater<T(!new)>(cmp: Compare<T>, s: seq<T>, v: T, lo: nat, hi: nat) {
    lo <= hi <= |s| && forall k :: lo <= k < hi ==> cmp(v, s[k]) < 0
  }

  /** The four parts around the elements not yet seen, [pi, pj). The pivot is the first element. */
  ghost predicate Parts<T(!new)>(cmp: Compare<T>, s: seq<T>, v: T, p: nat, plt: nat, pi: nat, pj: nat, pgt: nat,
                                 top: nat) {
    && p < plt <= pi <= pj <= pgt <= top <= |s| && s[p] == v
    && Equal(cmp, s, v, p, plt) && Less(cmp, s, v, plt, pi) && Greater(cmp, s, v, pj, pgt) && Equal(cmp, s, v, pgt, top)
  }

  /** The scan from the left: elements before the pivot are passed, equivalent ones collected. */
  method ScanUp<T(!new)>(a: array<T>, cmp: Compare<T>, p: nat, plt0: nat, pi0: nat, pj: nat, ghost pgt: nat, top: nat)
      returns (plt: nat, pi: nat)
    requires p < top <= a.Length && Parts(cmp, a[..], a[p], p, plt0, pi0, pj, pgt, top)
    modifies a
    ensures pi0 <= pi && Parts(cmp, a[..], old(a[p]), p, plt, pi, pj, pgt, top) && Rearranged(old(a[..]), a[..], p, top)
    ensures pi < pj ==> cmp(old(a[p]), a[pi]) < 0
  {
    plt, pi := plt0, pi0;
    ghost var v := a[p];
    Same(a[..], p, top);
    while pi < pj && cmp(a[p], a[pi]) >= 0
      invariant pi0 <= pi && Parts(cmp, a[..], v, p, plt, pi, pj, pgt, top) && Rearranged(old(a[..]), a[..], p, top)
    {
      if cmp(a[p], a[pi]) == 0 {
        ghost var s := a[..];
        Swap(a, plt, pi, p, top);
        Chain(old(a[..]), s, a[..], p, top);
        plt := plt + 1;
      }
      pi := pi + 1;
    }
  }

  /** The scan from the right. */
  method ScanDown<T(!new)>(a: array<T>, cmp: Compare<T>, p: nat, ghost plt: nat, pi: nat, pj0: nat, pgt0: nat, top: nat)
      returns (pj: int, pgt: nat)
    requires p < top <= a.Length && Parts(cmp, a[..], a[p], p, plt, pi, pj0, pgt0, top)
    modifies a
    ensures pi - 1 <= pj < pj0 && Parts(cmp, a[..], old(a[p]), p, plt, pi, pj + 1, pgt, top)
    ensures Rearranged(old(a[..]), a[..], p, top)
    ensures pi < pj ==> cmp(old(a[p]), a[pj]) > 0
    ensures pi < pj0 ==> pi <= pj && a[pi] == old(a[pi])
  {
    pj, pgt := pj0 - 1, pgt0;
    ghost var v := a[p];
    Same(a[..], p, top);
    while pi < pj && cmp(a[p], a[pj]) <= 0
      invariant pi - 1 <= pj < pj0 && Parts(cmp, a[..], v, p, plt, pi, pj + 1, pgt, top)
      invariant Rearranged(old(a[..]), a[..], p, top)
      invariant pi < pj0 ==> pi <= pj && a[pi] == old(a[pi])
    {
      if cmp(a[p], a[pj]) == 0 {
        ghost var s := a[..];
        pgt := pgt - 1;
        Swap(a, pgt, pj, p, top);
        Chain(old(a[..]), s, a[..], p, top);
      }
      pj := pj - 1;
    }
  }

  /** The four parts when everything has been seen. */
  ghost predicate Parted<T(!new)>(cmp: Compare<T>, s: seq<T>, v: T, p: nat, plt: nat, pi: nat, pgt: nat, top: nat) {
    Parts(cmp, s, v, p, plt, pi, pi, pgt, top)
  }

  lemma Exchanged<T(!new)>(cmp: Compare<T>, s: seq<T>, t: seq<T>, v: T, p: nat, plt: nat, pi: nat, pj: nat, pgt: nat,
                           top: nat)
    requires Parts(cmp, s, v, p, plt, pi, pj + 1, pgt, top) && pi < pj && cmp(v, s[pi]) < 0 && cmp(v, s[pj]) > 0
    requires t == s[pi := s[pj]][pj := s[pi]]
    ensures Parts(cmp, t, v, p, plt, pi + 1, pj, pgt, top)
  {
  }

  lemma LastSeen<T(!new)>(cmp: Compare<T>, s: seq<T>, v: T, p: nat, plt: nat, pi: nat, pj: nat, pgt: nat, top: nat)
    requires Parts(cmp, s, v, p, plt, pi, pj, pgt, top) && (pj == pi || (pj == pi + 1 && cmp(v, s[pi]) < 0))
    ensures Parted(cmp, s, v, p, plt, pi, pgt, top)
  {
  }

  /** The partition loop, the pivot being at p. */
  method PartitionLoop<T(!new)>(a: array<T>, cmp: Compare<T>, p: nat, top: nat) returns (plt: nat, pi: nat, pgt: nat)
    requires TotalPreorder(cmp) && p < top <= a.Length
    modifies a
    ensures Parted(cmp, a[..], old(a[p]), p, plt, pi, pgt, top) && Rearranged(old(a[..]), a[..], p, top)
  {
    ghost var v := a[p];
    Antisymmetric(cmp, v, v);
    hide TotalPreorder, Rearranged;
    plt, pi, pgt := p + 1, p + 1, top;
    var pj: nat := top;
    Same(a[..], p, top);
    while true
      invariant Parts(cmp, a[..], v, p, plt, pi, pj, pgt, top) && Rearranged(old(a[..]), a[..], p, top)
      decreases pj - pi
    {
      ghost var s := a[..];
      plt, pi := ScanUp(a, cmp, p, plt, pi, pj, pgt, top);
      Chain(old(a[..]), s, a[..], p, top);
      ghost var t := a[..];
      var next;
      next, pgt := ScanDown(a, cmp, p, plt, pi, pj, pgt, top);
      Chain(old(a[..]), t, a[..], p, top);
      if pi >= next {
        LastSeen(cmp, a[..], v, p, plt, pi, next + 1, pgt, top);
        return;
      }
      ghost var u := a[..];
      Swap(a, pi, next, p, top);
      assert a[..] == u[pi := u[next]][next := u[pi]];
      Exchanged(cmp, u, a[..], v, p, plt, pi, next, pgt, top);
      Chain(old(a[..]), u, a[..], p, top);
      pi, pj := pi + 1, next;
    }
  }

  /** swap_block: two disjoint blocks exchanged element by element. */
  method SwapBlock<T(!new)>(a: array<T>, x: nat, y: nat, span: nat, ghost lo: nat, ghost hi: nat)
    requires lo <= x && x + span <= y && y + span <= hi <= a.Length
    modifies a
    ensures Rearranged(old(a[..]), a[..], lo, hi)
    ensures forall k :: 0 <= k < a.Length ==>
              a[k] == if x <= k < x + span then old(a[k + (y - x)])
                      else if y <= k < y + span then old(a[k - (y - x)]) else old(a[k])
  {
    var i := 0;
    Same(a[..], lo, hi);
    while i < span
      invariant 0 <= i <= span && Rearranged(old(a[..]), a[..], lo, hi)
      invariant forall k :: 0 <= k < a.Length ==>
                  a[k] == if x <= k < x + i then old(a[k + (y - x)])
                          else if y <= k < y + i then old(a[k - (y - x)]) else old(a[k])
    {
      ghost var s := a[..];
      Swap(a, x + i, y + i, lo, hi);
      Chain(old(a[..]), s, a[..], lo, hi);
      i := i + 1;
    }
  }

  /** Elements before the pivot, equivalent to it, after it. */
  ghost predicate ThreeWay<T(!new)>(cmp: Compare<T>, s: seq<T>, v: T, p: nat, mid: nat, end: nat, top: nat) {
    Less(cmp, s, v, p, mid) && Equal(cmp, s, v, mid, end) && Greater(cmp, s, v, end, top)
  }

  /** The elements equivalent to the pivot at the left end are moved behind the smaller ones. */
  method MoveLeft<T(!new)>(a: array<T>, ghost cmp: Compare<T>, ghost v: T, p: nat, plt: nat, pi: nat, ghost pgt: nat,
                           top: nat)
      returns (mid: nat)
    requires top <= a.Length && Parted(cmp, a[..], v, p, plt, pi, pgt, top)
    modifies a
    ensures p <= mid < pi && mid - p == pi - plt && Rearranged(old(a[..]), a[..], p, top)
    ensures Less(cmp, a[..], v, p, mid) && Equal(cmp, a[..], v, mid, pi)
    ensures Greater(cmp, a[..], v, pi, pgt) && Equal(cmp, a[..], v, pgt, top)
  {
    var span := Min(plt - p, pi - plt);
    SwapBlock(a, p, pi - span, span, p, top);
    mid := p + (pi - plt);
  }

  /** Those at the right end are moved before the greater ones. */
  method MoveRight<T(!new)>(a: array<T>, ghost cmp: Compare<T>, ghost v: T, ghost p: nat, ghost mid: nat, pi: nat,
                            pgt: nat, top: nat) returns (end: nat)
    requires p <= mid < pi <= pgt <= top <= a.Length && Less(cmp, a[..], v, p, mid) && Equal(cmp, a[..], v, mid, pi)
    requires Greater(cmp, a[..], v, pi, pgt) && Equal(cmp, a[..], v, pgt, top)
    modifies a
    ensures pi <= end <= top && top - end == pgt - pi
    ensures ThreeWay(cmp, a[..], v, p, mid, end, top) && Rearranged(old(a[..]), a[..], p, top)
  {
    var span := Min(top - pgt, pgt - pi);
    SwapBlock(a, pi, top - span, span, p, top);
    end := top - (pgt - pi);
  }

  predicate Between<T(!new)>(cmp: Compare<T>, x: T, m: T, y: T) {
    (LE(cmp, x, m) && LE(cmp, m, y)) || (LE(cmp, y, m) && LE(cmp, m, x))
  }

  /** med3: the position of a median of three. */
  method Median<T(!new)>(a: array<T>, cmp: Compare<T>, x: nat, y: nat, z: nat) returns (m: nat)
    requires x < a.Length && y < a.Length && z < a.Length && TotalPreorder(cmp)
    ensures (m == x && Between(cmp, a[y], a[x], a[z])) || (m == y && Between(cmp, a[x], a[y], a[z]))
            || (m == z && Between(cmp, a[x], a[z], a[y]))
  {
    Antisymmetric(cmp, a[x], a[y]);
    Antisymmetric(cmp, a[y], a[z]);
    Antisymmetric(cmp, a[x], a[z]);
    hide TotalPreorder;
    m := if cmp(a[x], a[y]) < 0 then (if cmp(a[y], a[z]) < 0 then y else if cmp(a[x], a[z]) < 0 then z else x)
         else (if cmp(a[y], a[z]) > 0 then y else if cmp(a[x], a[z]) < 0 then x else z);
  }

  /** One round of the sort: a pivot is chosen and the range partitioned around it. */
  method Partition<T(!new)>(a: array<T>, cmp: Compare<T>, p: nat, n: nat) returns (lt: nat, gt: nat, ghost v: T)
    requires TotalPreorder(cmp) && p + n <= a.Length && n > 6
    modifies a
    ensures lt < gt <= n && ThreeWay(cmp, a[..], v, p, p + lt, p + gt, p + n)
    ensures Rearranged(old(a[..]), a[..], p, p + n)
  {
    hide TotalPreorder, Rearranged, Parted, ThreeWay, Less, Equal, Greater;
    var top, m4 := p + n, n / 4;
    var m := Median(a, cmp, p + m4, p + 2 * m4, p + 3 * m4);
    Swap(a, p, m, p, top);
    ghost var s := a[..];
    v := a[p];
    var plt, pi, pgt := PartitionLoop(a, cmp, p, top);
    Chain(old(a[..]), s, a[..], p, top);
    ghost var t := a[..];
    PartedBounds(cmp, t, v, p, plt, pi, pgt, top);
    var mid := MoveLeft(a, cmp, v, p, plt, pi, pgt, top);
    Chain(old(a[..]), t, a[..], p, top);
    ghost var u := a[..];
    var end := MoveRight(a, cmp, v, p, mid, pi, pgt, top);
    Chain(old(a[..]), u, a[..], p, top);
    lt, gt := mid - p, end - p;
  }

  lemma PartedBounds<T(!new)>(cmp: Compare<T>, s: seq<T>, v: T, p: nat, plt: nat, pi: nat, pgt: nat, top: nat)
    requires Parted(cmp, s, v, p, plt, pi, pgt, top)
    ensures p < plt <= pi <= pgt <= top
  {
  }
}
