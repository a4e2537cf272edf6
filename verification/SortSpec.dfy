/** Orders, sorted ranges and rearrangements, for the sort in cutils.h. */
module SortSpec {

  type Compare<!T(!new)> = (T, T) -> int

  /** x comes before y or is equivalent to it. */
  predicate LE<T(!new)>(cmp: Compare<T>, x: T, y: T) {
    cmp(x, y) <= 0
  }

  /** A total preorder, given by the sign of a comparison. */
  ghost predicate TotalPreorder<T(!new)>(cmp: Compare<T>) {
    && (forall x, y :: cmp(x, y) < 0 <==> cmp(y, x) > 0)
    && (forall x, y, z :: LE(cmp, x, y) && LE(cmp, y, z) ==> LE(cmp, x, z))
  }

  lemma Antisymmetric<T(!new)>(cmp: Compare<T>, x: T, y: T)
    requires TotalPreorder(cmp)
    ensures cmp(x, y) < 0 <==> cmp(y, x) > 0
    ensures cmp(x, y) == 0 <==> cmp(y, x) == 0
    ensures LE(cmp, x, y) || LE(cmp, y, x)
  {
    assert cmp(x, y) < 0 <==> cmp(y, x) > 0;
    assert cmp(y, x) < 0 <==> cmp(x, y) > 0;
  }

  lemma Transitive<T(!new)>(cmp: Compare<T>, x: T, y: T, z: T)
    requires TotalPreorder(cmp) && LE(cmp, x, y) && LE(cmp, y, z)
    ensures LE(cmp, x, z)
  {
  }

  /** s[lo..hi] is in order. */
  ghost predicate Sorted<T(!new)>(cmp: Compare<T>, s: seq<T>, lo: nat, hi: nat)
    requires lo <= hi <= |s|
  {
    forall i, j :: lo <= i < j < hi ==> LE(cmp, s[i], s[j])
  }

  /** t is s with the elements of [lo, hi) rearranged. */
  ghost predicate Rearranged<T(!new)>(s: seq<T>, t: seq<T>, lo: nat, hi: nat) {
    && |s| == |t| && lo <= hi <= |s| && s[..lo] == t[..lo] && s[hi..] == t[hi..]
    && multiset(s) == multiset(t)
  }

  lemma Same<T(!new)>(s: seq<T>, lo: nat, hi: nat)
    requires lo <= hi <= |s|
    ensures Rearranged(s, s, lo, hi)
  {
  }

  lemma Chain<T(!new)>(s: seq<T>, t: seq<T>, u: seq<T>, lo: nat, hi: nat)
    requires Rearranged(s, t, lo, hi) && Rearranged(t, u, lo, hi)
    ensures Rearranged(s, u, lo, hi)
  {
  }

  lemma Widen<T(!new)>(s: seq<T>, t: seq<T>, lo: nat, hi: nat, lo1: nat, hi1: nat)
    requires Rearranged(s, t, lo, hi) && lo1 <= lo && hi <= hi1 <= |s|
    ensures Rearranged(s, t, lo1, hi1)
  {
    assert s[..lo1] == s[..lo][..lo1] && t[..lo1] == t[..lo][..lo1];
    assert s[hi1..] == s[hi..][hi1 - hi..] && t[hi1..] == t[hi..][hi1 - hi..];
  }

  lemma Slices<T(!new)>(s: seq<T>, lo: nat, hi: nat)
    requires lo <= hi <= |s|
    ensures multiset(s) == multiset(s[..lo]) + multiset(s[lo..hi]) + multiset(s[hi..])
  {
    assert s == s[..lo] + s[lo..hi] + s[hi..];
  }

  lemma Cancel<T(!new)>(a: multiset<T>, b: multiset<T>, c: multiset<T>, d: multiset<T>)
    requires a + b + d == a + c + d
    ensures b == c
  {
    assert (a + b + d) - a - d == b && (a + c + d) - a - d == c;
  }

  /** Every element of the range was in the range before. */
  lemma StaysInside<T(!new)>(s: seq<T>, t: seq<T>, lo: nat, hi: nat, k: nat) returns (j: nat)
    requires Rearranged(s, t, lo, hi) && lo <= k < hi
    ensures lo <= j < hi && t[k] == s[j]
  {
    Slices(s, lo, hi);
    Slices(t, lo, hi);
    Cancel(multiset(s[..lo]), multiset(s[lo..hi]), multiset(t[lo..hi]), multiset(s[hi..]));
    assert t[k] == t[lo..hi][k - lo];
    assert t[k] in multiset(s[lo..hi]);
    assert t[k] in s[lo..hi];
    j :| lo <= j < hi && s[j] == t[k];
  }

  lemma SwapRearranges<T(!new)>(s: seq<T>, i: nat, j: nat, lo: nat, hi: nat)
    requires lo <= i < hi <= |s| && lo <= j < hi
    ensures Rearranged(s, s[i := s[j]][j := s[i]], lo, hi)
  {
  }

  /** The abstract element swap. */
  method Swap<T(!new)>(a: array<T>, i: nat, j: nat, ghost lo: nat, ghost hi: nat)
    requires lo <= i < hi <= a.Length && lo <= j < hi
    modifies a
    ensures a[i] == old(a[j]) && a[j] == old(a[i])
    ensures forall k :: 0 <= k < a.Length && k != i && k != j ==> a[k] == old(a[k])
    ensures Rearranged(old(a[..]), a[..], lo, hi)
  {
    SwapRearranges(a[..], i, j, lo, hi);
    a[i], a[j] := a[j], a[i];
    assert a[..] == old(a[..])[i := old(a[j])][j := old(a[i])];
  }
}
