/** heapsortx, the fallback of the sort, on the range of an array that starts at p. */
module HeapSort {
  import opened SortSpec

  function Parent(c: nat): (r: nat)
    requires c > 0
  {
    (c - 1) / 2
  }

  /** The element at heap position c does not exceed its parent. */
  ghost predicate Below<T(!new)>(cmp: Compare<T>, s: seq<T>, p: nat, c: nat)
    requires 0 < c && p + c < |s|
  {
    LE(cmp, s[p + c], s[p + Parent(c)])
  }

  /** A heap of n elements at and below positions whose parent is `from` or later. */
  ghost predicate Heap<T(!new)>(cmp: Compare<T>, s: seq<T>, p: nat, from: nat, n: nat)
    requires p + n <= |s|
  {
    forall c {:trigger Below(cmp, s, p, c)} :: 0 < c < n && Parent(c) >= from ==> Below(cmp, s, p, c)
  }

  /** A heap except perhaps between r and its children, which do not exceed the parent of r. */
  ghost predicate Hole<T(!new)>(cmp: Compare<T>, s: seq<T>, p: nat, from: nat, r: nat, n: nat)
    requires p + n <= |s| && from <= r < n
  {
    && (forall c {:trigger Below(cmp, s, p, c)} ::
          0 < c < n && Parent(c) >= from && Parent(c) != r ==> Below(cmp, s, p, c))
    && (r > from ==> forall c {:trigger Below(cmp, s, p, c)} ::
          0 < c < n && Parent(c) == r && Parent(r) >= from ==> LE(cmp, s[p + c], s[p + Parent(r)]))
  }

  lemma HoleStarts<T(!new)>(cmp: Compare<T>, s: seq<T>, p: nat, from: nat, n: nat)
    requires p + n <= |s| && from < n && Heap(cmp, s, p, from + 1, n)
    ensures Hole(cmp, s, p, from, from, n)
  {
  }

  /** The hole closes when its children are in order with it. */
  lemma HoleCloses<T(!new)>(cmp: Compare<T>, s: seq<T>, p: nat, from: nat, r: nat, n: nat)
    requires p + n <= |s| && from <= r < n && Hole(cmp, s, p, from, r, n)
    requires forall c {:trigger Below(cmp, s, p, c)} :: 0 < c < n && Parent(c) == r ==> Below(cmp, s, p, c)
    ensures Heap(cmp, s, p, from, n)
  {
  }

  /** Exchanging the hole with its larger child moves it down. */
  lemma HoleMoves<T(!new)>(cmp: Compare<T>, s: seq<T>, t: seq<T>, p: nat, from: nat, r: nat, c: nat, n: nat)
    requires TotalPreorder(cmp) && p + n <= |s| && from <= r < c < n && Parent(c) == r && Hole(cmp, s, p, from, r, n)
    requires LE(cmp, s[p + r], s[p + c])
    requires forall d :: 0 < d < n && Parent(d) == r ==> LE(cmp, s[p + d], s[p + c])
    requires t == s[p + r := s[p + c]][p + c := s[p + r]]
    ensures Hole(cmp, t, p, from, c, n)
  {
    forall d | 0 < d < n && Parent(d) >= from && Parent(d) != c ensures Below(cmp, t, p, d) {
      if Parent(d) == r {
      } else if d == r {
        assert Below(cmp, s, p, c) == LE(cmp, s[p + c], s[p + Parent(c)]);
      } else {
        assert Below(cmp, s, p, d);
      }
    }
    forall d | 0 < d < n && Parent(d) == c ensures LE(cmp, t[p + d], t[p + r]) {
      assert Below(cmp, s, p, d);
    }
  }

  /** The loop that sifts one element down. */
  method SiftDown<T(!new)>(a: array<T>, cmp: Compare<T>, p: nat, from: nat, n: nat)
    requires TotalPreorder(cmp) && p + n <= a.Length && from < n && Heap(cmp, a[..], p, from + 1, n)
    modifies a
    ensures Heap(cmp, a[..], p, from, n) && Rearranged(old(a[..]), a[..], p, p + n)
  {
    hide TotalPreorder, Hole, Heap, Rearranged;
    var r := from;
    HoleStarts(cmp, a[..], p, from, n);
    Same(a[..], p, p + n);
    while 2 * r + 1 < n
      invariant from <= r < n && Hole(cmp, a[..], p, from, r, n) && Rearranged(old(a[..]), a[..], p, p + n)
    {
      ghost var s := a[..];
      var c := LargerChild(a, cmp, p, r, n);
      Antisymmetric(cmp, a[p + r], a[p + c]);
      if cmp(a[p + r], a[p + c]) > 0 {
        ChildrenBelow(cmp, s, p, r, c, n);
        HoleCloses(cmp, s, p, from, r, n);
        return;
      }
      Swap(a, p + r, p + c, p, p + n);
      assert a[..] == s[p + r := s[p + c]][p + c := s[p + r]];
      HoleMoves(cmp, s, a[..], p, from, r, c, n);
      Chain(old(a[..]), s, a[..], p, p + n);
      r := c;
    }
    NoChildren(cmp, a[..], p, r, n);
    HoleCloses(cmp, a[..], p, from, r, n);
  }

  lemma NoChildren<T(!new)>(cmp: Compare<T>, s: seq<T>, p: nat, r: nat, n: nat)
    requires p + n <= |s| && 2 * r + 1 >= n
    ensures forall c {:trigger Below(cmp, s, p, c)} :: 0 < c < n && Parent(c) == r ==> Below(cmp, s, p, c)
  {
  }

  method LargerChild<T(!new)>(a: array<T>, cmp: Compare<T>, p: nat, r: nat, n: nat) returns (c: nat)
    requires TotalPreorder(cmp) && p + n <= a.Length && 2 * r + 1 < n
    ensures r < c < n && Parent(c) == r
    ensures forall d :: 0 < d < n && Parent(d) == r ==> LE(cmp, a[p + d], a[p + c])
  {
    c := 2 * r + 1;
    Antisymmetric(cmp, a[p + c], a[p + c]);
    if c < n - 1 {
      Antisymmetric(cmp, a[p + c], a[p + c + 1]);
      Antisymmetric(cmp, a[p + c + 1], a[p + c + 1]);
      if cmp(a[p + c], a[p + c + 1]) <= 0 { c := c + 1; }
    }
    assert forall d :: 0 < d < n && Parent(d) == r ==> d == 2 * r + 1 || d == 2 * r + 2;
  }

  lemma ChildrenBelow<T(!new)>(cmp: Compare<T>, s: seq<T>, p: nat, r: nat, c: nat, n: nat)
    requires TotalPreorder(cmp) && p + n <= |s| && r < c < n && Parent(c) == r && LE(cmp, s[p + c], s[p + r])
    requires forall d :: 0 < d < n && Parent(d) == r ==> LE(cmp, s[p + d], s[p + c])
    ensures forall d {:trigger Below(cmp, s, p, d)} :: 0 < d < n && Parent(d) == r ==> Below(cmp, s, p, d)
  {
    forall d | 0 < d < n && Parent(d) == r ensures Below(cmp, s, p, d) {
      Transitive(cmp, s[p + d], s[p + c], s[p + r]);
    }
  }

  /** The root of a heap is a greatest element. */
  lemma {:induction false} RootIsGreatest<T(!new)>(cmp: Compare<T>, s: seq<T>, p: nat, n: nat, k: nat)
    requires TotalPreorder(cmp) && p + n <= |s| && k < n && Heap(cmp, s, p, 0, n)
    ensures LE(cmp, s[p + k], s[p])
  {
    if k == 0 {
      Antisymmetric(cmp, s[p], s[p]);
    } else {
      assert Below(cmp, s, p, k);
      RootIsGreatest(cmp, s, p, n, Parent(k));
      Transitive(cmp, s[p + k], s[p + Parent(k)], s[p]);
    }
  }

  /** The first m elements of the range are a heap, the others are in order and not before them. */
  ghost predicate HeapThenSorted<T(!new)>(cmp: Compare<T>, s: seq<T>, p: nat, m: nat, n: nat)
    requires m <= n && p + n <= |s|
  {
    && Heap(cmp, s, p, 0, m) && Split(cmp, s, p, p + m, p + n) && Sorted(cmp, s, p + m, p + n)
  }

  /** Elements before `mid` are not after those from it. */
  ghost predicate Split<T(!new)>(cmp: Compare<T>, s: seq<T>, lo: nat, mid: nat, hi: nat)
    requires lo <= mid <= hi <= |s|
  {
    forall i, j :: lo <= i < mid <= j < hi ==> LE(cmp, s[i], s[j])
  }

  /** Moving the root behind the heap. */
  lemma RootMoves<T(!new)>(cmp: Compare<T>, s: seq<T>, t: seq<T>, p: nat, m: nat, n: nat)
    requires TotalPreorder(cmp) && 1 < m <= n && p + n <= |s| && HeapThenSorted(cmp, s, p, m, n)
    requires t == s[p := s[p + m - 1]][p + m - 1 := s[p]]
    ensures Heap(cmp, t, p, 1, m - 1) && Split(cmp, t, p, p + m - 1, p + n) && Sorted(cmp, t, p + m - 1, p + n)
  {
    forall c | 0 < c < m - 1 && Parent(c) >= 1 ensures Below(cmp, t, p, c) {
      assert Below(cmp, s, p, c);
    }
    forall i, j | p <= i < p + m - 1 <= j < p + n ensures LE(cmp, t[i], t[j]) {
      RootIsGreatest(cmp, s, p, m, if i == p then m - 1 else i - p);
    }
  }

  /** Rearranging the part before `mid` keeps the split. */
  lemma SplitStays<T(!new)>(cmp: Compare<T>, s: seq<T>, t: seq<T>, lo: nat, mid: nat, hi: nat)
    requires lo <= mid <= hi <= |s| && Rearranged(s, t, lo, mid) && Split(cmp, s, lo, mid, hi)
      && Sorted(cmp, s, mid, hi)
    ensures Split(cmp, t, lo, mid, hi) && Sorted(cmp, t, mid, hi)
  {
    forall j | mid <= j < hi ensures t[j] == s[j] {
      assert t[mid..][j - mid] == s[mid..][j - mid];
    }
    forall i, j | lo <= i < mid <= j < hi ensures LE(cmp, t[i], t[j]) {
      var k := StaysInside(s, t, lo, mid, i);
    }
  }

  /** heapsortx. */
  method Heapsort<T(!new)>(a: array<T>, cmp: Compare<T>, p: nat, n: nat)
    requires TotalPreorder(cmp) && p + n <= a.Length
    modifies a
    ensures Sorted(cmp, a[..], p, p + n) && Rearranged(old(a[..]), a[..], p, p + n)
  {
    hide TotalPreorder, Heap;
    Same(a[..], p, p + n);
    if n <= 1 {
      return;
    }
    BuildHeap(a, cmp, p, n);
    var m := n;
    while m > 1
      invariant 1 <= m <= n && HeapThenSorted(cmp, a[..], p, m, n) && Rearranged(old(a[..]), a[..], p, p + n)
    {
      ExtractRoot(a, cmp, p, m, n, old(a[..]));
      m := m - 1;
    }
  }

  method ExtractRoot<T(!new)>(a: array<T>, cmp: Compare<T>, p: nat, m: nat, n: nat, ghost was: seq<T>)
    requires TotalPreorder(cmp) && 1 < m <= n && p + n <= a.Length
    requires HeapThenSorted(cmp, a[..], p, m, n) && Rearranged(was, a[..], p, p + n)
    modifies a
    ensures HeapThenSorted(cmp, a[..], p, m - 1, n) && Rearranged(was, a[..], p, p + n)
  {
    hide TotalPreorder, Heap, Rearranged, Split, Sorted;
    ghost var s := a[..];
    Swap(a, p, p + m - 1, p, p + n);
    ghost var t := a[..];
    assert t == s[p := s[p + m - 1]][p + m - 1 := s[p]];
    RootMoves(cmp, s, t, p, m, n);
    Chain(was, s, t, p, p + n);
    SiftDown(a, cmp, p, 0, m - 1);
    SplitStays(cmp, t, a[..], p, p + m - 1, p + n);
    Widen(t, a[..], p, p + (m - 1), p, p + n);
    Chain(was, t, a[..], p, p + n);
  }

  method BuildHeap<T(!new)>(a: array<T>, cmp: Compare<T>, p: nat, n: nat)
    requires TotalPreorder(cmp) && p + n <= a.Length && n > 1
    modifies a
    ensures Heap(cmp, a[..], p, 0, n) && Rearranged(old(a[..]), a[..], p, p + n)
  {
    hide TotalPreorder;
    var i := n / 2;
    Same(a[..], p, p + n);
    while i > 0
      invariant 0 <= i <= n / 2 && Heap(cmp, a[..], p, i, n) && Rearranged(old(a[..]), a[..], p, p + n)
    {
      i := i - 1;
      ghost var s := a[..];
      SiftDown(a, cmp, p, i, n);
      Chain(old(a[..]), s, a[..], p, p + n);
    }
  }
}
