/** array_qsort of container_binary_array.c, in place. */
module QuickSort {
  import opened Ordered

  ghost predicate Below<T>(cmp: (T, T) -> int, s: seq<T>, m: T) {
    forall k | 0 <= k < |s| :: cmp(s[k], m) <= 0
  }

  ghost predicate Above<T>(cmp: (T, T) -> int, s: seq<T>, m: T) {
    forall k | 0 <= k < |s| :: cmp(m, s[k]) <= 0
  }

  ghost predicate Perm<T>(s: seq<T>, t: seq<T>) {
    multiset(s) == multiset(t) && |s| == |t|
  }

  /** Only the stretch from lo up to hi changes, and only in its order. */
  ghost predicate Rearranged<T>(was: seq<T>, now: seq<T>, lo: nat, hi: nat) {
    |was| == |now| && lo <= hi <= |was| && Perm(now[lo..hi], was[lo..hi]) && now[..lo] == was[..lo]
      && now[hi..] == was[hi..]
  }

  lemma RearrangedTrans<T>(p: seq<T>, q: seq<T>, r: seq<T>, lo: nat, hi: nat)
    requires Rearranged(p, q, lo, hi) && Rearranged(q, r, lo, hi)
    ensures Rearranged(p, r, lo, hi)
  {
  }

  lemma RearrangedSelf<T>(p: seq<T>, lo: nat, hi: nat)
    requires lo <= hi <= |p|
    ensures Rearranged(p, p, lo, hi)
  {
  }

  /** A bound on all entries survives any rearrangement. */
  lemma PermBounds<T>(cmp: (T, T) -> int, s: seq<T>, t: seq<T>, m: T)
    requires Perm(t, s)
    ensures Below(cmp, s, m) ==> Below(cmp, t, m)
    ensures Above(cmp, s, m) ==> Above(cmp, t, m)
  {
    forall k | 0 <= k < |t| ensures t[k] in s {
      assert t[k] in multiset(t);
    }
  }

  lemma PermJoin<T>(a: seq<T>, b: seq<T>, c: seq<T>, d: seq<T>)
    requires Perm(a, c) && Perm(b, d)
    ensures Perm(a + b, c + d)
  {
  }

  /** Sorted pieces around a pivot are sorted together. */
  lemma SortedJoin<T(!new)>(cmp: (T, T) -> int, x: seq<T>, y: seq<T>, m: T)
    requires TotalPreorder(cmp) && Sorted(cmp, x) && Sorted(cmp, y) && Below(cmp, x, m) && Above(cmp, y, m)
    ensures Sorted(cmp, x + y)
  {
    hide TotalPreorder;
    var s := x + y;
    forall p, q | 0 <= p < q < |s| ensures cmp(s[p], s[q]) <= 0 {
      if p < |x| <= q { Trans(cmp, x[p], m, y[q - |x|]); }
    }
  }

  /** Entries on both sides of the pivot at once. */
  lemma EqualSorted<T(!new)>(cmp: (T, T) -> int, y: seq<T>, m: T)
    requires TotalPreorder(cmp) && Below(cmp, y, m) && Above(cmp, y, m)
    ensures Sorted(cmp, y)
  {
    hide TotalPreorder;
    forall p, q | 0 <= p < q < |y| ensures cmp(y[p], y[q]) <= 0 { Trans(cmp, y[p], m, y[q]); }
  }

  /** Exchanging two entries rearranges. */
  lemma SwapPerm<T>(s: seq<T>, i: nat, j: nat)
    requires i < |s| && j < |s|
    ensures Perm(s[i := s[j]][j := s[i]], s)
  {
  }

  lemma SwapRearranges<T>(was: seq<T>, now: seq<T>, lo: nat, hi: nat, i: nat, j: nat)
    requires lo <= i < j < hi <= |was| && now == was[i := was[j]][j := was[i]]
    ensures Rearranged(was, now, lo, hi)
  {
    hide Perm;
    var s := was[lo..hi];
    SwapPerm(s, i - lo, j - lo);
    SwapInside(was, now, lo, hi, i, j);
    UpdateOutside(was, i, was[j], lo, hi);
    UpdateOutside(was[i := was[j]], j, was[i], lo, hi);
  }

  lemma SwapInside<T>(was: seq<T>, now: seq<T>, lo: nat, hi: nat, i: nat, j: nat)
    requires lo <= i < j < hi <= |was| && now == was[i := was[j]][j := was[i]]
    ensures var s := was[lo..hi]; now[lo..hi] == s[i - lo := s[j - lo]][j - lo := s[i - lo]]
  {
    var s := was[lo..hi];
    var t := s[i - lo := s[j - lo]][j - lo := s[i - lo]];
    forall k | 0 <= k < hi - lo ensures now[lo..hi][k] == t[k] {
      assert now[lo..hi][k] == now[lo + k];
    }
  }

  /** A change inside a stretch leaves the rest. */
  lemma UpdateOutside<T>(s: seq<T>, i: nat, x: T, lo: nat, hi: nat)
    requires lo <= i < hi <= |s|
    ensures s[i := x][..lo] == s[..lo] && s[i := x][hi..] == s[hi..]
  {
  }

  /** Scan up from i to the first entry not below the pivot; one exists. */
  method ScanUp<T(!new)>(cmp: (T, T) -> int, a: array<T>, i0: nat, last: nat, m: T) returns (i: nat)
    requires i0 <= last < a.Length
    requires exists k | i0 <= k <= last :: cmp(a[k], m) >= 0
    ensures i0 <= i <= last && cmp(a[i], m) >= 0
    ensures forall k | i0 <= k < i :: cmp(a[k], m) < 0
  {
    i := i0;
    while cmp(a[i], m) < 0 && i < last
      invariant i0 <= i <= last
      invariant forall k | i0 <= k < i :: cmp(a[k], m) < 0
      decreases last - i
    {
      i := i + 1;
    }
  }

  /** Scan down from j to the first entry not above the pivot; one exists. */
  method ScanDown<T(!new)>(cmp: (T, T) -> int, a: array<T>, first: nat, j0: nat, m: T) returns (j: nat)
    requires first <= j0 < a.Length
    requires exists k | first <= k <= j0 :: cmp(m, a[k]) >= 0
    ensures first <= j <= j0 && cmp(m, a[j]) >= 0
    ensures forall k | j < k <= j0 :: cmp(m, a[k]) < 0
  {
    j := j0;
    while cmp(m, a[j]) < 0 && j > first
      invariant first <= j <= j0
      invariant forall k | j < k <= j0 :: cmp(m, a[k]) < 0
      decreases j
    {
      j := j - 1;
    }
  }

  /** What the scans have established: below i nothing exceeds the pivot, above j nothing is under it. */
  ghost predicate Around<T>(cmp: (T, T) -> int, s: seq<T>, first: nat, last: nat, i: int, j: int, m: T) {
    first <= i <= last + 1 && first - 1 <= j <= last < |s| &&
    (forall k | first <= k < i :: cmp(s[k], m) <= 0) &&
    (forall k | j < k <= last :: cmp(m, s[k]) <= 0)
  }

  /** Both scans will stop inside the stretch. */
  ghost predicate Guarded<T>(cmp: (T, T) -> int, s: seq<T>, first: nat, last: nat, i: int, j: int, m: T) {
    first <= i <= last < |s| && first <= j <= last &&
    (exists k | i <= k <= last :: cmp(s[k], m) >= 0) &&
    (exists k | first <= k <= j :: cmp(m, s[k]) >= 0)
  }

  lemma AfterScans<T(!new)>(cmp: (T, T) -> int, s: seq<T>, first: nat, last: nat, i0: int, j0: int, i: int, j: int,
                            m: T)
    requires TotalPreorder(cmp) && Around(cmp, s, first, last, i0, j0, m) && i0 <= i <= last && first <= j <= j0
    requires cmp(s[i], m) >= 0 && forall k | i0 <= k < i :: cmp(s[k], m) < 0
    requires cmp(m, s[j]) >= 0 && forall k | j < k <= j0 :: cmp(m, s[k]) < 0
    ensures Around(cmp, s, first, last, i, j, m)
    ensures cmp(m, s[i]) <= 0 && cmp(s[j], m) <= 0
    ensures i == j ==> Around(cmp, s, first, last, i + 1, j - 1, m)
  {
    Flip(cmp, s[i], m);
    Flip(cmp, s[j], m);
  }

  lemma AfterSwap<T(!new)>(cmp: (T, T) -> int, s: seq<T>, t: seq<T>, first: nat, last: nat, i: int, j: int, m: T)
    requires TotalPreorder(cmp) && Around(cmp, s, first, last, i, j, m) && first <= i < j <= last
    requires cmp(m, s[i]) <= 0 && cmp(s[j], m) <= 0 && t == s[i := s[j]][j := s[i]]
    ensures Around(cmp, t, first, last, i + 1, j - 1, m)
    ensures Guarded(cmp, t, first, last, i + 1, j - 1, m)
  {
    Flip(cmp, t[i], m);
    Flip(cmp, t[j], m);
    assert cmp(t[j], m) >= 0 && cmp(m, t[i]) >= 0;
  }

  /** Before the first turn nothing is known, and the pivot itself stops both scans. */
  lemma AtFirst<T(!new)>(cmp: (T, T) -> int, s: seq<T>, first: nat, last: nat, half: nat, m: T)
    requires TotalPreorder(cmp) && first <= half <= last < |s| && s[half] == m
    ensures Around(cmp, s, first, last, first, last, m) && Guarded(cmp, s, first, last, first, last, m)
  {
    Flip(cmp, m, m);
    assert cmp(s[half], m) >= 0 && cmp(m, s[half]) >= 0;
  }

  lemma InBounds<T>(cmp: (T, T) -> int, s: seq<T>, first: nat, last: nat, i: int, j: int, m: T)
    requires Guarded(cmp, s, first, last, i, j, m)
    ensures first <= i <= last && first <= j <= last
  {
  }

  /** One turn of the do-while loop; in the first turn the scans cannot pass the pivot's own place. */
  method Turn<T(!new)>(cmp: (T, T) -> int, a: array<T>, first: nat, last: nat, i0: nat, j0: nat, m: T, ghost half: int)
    returns (i: int, j: int)
    requires TotalPreorder(cmp) && Around(cmp, a[..], first, last, i0, j0, m)
             && Guarded(cmp, a[..], first, last, i0, j0, m)
    modifies a
    ensures Around(cmp, a[..], first, last, i, j, m) && i0 <= i && j <= j0
    ensures i <= j ==> Guarded(cmp, a[..], first, last, i, j, m)
    ensures i0 <= half <= j0 && old(a[half]) == m ==> i0 < i && j < j0
    ensures i <= j ==> i0 < i && j < j0
    ensures Rearranged(old(a[..]), a[..], first, last + 1)
  {
    hide TotalPreorder, Rearranged;
    Flip(cmp, m, m);
    i := ScanUp(cmp, a, i0, last, m);
    j := ScanDown(cmp, a, first, j0, m);
    AfterScans(cmp, a[..], first, last, i0, j0, i, j, m);
    RearrangedSelf(a[..], first, last + 1);
    if i < j {
      ghost var was := a[..];
      Exchange(a, first, last, i, j);
      AfterSwap(cmp, was, a[..], first, last, i, j, m);
      i, j := i + 1, j - 1;
    } else if i == j {
      i, j := i + 1, j - 1;
    }
  }

  /** The do-while loop: afterwards everything up to j is at most the pivot and everything from i on is at least the
      pivot, both sides are shorter than the whole, and what lies between is equal to the pivot. */
  method Partition<T(!new)>(cmp: (T, T) -> int, a: array<T>, first: nat, last: nat) returns (i: int, j: int, m: T)
    requires TotalPreorder(cmp) && first < last < a.Length
    modifies a
    ensures first < i && j < last && j < i && Around(cmp, a[..], first, last, i, j, m)
    ensures Rearranged(old(a[..]), a[..], first, last + 1)
  {
    hide TotalPreorder, Rearranged, Around, Guarded;
    var half := (first + last) / 2;
    m := a[half];
    AtFirst(cmp, a[..], first, last, half, m);
    i, j := Turn(cmp, a, first, last, first, last, m, half);
    while i <= j
      invariant first < i && j < last && Around(cmp, a[..], first, last, i, j, m)
      invariant i <= j ==> Guarded(cmp, a[..], first, last, i, j, m)
      invariant Rearranged(old(a[..]), a[..], first, last + 1)
      decreases j - i
    {
      ghost var was := a[..];
      InBounds(cmp, was, first, last, i, j, m);
      i, j := Turn(cmp, a, first, last, i, j, m, -1);
      RearrangedTrans(old(a[..]), was, a[..], first, last + 1);
    }
  }

  method Exchange<T>(a: array<T>, first: nat, last: nat, i: nat, j: nat)
    requires first <= i < j <= last < a.Length
    modifies a
    ensures a[..] == old(a[..])[i := old(a[j])][j := old(a[i])]
    ensures Rearranged(old(a[..]), a[..], first, last + 1)
  {
    hide Rearranged;
    ghost var was := a[..];
    a[i], a[j] := a[j], a[i];
    SwapRearranges(was, a[..], first, last + 1, i, j);
  }

  /** A stretch outside the part that changed. */
  lemma Untouched<T>(was: seq<T>, now: seq<T>, lo: nat, hi: nat, p: nat, q: nat)
    requires |was| == |now| && lo <= hi <= |was| && p <= q <= |was| && (q <= lo || hi <= p)
    requires now[..lo] == was[..lo] && now[hi..] == was[hi..]
    ensures now[p..q] == was[p..q]
  {
    forall k | p <= k < q ensures now[k] == was[k] {
      if q <= lo {
        assert now[..lo][k] == was[..lo][k];
      } else {
        assert now[hi..][k - hi] == was[hi..][k - hi];
      }
    }
  }

  /** Two stretches sorted one after the other, seen together. */
  lemma TwoStretches<T>(p: seq<T>, q: seq<T>, r: seq<T>, first: nat, lo: nat, hi: nat, end: nat)
    requires |p| == |q| == |r| && first <= lo <= hi <= end <= |p|
    requires q[..first] == p[..first] && q[lo..] == p[lo..] && r[..hi] == q[..hi] && r[end..] == q[end..]
    ensures q[hi..end] == p[hi..end]
    ensures r[first..end] == q[first..lo] + p[lo..hi] + r[hi..end]
    ensures p[first..end] == p[first..lo] + p[lo..hi] + p[hi..end]
    ensures r[..first] == p[..first] && r[end..] == p[end..]
  {
    Untouched(p, q, first, lo, hi, end);
    Untouched(p, q, first, lo, lo, hi);
    Untouched(p, q, first, lo, end, |p|);
    Untouched(q, r, hi, end, lo, hi);
    Untouched(q, r, hi, end, first, lo);
    Untouched(q, r, hi, end, 0, first);
    assert r[first..end] == r[first..lo] + r[lo..hi] + r[hi..end];
  }

  /** One side of the pivot, sorted when it has more than one entry. */
  method Side<T(!new)>(cmp: (T, T) -> int, a: array<T>, lo: nat, hi: nat, ghost size: nat)
    requires TotalPreorder(cmp) && lo <= hi <= a.Length && hi - lo < size
    modifies a
    ensures Sorted(cmp, a[..][lo..hi]) && Rearranged(old(a[..]), a[..], lo, hi)
    decreases size, 0
  {
    hide TotalPreorder, Perm;
    if lo + 1 < hi {
      Sort(cmp, a, lo, hi - 1);
    } else {
      RearrangedSelf(a[..], lo, hi);
    }
  }

  /** array_qsort sorts the stretch from first to last and only rearranges it. */
  method Sort<T(!new)>(cmp: (T, T) -> int, a: array<T>, first: nat, last: nat)
    requires TotalPreorder(cmp) && first < last < a.Length
    modifies a
    ensures Sorted(cmp, a[..][first..last + 1])
    ensures Rearranged(old(a[..]), a[..], first, last + 1)
    decreases last + 1 - first, 1
  {
    hide TotalPreorder, Sorted, Rearranged, Below, Above;
    var i, j, m := Partition(cmp, a, first, last);
    var end := last + 1;
    ghost var p := a[..];
    Bounds(cmp, p, first, j + 1, i, end, m);
    Side(cmp, a, first, j + 1, end - first);
    ghost var q := a[..];
    Side(cmp, a, i, end, end - first);
    Assemble(cmp, p, q, a[..], first, j + 1, i, end, m);
    RearrangedTrans(old(a[..]), p, a[..], first, end);
  }

  lemma Bounds<T>(cmp: (T, T) -> int, p: seq<T>, first: nat, lo: nat, hi: nat, end: nat, m: T)
    requires first <= lo <= hi <= end <= |p| && 0 < end && Around(cmp, p, first, end - 1, hi, lo - 1, m)
    ensures Below(cmp, p[first..lo], m) && Above(cmp, p[hi..end], m)
    ensures Below(cmp, p[lo..hi], m) && Above(cmp, p[lo..hi], m)
  {
  }

  /** Both sides sorted makes the whole sorted. */
  lemma Assemble<T(!new)>(cmp: (T, T) -> int, p: seq<T>, q: seq<T>, r: seq<T>, first: nat, lo: nat, hi: nat, end: nat,
                          m: T)
    requires TotalPreorder(cmp) && first <= lo <= hi <= end <= |p|
    requires Below(cmp, p[first..lo], m) && Above(cmp, p[hi..end], m) && Below(cmp, p[lo..hi], m)
             && Above(cmp, p[lo..hi], m)
    requires Rearranged(p, q, first, lo) && Sorted(cmp, q[first..lo])
    requires Rearranged(q, r, hi, end) && Sorted(cmp, r[hi..end])
    ensures Sorted(cmp, r[first..end]) && Rearranged(p, r, first, end)
  {
    hide TotalPreorder, Sorted, Below, Above, Perm;
    TwoStretches(p, q, r, first, lo, hi, end);
    var x, y, z := q[first..lo], p[lo..hi], r[hi..end];
    PermBounds(cmp, p[first..lo], x, m);
    PermBounds(cmp, p[hi..end], z, m);
    EqualSorted(cmp, y, m);
    SortedAround(cmp, x, y, z, m);
    PermAround(p[first..lo], y, p[hi..end], x, z);
  }

  lemma SortedAround<T(!new)>(cmp: (T, T) -> int, x: seq<T>, y: seq<T>, z: seq<T>, m: T)
    requires TotalPreorder(cmp) && Sorted(cmp, x) && Sorted(cmp, y) && Sorted(cmp, z)
    requires Below(cmp, x, m) && Below(cmp, y, m) && Above(cmp, y, m) && Above(cmp, z, m)
    ensures Sorted(cmp, x + y + z)
  {
    hide TotalPreorder, Sorted;
    SortedJoin(cmp, x, y, m);
    SortedJoin(cmp, x + y, z, m);
  }

  lemma PermAround<T>(x: seq<T>, y: seq<T>, z: seq<T>, x1: seq<T>, z1: seq<T>)
    requires Perm(x1, x) && Perm(z1, z)
    ensures Perm(x1 + y + z1, x + y + z)
  {
    PermJoin(x1, y, x, y);
    PermJoin(x1 + y, z1, x + y, z);
  }
}
