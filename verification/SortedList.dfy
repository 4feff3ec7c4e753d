/** container_list_ssll.c: a list kept sorted, or unsorted as a queue or a stack. */
module SortedList {
  import opened Sequences
  import opened Options
  import opened Ordered

  /** Where a walk for a key stops in a sorted sequence: at an equal entry or at the first greater one. */
  ghost predicate StopsAt<T>(cmp: (T, T) -> int, s: seq<T>, key: T, i: nat) {
    i <= |s| && (forall k | 0 <= k < i :: cmp(s[k], key) < 0) && (i < |s| ==> cmp(s[i], key) >= 0)
  }

  lemma StopSorted<T(!new)>(cmp: (T, T) -> int, s: seq<T>, key: T, i: nat)
    requires TotalPreorder(cmp) && Sorted(cmp, s) && StopsAt(cmp, s, key, i)
    ensures forall k | i <= k < |s| :: cmp(s[k], key) >= 0
    ensures i < |s| && cmp(s[i], key) > 0 ==> forall k | i <= k < |s| :: cmp(s[k], key) > 0
  {
    hide TotalPreorder;
    forall k | i < k < |s| ensures cmp(s[k], key) >= 0 && (cmp(s[i], key) > 0 ==> cmp(s[k], key) > 0) {
      Flip(cmp, s[i], key);
      Flip(cmp, s[k], key);
      Flip(cmp, key, s[i]);
      Trans(cmp, key, s[i], s[k]);
    }
  }

  /** An exact lookup in a sorted list is right exactly when the key is present or nothing greater is: otherwise the
      first greater entry is returned in place of none. */
  lemma SortedFind<T(!new)>(cmp: (T, T) -> int, s: seq<T>, key: T, i: nat)
    requires TotalPreorder(cmp) && Sorted(cmp, s) && StopsAt(cmp, s, key, i)
    ensures var r := if i < |s| then Some(s[i]) else None;
            IsFind(cmp, Entries(s), key, r) <==>
            (exists x | x in Entries(s) :: cmp(x, key) == 0) || (forall x | x in Entries(s) :: cmp(x, key) < 0)
    ensures i < |s| && cmp(s[i], key) != 0 ==> IsNext(cmp, Entries(s), Some(key), Some(s[i]))
  {
    hide TotalPreorder;
    StopSorted(cmp, s, key, i);
    if i < |s| && cmp(s[i], key) != 0 {
      forall y | y in Entries(s) && After(cmp, Some(key), y) ensures cmp(s[i], y) <= 0 {
        var k :| 0 <= k < |s| && s[k] == y;
        Flip(cmp, y, y);
      }
    }
    assert i < |s| ==> s[i] in Entries(s);
  }

  /** The next entry in a sorted list without equal keys. */
  lemma SortedNext<T(!new)>(cmp: (T, T) -> int, s: seq<T>, key: T, i: nat)
    requires TotalPreorder(cmp) && Sorted(cmp, s) && Distinct(cmp, s) && StopsAt(cmp, s, key, i)
    ensures var j := if i < |s| && cmp(s[i], key) == 0 then i + 1 else i;
            IsNext(cmp, Entries(s), Some(key), if j < |s| then Some(s[j]) else None)
  {
    hide TotalPreorder;
    var j := if i < |s| && cmp(s[i], key) == 0 then i + 1 else i;
    StopSorted(cmp, s, key, i);
    forall k | j <= k < |s| ensures cmp(s[k], key) > 0 && cmp(s[j], s[k]) <= 0 {
      Flip(cmp, s[k], s[k]);
      if j == i + 1 {
        Flip(cmp, s[i], key);
        Flip(cmp, s[k], key);
        Trans(cmp, key, s[i], s[k]);
      }
    }
  }

  lemma FirstIsNext<T(!new)>(cmp: (T, T) -> int, s: seq<T>)
    requires TotalPreorder(cmp) && Sorted(cmp, s)
    ensures IsNext(cmp, Entries(s), None, if s == [] then None else Some(s[0]))
  {
    hide TotalPreorder;
    forall y | y in Entries(s) ensures cmp(s[0], y) <= 0 {
      var k :| 0 <= k < |s| && s[k] == y;
      Flip(cmp, y, y);
    }
  }

  lemma InsertSorted<T(!new)>(cmp: (T, T) -> int, s: seq<T>, x: T, i: nat)
    requires TotalPreorder(cmp) && Sorted(cmp, s) && i <= |s|
    requires forall k | 0 <= k < i :: cmp(s[k], x) <= 0
    requires i < |s| ==> cmp(s[i], x) > 0
    ensures Sorted(cmp, Put(s, i, x))
  {
    hide TotalPreorder;
    forall k | i <= k < |s| ensures cmp(x, s[k]) <= 0 {
      Flip(cmp, s[i], x);
      Flip(cmp, x, s[i]);
      if i < k { Trans(cmp, x, s[i], s[k]); }
    }
  }

  lemma InsertEntries<T(!new)>(s: seq<T>, x: T, i: nat)
    requires i <= |s|
    ensures Entries(Put(s, i, x)) == Entries(s) + {x}
  {
    assert s == s[..i] + s[i..];
  }

  /** Keys stay unique exactly when the key inserted was absent. */
  lemma InsertDistinct<T(!new)>(cmp: (T, T) -> int, s: seq<T>, x: T, i: nat)
    requires TotalPreorder(cmp) && i <= |s| && Distinct(cmp, s)
    ensures Distinct(cmp, Put(s, i, x)) <==> IsFind(cmp, Entries(s), x, None)
  {
    hide TotalPreorder;
    var t := Put(s, i, x);
    if Distinct(cmp, t) {
      forall k | 0 <= k < |s| ensures cmp(s[k], x) != 0 {
        Flip(cmp, x, s[k]);
        if k < i { assert cmp(t[k], t[i]) != 0; } else { assert cmp(t[i], t[k + 1]) != 0; }
      }
    }
    if IsFind(cmp, Entries(s), x, None) {
      forall p, q | 0 <= p < q < |t| ensures cmp(t[p], t[q]) != 0 {
        var y := if p < i then s[p] else if p == i then x else s[p - 1];
        var z := if q < i then s[q] else if q == i then x else s[q - 1];
        assert t[p] == y && t[q] == z;
        Flip(cmp, y, z);
        if p == i { assert z in Entries(s); }
        if q == i { assert y in Entries(s); }
      }
    }
  }

  lemma RemoveKeeps<T(!new)>(cmp: (T, T) -> int, s: seq<T>, i: nat)
    requires i < |s|
    ensures Sorted(cmp, s) ==> Sorted(cmp, Cut(s, i))
    ensures Distinct(cmp, s) ==> Distinct(cmp, Cut(s, i))
  {
  }

  /** Where a walk for a key stops: at the first equal entry, or in a sorted list at the first greater one. */
  ghost predicate Stops<T>(cmp: (T, T) -> int, s: seq<T>, key: T, unsorted: bool, i: nat) {
    i <= |s| && (forall k | 0 <= k < i :: cmp(s[k], key) != 0 && (!unsorted ==> cmp(s[k], key) < 0)) &&
    (i < |s| ==> cmp(s[i], key) == 0 || (!unsorted && cmp(s[i], key) > 0))
  }

  function ItemAt<T>(s: seq<T>, i: nat): Option<T> {
    if i < |s| then Some(s[i]) else None
  }

  /** An entry put in behind all that are not greater. */
  ghost predicate PutBehind<T>(cmp: (T, T) -> int, s: seq<T>, x: T, t: seq<T>) {
    exists i: nat | i <= |s| :: t == Put(s, i, x) && forall k | 0 <= k < |s| :: k < i <==> cmp(s[k], x) <= 0
  }

  /** A duplicate goes behind the entries it is equal to, so that an exact lookup still finds the first of these. */
  lemma DuplicateBehind<T(!new)>(cmp: (T, T) -> int, s: seq<T>, x: T, t: seq<T>, key: T, i: nat, j: nat)
    requires TotalPreorder(cmp) && PutBehind(cmp, s, x, t) && cmp(x, key) == 0
    requires Stops(cmp, s, key, false, i) && i < |s| && cmp(s[i], key) == 0 && Stops(cmp, t, key, false, j)
    ensures i == j && t[j] == s[i]
  {
    hide TotalPreorder, Put;
    var m: nat :| m <= |s| && t == Put(s, m, x) && forall k | 0 <= k < |s| :: k < m <==> cmp(s[k], x) <= 0;
    PutMultiset(s, m, x);
    Flip(cmp, x, key);
    Trans(cmp, s[i], key, x);
    forall k | 0 <= k <= i ensures t[k] == s[k] { PutAt(s, m, x, k); }
  }

  class List<T(!new)> {
    const cmp: (T, T) -> int
    const unsorted: bool
    const fifo: bool
    var items: seq<T>
    var count: nat

    constructor (compare: (T, T) -> int, isUnsorted: bool, isFifo: bool)
      requires TotalPreorder(compare)
      ensures Valid() && items == [] && cmp == compare && unsorted == isUnsorted && fifo == isFifo
    {
      cmp, unsorted, fifo := compare, isUnsorted, isFifo;
      items, count := [], 0;
    }

    ghost predicate Valid()
      reads this
    {
      TotalPreorder(cmp) && count == |items| && (!unsorted ==> Sorted(cmp, items))
    }

    /** _get. */
    method Get(key: Option<T>, exact: bool) returns (r: Option<T>)
      requires Valid()
      ensures key.None? ==> r == if items == [] then None else Some(items[0])
      ensures key.Some? && exact && unsorted ==> IsFind(cmp, Entries(items), key.value, r)
      ensures key.Some? && exact && !unsorted ==>
                (IsFind(cmp, Entries(items), key.value, r) <==>
                 (exists x | x in Entries(items) :: cmp(x, key.value) == 0) ||
                 (forall x | x in Entries(items) :: cmp(x, key.value) < 0))
      ensures key.Some? && exact && !unsorted && r.Some? && cmp(r.value, key.value) != 0 ==>
                IsNext(cmp, Entries(items), key, r)
      ensures !exact && !unsorted && Distinct(cmp, items) ==> IsNext(cmp, Entries(items), key, r)
      ensures key.Some? ==> exists i: nat | Stops(cmp, items, key.value, unsorted, i) ::
                r == ItemAt(items, if i < |items| && !exact && cmp(items[i], key.value) == 0 then i + 1 else i)
    {
      hide TotalPreorder;
      var i, rc := 0, 0;
      if items != [] && key.Some? {
        while i < |items|
          invariant 0 <= i <= |items|
          invariant forall k | 0 <= k < i ::
                    cmp(items[k], key.value) != 0 && (!unsorted ==> cmp(items[k], key.value) < 0)
        {
          rc := cmp(items[i], key.value);
          if rc == 0 { break; }
          if rc > 0 && !unsorted { break; }
          i := i + 1;
        }
        if !unsorted {
          SortedFind(cmp, items, key.value, i);
          if Distinct(cmp, items) { SortedNext(cmp, items, key.value, i); }
        }
        assert Stops(cmp, items, key.value, unsorted, i);
        if i < |items| && !exact && rc == 0 { i := i + 1; }
      }
      if items == [] && key.Some? { assert Stops(cmp, items, key.value, unsorted, 0); }
      if key.None? && !unsorted { FirstIsNext(cmp, items); }
      return if i < |items| then Some(items[i]) else None;
    }

    /** _ssll_insert: after everything not greater when sorted, else at the tail or at the head. No duplicate is
        refused. */
    method Insert(x: T) returns (rc: int)
      requires Valid()
      modifies this
      ensures Valid() && rc == 0
      ensures Entries(items) == old(Entries(items)) + {x}
      ensures old(Distinct(cmp, items)) ==> (Distinct(cmp, items) <==> IsFind(cmp, old(Entries(items)), x, None))
      ensures exists i: nat | i <= |old(items)| :: items == Put(old(items), i, x)
      ensures unsorted ==> items == if fifo then old(items) + [x] else [x] + old(items)
      ensures !unsorted ==> PutBehind(cmp, old(items), x, items)
    {
      hide TotalPreorder, Sorted, Distinct, IsFind;
      var i := 0;
      if unsorted {
        if fifo { i := |items|; }
      } else {
        while i < |items|
          invariant 0 <= i <= |items|
          invariant forall k | 0 <= k < i :: cmp(items[k], x) <= 0
        {
          if cmp(items[i], x) > 0 { break; }
          i := i + 1;
        }
        InsertSorted(cmp, items, x, i);
        GreaterBeyond(cmp, items, x, i);
      }
      if Distinct(cmp, items) { InsertDistinct(cmp, items, x, i); }
      InsertEntries(items, x, i);
      items := Put(items, i, x);
      count := count + 1;
      return 0;
    }

    /** _ssll_remove: the first equal entry, or the head when there is no key. */
    method Remove(key: Option<T>) returns (rc: int, ghost at: nat)
      requires Valid()
      modifies this
      ensures Valid()
      ensures rc == -1 <==> old(items) == []
      ensures rc == -2 <==> old(items) != [] && key.Some? && IsFind(cmp, old(Entries(items)), key.value, None)
      ensures rc != 0 ==> rc in {-1, -2} && items == old(items)
      ensures rc == 0 ==> at < |old(items)| && items == old(items)[..at] + old(items)[at + 1..]
      ensures rc == 0 && key.None? ==> at == 0
      ensures rc == 0 && key.Some? ==> cmp(old(items)[at], key.value) == 0 &&
                                       forall k | 0 <= k < at :: cmp(old(items)[k], key.value) != 0
      ensures old(Distinct(cmp, items)) ==> Distinct(cmp, items)
    {
      hide TotalPreorder, Sorted, Distinct;
      at := 0;
      if items == [] { return -1, 0; }
      var i := 0;
      if key.Some? && cmp(items[0], key.value) != 0 {
        i := 1;
        while i < |items|
          invariant 1 <= i <= |items|
          invariant forall k | 0 <= k < i :: cmp(items[k], key.value) != 0
        {
          var rc := cmp(items[i], key.value);
          if rc == 0 { break; }
          if rc > 0 && !unsorted {
            NothingBeyond(cmp, items, key.value, i);
            i := |items|;
            break;
          }
          i := i + 1;
        }
      }
      if i == |items| { return -2, 0; }
      assert items[i] in Entries(items);
      RemoveKeeps(cmp, items, i);
      items := Cut(items, i);
      count := count - 1;
      return 0, i;
    }
  }

  lemma GreaterBeyond<T(!new)>(cmp: (T, T) -> int, s: seq<T>, x: T, i: nat)
    requires TotalPreorder(cmp) && Sorted(cmp, s) && i <= |s| && (i < |s| ==> cmp(s[i], x) > 0)
    requires forall k | 0 <= k < i :: cmp(s[k], x) <= 0
    ensures forall k | 0 <= k < |s| :: k < i <==> cmp(s[k], x) <= 0
  {
    hide TotalPreorder;
    forall k | i <= k < |s| ensures cmp(s[k], x) > 0 {
      if i < k && cmp(s[k], x) <= 0 { Trans(cmp, s[i], s[k], x); }
    }
  }

  /** In a sorted list nothing after a greater entry is equal. */
  lemma NothingBeyond<T(!new)>(cmp: (T, T) -> int, s: seq<T>, key: T, i: nat)
    requires TotalPreorder(cmp) && Sorted(cmp, s) && i < |s| && cmp(s[i], key) > 0
    ensures forall k | i <= k < |s| :: cmp(s[k], key) > 0
  {
    hide TotalPreorder;
    forall k | i < k < |s| ensures cmp(s[k], key) > 0 {
      Flip(cmp, key, s[i]);
      Flip(cmp, key, s[k]);
      Trans(cmp, key, s[i], s[k]);
    }
  }

  /** A list holding only 2, asked for exactly 1, answers 2. */
  lemma FindReturnsGreater()
    ensures var cmp := (x: int, y: int) => x - y;
            TotalPreorder(cmp) && Sorted(cmp, [2]) && StopsAt(cmp, [2], 1, 0) && !IsFind(cmp, Entries([2]), 1, Some(2))
  {
  }
}
