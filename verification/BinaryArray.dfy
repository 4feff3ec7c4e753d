/** container_binary_array.c: a table that is sorted only when something is looked up in it. */
module BinaryArray {
  import opened Options
  import opened Ordered
  import QuickSort

  // ----- sequences without equal keys

  lemma {:induction false} AtMostOnce<T(!new)>(cmp: (T, T) -> int, s: seq<T>, x: T)
    requires TotalPreorder(cmp) && Distinct(cmp, s)
    ensures multiset(s)[x] <= 1
  {
    hide TotalPreorder;
    if s != [] {
      var t, y := s[..|s| - 1], s[|s| - 1];
      assert s == t + [y];
      AtMostOnce(cmp, t, x);
      Flip(cmp, x, x);
      if y == x {
        forall i | 0 <= i < |t| ensures t[i] != x {
          assert cmp(s[i], s[|s| - 1]) != 0;
        }
        assert x !in t && x !in multiset(t);
      }
    }
  }

  /** Two places that hold the same entry count twice. */
  lemma TwicePresent<T>(s: seq<T>, p: nat, q: nat)
    requires p < q < |s| && s[p] == s[q]
    ensures multiset(s)[s[p]] >= 2
  {
    assert s == s[..q] + [s[q]] + s[q + 1..];
    assert s[..q][p] == s[p];
    assert s[p] in multiset(s[..q]);
  }

  lemma PermKeeps<T(!new)>(cmp: (T, T) -> int, s: seq<T>, t: seq<T>)
    requires TotalPreorder(cmp) && QuickSort.Perm(t, s) && Distinct(cmp, s)
    ensures Distinct(cmp, t) && Entries(t) == Entries(s)
  {
    hide TotalPreorder;
    forall x ensures x in t <==> x in s {
      assert x in t <==> x in multiset(t);
      assert x in s <==> x in multiset(s);
    }
    DistinctUnique(cmp, s);
    forall p, q | 0 <= p < q < |t| ensures cmp(t[p], t[q]) != 0 {
      if cmp(t[p], t[q]) == 0 {
        assert t[p] in s && t[q] in s;
        TwicePresent(t, p, q);
        AtMostOnce(cmp, s, t[p]);
      }
    }
  }

  /** A place in an ascending sequence answers a lookup. */
  lemma FoundAt<T(!new)>(cmp: (T, T) -> int, s: seq<T>, key: T, r: int)
    requires -1 <= r < |s|
    requires if r == -1 then forall k | 0 <= k < |s| :: cmp(s[k], key) != 0 else cmp(s[r], key) == 0
    ensures IsFind(cmp, Entries(s), key, if r == -1 then None else Some(s[r]))
  {
  }

  lemma NextAt<T(!new)>(cmp: (T, T) -> int, s: seq<T>, key: Option<T>, r: int)
    requires TotalPreorder(cmp) && Sorted(cmp, s) && -1 <= r < |s|
    requires r >= 0 ==> After(cmp, key, s[r])
    requires forall k | 0 <= k < (if r == -1 then |s| else r) :: !After(cmp, key, s[k])
    ensures IsNext(cmp, Entries(s), key, if r == -1 then None else Some(s[r]))
  {
    hide TotalPreorder;
    if r >= 0 {
      forall y | y in Entries(s) && After(cmp, key, y) ensures cmp(s[r], y) <= 0 {
        var k :| 0 <= k < |s| && s[k] == y;
        Flip(cmp, y, y);
        assert r <= k;
      }
    }
  }

  /** ncompare follows the order of the table: it can only grow along it. */
  ghost predicate Monotone<T(!new)>(cmp: (T, T) -> int, ncmp: T -> int) {
    forall x, y | cmp(x, y) <= 0 :: (ncmp(y) < 0 ==> ncmp(x) < 0) && (ncmp(x) > 0 ==> ncmp(y) > 0)
  }

  lemma MonotoneAt<T(!new)>(cmp: (T, T) -> int, ncmp: T -> int, x: T, y: T)
    requires Monotone(cmp, ncmp) && cmp(x, y) <= 0
    ensures (ncmp(y) < 0 ==> ncmp(x) < 0) && (ncmp(x) > 0 ==> ncmp(y) > 0)
  {
  }

  // ----- searches in a sorted table

  /** binary_search, once the table is sorted; -1 for nothing. */
  method BinarySearch<T(!new)>(cmp: (T, T) -> int, a: array<T>, count: nat, val: T, exact: bool) returns (r: int)
    requires TotalPreorder(cmp) && 0 < count <= a.Length && Ascending(cmp, a[..count])
    ensures -1 <= r < count
    ensures exact && r >= 0 ==> cmp(a[r], val) == 0
    ensures exact && r == -1 ==> forall k | 0 <= k < count :: cmp(a[k], val) != 0
    ensures !exact && r >= 0 ==> cmp(a[r], val) > 0 && forall k | 0 <= k < r :: cmp(a[k], val) <= 0
    ensures !exact && r == -1 ==> forall k | 0 <= k < count :: cmp(a[k], val) <= 0
  {
    hide TotalPreorder;
    var first, result, hit := Probe(cmp, a, count, val);
    if first >= count { return -1; }
    if !hit { result := cmp(a[first], val); }
    if result == 0 {
      AboveEqual(cmp, a[..count], val, first);
      if exact { return first; }
      first := first + 1;
      return if first == count then -1 else first;
    }
    return if exact then -1 else first;
  }

  /** The halving loop: the first place not below val; hit says that result is the comparison at that place. */
  method Probe<T(!new)>(cmp: (T, T) -> int, a: array<T>, count: nat, val: T)
    returns (first: nat, result: int, hit: bool)
    requires TotalPreorder(cmp) && 0 < count <= a.Length && Ascending(cmp, a[..count])
    ensures first <= count
    ensures forall k | 0 <= k < first :: cmp(a[k], val) < 0
    ensures first < count && cmp(a[first], val) != 0 ==> forall k | first <= k < count :: cmp(a[k], val) > 0
    ensures hit && first < count ==> result == cmp(a[first], val)
  {
    hide TotalPreorder;
    var len, middle := count, 0;
    first, result := 0, 0;
    while len > 0
      invariant 0 <= len && first + len <= count && 0 <= middle
      invariant forall k | 0 <= k < first :: cmp(a[k], val) < 0
      invariant forall k | first + len <= k < count :: cmp(a[k], val) > 0
      invariant len == count || (middle < count && result == cmp(a[middle], val))
      decreases len
    {
      var half := len / 2;
      middle := first + half;
      result := cmp(a[middle], val);
      BelowAbove(cmp, a[..count], val, middle);
      if result < 0 {
        first := middle + 1;
        len := len - half - 1;
      } else {
        if result == 0 {
          first := middle;
          break;
        }
        len := half;
      }
    }
    hit := first == middle;
  }

  lemma BelowAbove<T(!new)>(cmp: (T, T) -> int, s: seq<T>, val: T, m: nat)
    requires TotalPreorder(cmp) && Ascending(cmp, s) && m < |s|
    ensures cmp(s[m], val) <= 0 ==> forall k | 0 <= k < m :: cmp(s[k], val) < 0
    ensures cmp(s[m], val) > 0 ==> forall k | m <= k < |s| :: cmp(s[k], val) > 0
  {
    hide TotalPreorder;
    forall k | 0 <= k < m ensures cmp(s[m], val) <= 0 ==> cmp(s[k], val) < 0 { Trans(cmp, s[k], s[m], val); }
    forall k | m < k < |s| ensures cmp(s[m], val) > 0 ==> cmp(s[k], val) > 0 {
      Flip(cmp, s[m], val);
      Flip(cmp, s[k], val);
      Flip(cmp, val, s[m]);
      Trans(cmp, val, s[m], s[k]);
    }
    Flip(cmp, val, s[m]);
  }

  lemma AboveEqual<T(!new)>(cmp: (T, T) -> int, s: seq<T>, val: T, m: nat)
    requires TotalPreorder(cmp) && Ascending(cmp, s) && m < |s| && cmp(s[m], val) == 0
    ensures forall k | m < k < |s| :: cmp(s[k], val) > 0
  {
    hide TotalPreorder;
    forall k | m < k < |s| ensures cmp(s[k], val) > 0 {
      Flip(cmp, s[m], val);
      Flip(cmp, val, s[k]);
      Trans(cmp, val, s[m], s[k]);
    }
  }

  /** binary_search_for_start, once the table is sorted: the first place where ncompare gives 0. */
  method SearchStart<T(!new)>(cmp: (T, T) -> int, ncmp: T -> int, a: array<T>, count: nat) returns (r: int)
    requires Monotone(cmp, ncmp) && count <= a.Length && Sorted(cmp, a[..count])
    ensures -1 <= r < count
    ensures r >= 0 ==> ncmp(a[r]) == 0 && forall k | 0 <= k < r :: ncmp(a[k]) < 0
    ensures r == -1 ==> forall k | 0 <= k < count :: ncmp(a[k]) != 0
  {
    hide Monotone;
    var first, len := 0, count;
    while len > 0
      invariant 0 <= len && 0 <= first && first + len <= count
      invariant forall k | 0 <= k < first :: ncmp(a[k]) < 0
      invariant forall k | first + len <= k < count :: ncmp(a[k]) >= 0
      decreases len
    {
      var half := len / 2;
      var middle := first + half;
      forall k | 0 <= k < middle ensures ncmp(a[middle]) < 0 ==> ncmp(a[k]) < 0 {
        MonotoneAt(cmp, ncmp, a[..count][k], a[..count][middle]);
      }
      forall k | middle < k < count ensures ncmp(a[k]) < 0 ==> ncmp(a[middle]) < 0 {
        MonotoneAt(cmp, ncmp, a[..count][middle], a[..count][k]);
      }
      if ncmp(a[middle]) < 0 {
        first := middle + 1;
        len := len - half - 1;
      } else {
        len := half;
      }
    }
    if first >= count || ncmp(a[first]) != 0 {
      forall k | first <= k < count ensures ncmp(a[k]) != 0 {
        if first < k { MonotoneAt(cmp, ncmp, a[..count][first], a[..count][k]); }
      }
      return -1;
    }
    return first;
  }

  // ----- the container

  lemma AppendDistinct<T(!new)>(cmp: (T, T) -> int, s: seq<T>, x: T)
    requires TotalPreorder(cmp) && Distinct(cmp, s) && IsFind(cmp, Entries(s), x, None)
    ensures Distinct(cmp, s + [x]) && Entries(s + [x]) == Entries(s) + {x} && x !in Entries(s)
  {
    Flip(cmp, x, x);
    assert forall k | 0 <= k < |s| :: s[k] in Entries(s);
  }

  lemma DropDistinct<T(!new)>(cmp: (T, T) -> int, s: seq<T>, i: nat)
    requires TotalPreorder(cmp) && Distinct(cmp, s) && i < |s|
    ensures Distinct(cmp, s[..i] + s[i + 1..])
    ensures Sorted(cmp, s) ==> Sorted(cmp, s[..i] + s[i + 1..])
    ensures Entries(s[..i] + s[i + 1..]) == Entries(s) - {s[i]}
  {
    hide TotalPreorder;
    var t := s[..i] + s[i + 1..];
    forall k | 0 <= k < |t| ensures t[k] != s[i] {
      Flip(cmp, s[i], s[i]);
      assert t[k] == if k < i then s[k] else s[k + 1];
    }
    forall x | x in Entries(s) && x != s[i] ensures x in Entries(t) {
      var k :| 0 <= k < |s| && s[k] == x;
      assert t[if k < i then k else k - 1] == x;
    }
  }

  class Table<T(0, !new)> {
    const cmp: (T, T) -> int
    var data: array<T>
    var count: nat
    var dirty: bool

    constructor (compare: (T, T) -> int)
      requires TotalPreorder(compare)
      ensures Valid() && Set() == {} && cmp == compare && fresh(data)
    {
      cmp := compare;
      data, count, dirty := new T[0], 0, false;
    }

    ghost function Items(): seq<T>
      requires count <= data.Length
      reads this, data
    {
      data[..count]
    }

    ghost predicate Valid()
      reads this, data
    {
      count <= data.Length && TotalPreorder(cmp) && Distinct(cmp, Items()) && (!dirty ==> Sorted(cmp, Items()))
    }

    /** The finite set this table stands for. */
    ghost function Set(): set<T>
      requires count <= data.Length
      reads this, data
    {
      Entries(Items())
    }

    /** Keys are unique in the set. */
    lemma Unique()
      requires Valid()
      ensures UniqueKeys(cmp, Set())
    {
      DistinctUnique(cmp, Items());
    }

    /** Sort_Array. */
    method SortArray()
      requires Valid()
      modifies this`dirty, data
      ensures Valid() && !dirty && Set() == old(Set())
    {
      hide TotalPreorder, Distinct, Entries;
      if dirty {
        if count > 1 {
          ghost var was := Items();
          QuickSort.Sort(cmp, data, 0, count - 1);
          assert Items() == data[..][0..count];
          assert was == old(data[..])[0..count];
          PermKeeps(cmp, was, Items());
        }
        dirty := false;
      }
    }

    /** netsnmp_binary_array_get: an exact lookup, the next entry, or without a key the first one. */
    method Get(key: Option<T>, exact: bool) returns (r: Option<T>)
      requires Valid()
      modifies this`dirty, data
      ensures Valid() && Set() == old(Set())
      ensures key.Some? && exact ==> IsFind(cmp, Set(), key.value, r)
      ensures key.None? || !exact ==> IsNext(cmp, Set(), key, r)
    {
      hide TotalPreorder, Distinct, IsFind, IsNext, Entries, Sorted;
      if count == 0 {
        EmptyAnswers(cmp, Items(), key);
        return None;
      }
      SortArray();
      var index := 0;
      DistinctAscends(cmp, Items());
      if key.Some? {
        index := BinarySearch(cmp, data, count, key.value, exact);
        if exact { FoundAt(cmp, Items(), key.value, index); }
      }
      if key.None? || !exact { NextAt(cmp, Items(), key, index); }
      if index == -1 { return None; }
      return Some(data[index]);
    }

    /** netsnmp_binary_array_insert: an entry with a key already present is refused; otherwise the set grows by it. */
    method Insert(entry: T) returns (rc: int)
      requires Valid()
      modifies this, data
      ensures Valid() && (data == old(data) || fresh(data))
      ensures rc == (if IsFind(cmp, old(Set()), entry, None) then 0 else -1)
      ensures Set() == old(Set()) + if rc == 0 then {entry} else {}
    {
      hide TotalPreorder, Distinct, Sorted, Entries, UniqueKeys;
      var found := Get(Some(entry), true);
      if found.Some? {
        assert old(Set()) == Set() && found.value in Set();
        return -1;
      }
      ghost var was := Items();
      Reserve();
      AppendDistinct(cmp, was, entry);
      data[count] := entry;
      count := count + 1;
      assert Items() == was + [entry];
      dirty := true;
      return 0;
    }

    /** A full table is copied to one twice as large, the first time to one of ten places. */
    method Reserve()
      requires Valid()
      modifies this`data
      ensures Valid() && count < data.Length && Items() == old(Items())
      ensures data == old(data) || fresh(data)
    {
      hide TotalPreorder, Distinct, Sorted;
      if data.Length <= count {
        var size := 2 * data.Length;
        if size == 0 { size := 10; }
        var small := data;
        var bigger := new T[size];
        forall i | 0 <= i < small.Length { bigger[i] := small[i]; }
        assert bigger[..count] == small[..count];
        data := bigger;
        assert Items() == old(Items());
      }
    }

    /** netsnmp_binary_array_remove: the entry with an equal key leaves the set; an empty table reports success. */
    method Remove(key: T) returns (rc: int, save: Option<T>)
      requires Valid()
      modifies this, data
      ensures Valid() && data == old(data)
      ensures IsFind(cmp, old(Set()), key, save)
      ensures rc == (if save.Some? || old(Set()) == {} then 0 else -1)
      ensures Set() == old(Set()) - if save.Some? then {save.value} else {}
    {
      hide TotalPreorder, Distinct, Sorted, IsFind;
      if count == 0 {
        EmptyAnswers(cmp, Items(), Some(key));
        return 0, None;
      }
      assert data[0] == Items()[0] && data[0] in Set();
      SortArray();
      DistinctAscends(cmp, Items());
      var index := BinarySearch(cmp, data, count, key, true);
      FoundAt(cmp, Items(), key, index);
      if index == -1 { return -1, None; }
      save := Some(data[index]);
      DropDistinct(cmp, Items(), index);
      CloseGap(index);
      return 0, save;
    }

    /** memmove over the entry that leaves. */
    method CloseGap(index: nat)
      requires index < count <= data.Length
      modifies this`count, data
      ensures count == old(count) - 1 && Items() == old(Items())[..index] + old(Items())[index + 1..]
    {
      count := count - 1;
      forall k | index <= k < count { data[k] := data[k + 1]; }
    }

    /** netsnmp_binary_array_clear. */
    method Clear()
      requires Valid()
      modifies this
      ensures Valid() && Set() == {} && data == old(data)
    {
      count, dirty := 0, false;
    }

    /** netsnmp_binary_array_get_subset: exactly the entries ncompare accepts, in order, as one stretch of the table. */
    method GetSubset(ncmp: T -> int) returns (r: Option<seq<T>>, ghost start: nat)
      requires Valid() && Monotone(cmp, ncmp)
      modifies this`dirty, data
      ensures Valid() && Set() == old(Set())
      ensures r.None? <==> forall x | x in Set() :: ncmp(x) != 0
      ensures r.Some? ==> Ascending(cmp, r.value) && Entries(r.value) == (set x | x in Set() && ncmp(x) == 0)
      ensures r.Some? ==> start + |r.value| <= count && r.value == Items()[start..start + |r.value|]
    {
      hide TotalPreorder, Distinct, Sorted, Monotone;
      start := 0;
      if count == 0 { return None, 0; }
      SortArray();
      var from := SearchStart(cmp, ncmp, data, count);
      if from == -1 {
        assert forall k | 0 <= k < count :: Items()[k] == data[k];
        return None, 0;
      }
      var end := from + 1;
      while end < count
        invariant from < end <= count
        invariant forall k | from <= k < end :: ncmp(data[k]) == 0
      {
        if ncmp(data[end]) != 0 { break; }
        end := end + 1;
      }
      SubsetExact(cmp, ncmp, Items(), from, end);
      assert Items()[from..end] == data[from..end];
      assert Items()[from] == data[from] && ncmp(data[from]) == 0;
      return Some(data[from..end]), from;
    }
  }

  lemma SubsetExact<T(!new)>(cmp: (T, T) -> int, ncmp: T -> int, s: seq<T>, start: nat, end: nat)
    requires Monotone(cmp, ncmp) && Sorted(cmp, s) && Distinct(cmp, s) && start < end <= |s|
    requires forall k | 0 <= k < start :: ncmp(s[k]) < 0
    requires forall k | start <= k < end :: ncmp(s[k]) == 0
    requires end < |s| ==> ncmp(s[end]) != 0
    ensures Ascending(cmp, s[start..end]) && Entries(s[start..end]) == (set x | x in Entries(s) && ncmp(x) == 0)
  {
    hide Monotone;
    forall k | end <= k < |s| ensures ncmp(s[k]) != 0 {
      MonotoneAt(cmp, ncmp, s[start], s[end]);
      if end < k { MonotoneAt(cmp, ncmp, s[end], s[k]); }
    }
    forall x | x in Entries(s) && ncmp(x) == 0 ensures x in s[start..end] {
      var k :| 0 <= k < |s| && s[k] == x;
      assert s[start..end][k - start] == x;
    }
  }

  lemma EmptyAnswers<T(!new)>(cmp: (T, T) -> int, s: seq<T>, key: Option<T>)
    requires s == []
    ensures key.Some? ==> IsFind(cmp, Entries(s), key.value, None)
    ensures IsNext(cmp, Entries(s), key, None)
  {
  }
}
