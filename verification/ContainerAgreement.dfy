/** The containers answer alike when they hold the same entries under unique keys. */
module ContainerAgreement {
  import opened Options
  import opened Ordered
  import BinaryArray
  import SortedList
  import ContainerIterator

  /** Four containers over one order hold the same entries. */
  ghost predicate Same<T(!new)>(cmp: (T, T) -> int, S: set<T>, list: seq<T>, up: seq<T>, any: seq<T>) {
    TotalPreorder(cmp) && Sorted(cmp, list) && Sorted(cmp, up) &&
    Distinct(cmp, list) && Distinct(cmp, up) && Distinct(cmp, any) &&
    S == Entries(list) == Entries(up) == Entries(any)
  }

  /** Binary array, sorted list, sorted iterator and unsorted iterator give the same next entry. */
  method NextEverywhere<T(0, ==, !new)>(t: BinaryArray.Table<T>, l: SortedList.List<T>, up: seq<T>, any: seq<T>,
                                        key: Option<T>)
    returns (a: Option<T>, b: Option<T>, c: Option<T>, d: Option<T>)
    requires t.Valid() && l.Valid() && !l.unsorted && l.cmp == t.cmp && Same(t.cmp, t.Set(), l.items, up, any)
    modifies t, t.data
    ensures a == b == c == d && IsNext(t.cmp, old(t.Set()), key, a)
  {
    hide TotalPreorder, Sorted, Distinct, IsNext, Entries;
    ghost var S := t.Set();
    t.Unique();
    a := t.Get(key, false);
    b := l.Get(key, false);
    c := ContainerIterator.FindNext(t.cmp, up, true, key);
    d := ContainerIterator.FindNext(t.cmp, any, false, key);
    NextUnique(t.cmp, S, key, a, b);
    NextUnique(t.cmp, S, key, a, c);
    NextUnique(t.cmp, S, key, a, d);
  }

  /** Exact lookups agree too, except that the sorted list errs exactly when the key is absent and something greater is
      present. */
  method FindEverywhere<T(0, ==, !new)>(t: BinaryArray.Table<T>, l: SortedList.List<T>, up: seq<T>, any: seq<T>, key: T)
    returns (a: Option<T>, b: Option<T>, c: Option<T>, d: Option<T>)
    requires t.Valid() && l.Valid() && !l.unsorted && l.cmp == t.cmp && Same(t.cmp, t.Set(), l.items, up, any)
    modifies t, t.data
    ensures a == c == d && IsFind(t.cmp, old(t.Set()), key, a)
    ensures a == b <==> a.Some? || forall x | x in old(t.Set()) :: t.cmp(x, key) < 0
  {
    hide TotalPreorder, Sorted, Distinct, Entries;
    ghost var S := t.Set();
    t.Unique();
    a := t.Get(Some(key), true);
    b := l.Get(Some(key), true);
    c := ContainerIterator.Find(t.cmp, up, true, key);
    d := ContainerIterator.Find(t.cmp, any, false, key);
    FindUnique(t.cmp, S, key, a, c);
    FindUnique(t.cmp, S, key, a, d);
    if IsFind(t.cmp, S, key, b) { FindUnique(t.cmp, S, key, a, b); }
  }

  /** Asking a table for the next entry until there is none enumerates its set, each entry once and in order. */
  method WalkTable<T(0, ==, !new)>(t: BinaryArray.Table<T>) returns (run: seq<T>)
    requires t.Valid()
    modifies t, t.data
    ensures t.Valid() && t.Set() == old(t.Set())
    ensures Ascending(t.cmp, run) && Entries(run) == t.Set() && |run| == |t.Set()|
  {
    hide TotalPreorder, Distinct, Sorted, IsNext, Entries, Going, Ascending, UniqueKeys;
    run := [];
    ghost var S := t.Set();
    t.Unique();
    NotGoing(t.cmp, S);
    var key: Option<T> := None;
    var next := t.Get(None, false);
    while next.Some?
      invariant t.Valid() && t.Set() == S && t.data == old(t.data)
      invariant key == (if run == [] then None else Some(run[|run| - 1]))
      invariant Going(t.cmp, S, run) && IsNext(t.cmp, S, key, next)
      decreases |S| - |run|
    {
      GoOn(t.cmp, S, run, next.value);
      GoingBounded(t.cmp, S, run + [next.value]);
      key := next;
      run := run + [next.value];
      next := t.Get(key, false);
    }
    WalkVisitsAll(t.cmp, S, run);
  }

  lemma NotGoing<T(!new)>(cmp: (T, T) -> int, S: set<T>)
    ensures Going(cmp, S, [])
  {
  }
}
