/** container.c: an entry kept in a chain of indexes, each with its own order and possibly a filter. */
module ContainerChain {
  import opened Options
  import opened Ordered
  import opened BinaryArray

  /** The filter says which entries an index leaves out. */
  datatype Index<!T(0, !new)> = Index(table: Table<T>, filter: Option<T -> bool>)
  {
    predicate Accepts(k: T) {
      filter.None? || !filter.value(k)
    }
  }

  ghost function Tables<T(0, !new)>(c: seq<Index<T>>): set<object> {
    set i | 0 <= i < |c| :: c[i].table
  }

  ghost function Arrays<T(0, !new)>(c: seq<Index<T>>): set<object>
    reads Tables(c)
  {
    set i | 0 <= i < |c| :: c[i].table.data
  }

  ghost predicate ValidChain<T(0, !new)>(c: seq<Index<T>>)
    reads Tables(c), Arrays(c)
  {
    (forall i | 0 <= i < |c| :: c[i].table.Valid()) &&
    (forall i, j | 0 <= i < j < |c| :: c[i].table != c[j].table && c[i].table.data != c[j].table.data)
  }

  /** An entry taken back out leaves what was there before. */
  lemma TakeBack<T(!new)>(cmp: (T, T) -> int, S: set<T>, k: T, save: Option<T>)
    requires TotalPreorder(cmp) && IsFind(cmp, S, k, None) && IsFind(cmp, S + {k}, k, save)
    ensures save == Some(k) && k !in S && (S + {k}) - {k} == S
  {
    Flip(cmp, k, k);
  }

  /** What each index holds. */
  ghost function Sets<T(0, !new)>(c: seq<Index<T>>): (r: seq<set<T>>)
    requires ValidChain(c)
    reads Tables(c), Arrays(c)
    ensures |r| == |c| && forall i | 0 <= i < |c| :: r[i] == c[i].table.Set()
  {
    seq(|c|, i requires 0 <= i < |c| reads Tables(c), Arrays(c) requires c[i].table.Valid() => c[i].table.Set())
  }

  /** One index takes an entry, or refuses a duplicate. */
  method InsertAt<T(0, !new)>(c: seq<Index<T>>, x: nat, k: T) returns (rc: int)
    requires ValidChain(c) && x < |c|
    modifies Tables(c), Arrays(c)
    ensures ValidChain(c)
    ensures forall o | o in Arrays(c) :: o in old(Arrays(c)) || fresh(o)
    ensures rc == (if IsFind(c[x].table.cmp, old(Sets(c))[x], k, None) then 0 else -1)
    ensures Sets(c) == old(Sets(c))[x := old(Sets(c))[x] + if rc == 0 then {k} else {}]
  {
    hide TotalPreorder, IsFind, Distinct, Sorted, Entries;
    rc := c[x].table.Insert(k);
  }

  /** One index gives up the entry with an equal key. */
  method RemoveAt<T(0, !new)>(c: seq<Index<T>>, x: nat, k: T) returns (rc: int, save: Option<T>)
    requires ValidChain(c) && x < |c|
    modifies Tables(c), Arrays(c)
    ensures ValidChain(c) && Arrays(c) == old(Arrays(c))
    ensures IsFind(c[x].table.cmp, old(Sets(c))[x], k, save)
    ensures rc == (if save.Some? || old(Sets(c))[x] == {} then 0 else -1)
    ensures Sets(c) == old(Sets(c))[x := old(Sets(c))[x] - if save.Some? then {save.value} else {}]
  {
    hide TotalPreorder, IsFind, Distinct, Sorted, Entries;
    rc, save := c[x].table.Remove(k);
  }

  /** Every index from the i-th on that accepts the entry has its key free. */
  ghost predicate Free<T(0, !new)>(c: seq<Index<T>>, sets: seq<set<T>>, i: nat, k: T)
    requires |sets| == |c|
  {
    forall j | i <= j < |c| && c[j].Accepts(k) :: IsFind(c[j].table.cmp, sets[j], k, None)
  }

  /** The entry added to every accepting index from the i-th on. */
  ghost function Added<T(0, !new)>(c: seq<Index<T>>, sets: seq<set<T>>, i: nat, k: T): (r: seq<set<T>>)
    requires |sets| == |c|
    ensures |r| == |c| && forall j | 0 <= j < |c| :: r[j] == sets[j] + if i <= j && c[j].Accepts(k) then {k} else {}
  {
    seq(|c|, j requires 0 <= j < |c| => sets[j] + if i <= j && c[j].Accepts(k) then {k} else {})
  }

  lemma SkipRejecting<T(0, !new)>(c: seq<Index<T>>, sets: seq<set<T>>, i: nat, x: nat, k: T)
    requires |sets| == |c| && i <= x <= |c| && forall j | i <= j < x :: !c[j].Accepts(k)
    ensures Added(c, sets, i, k) == Added(c, sets, x, k) && (Free(c, sets, i, k) <==> Free(c, sets, x, k))
    ensures x == |c| ==> Added(c, sets, i, k) == sets && Free(c, sets, i, k)
  {
    hide IsFind;
    var a, b := Added(c, sets, i, k), Added(c, sets, x, k);
    forall j | 0 <= j < |c| ensures a[j] == b[j] && (x == |c| ==> a[j] == sets[j]) {}
  }

  lemma AddOne<T(0, !new)>(c: seq<Index<T>>, sets: seq<set<T>>, x: nat, k: T)
    requires |sets| == |c| && x < |c| && c[x].Accepts(k)
    ensures var mid := sets[x := sets[x] + {k}];
            Added(c, mid, x + 1, k) == Added(c, sets, x, k) &&
            (Free(c, sets, x, k) <==> IsFind(c[x].table.cmp, sets[x], k, None) && Free(c, mid, x + 1, k))
  {
    hide IsFind;
    var mid := sets[x := sets[x] + {k}];
    var a, b := Added(c, mid, x + 1, k), Added(c, sets, x, k);
    forall j | 0 <= j < |c| ensures a[j] == b[j] && (j != x ==> mid[j] == sets[j]) {}
  }

  /** CONTAINER_INSERT_HELPER from the i-th index on: all the accepting indexes take the entry, or none does. */
  method InsertFrom<T(0, !new)>(c: seq<Index<T>>, i: nat, k: T) returns (rc: int)
    requires ValidChain(c) && i <= |c|
    modifies Tables(c), Arrays(c)
    ensures ValidChain(c)
    ensures forall o | o in Arrays(c) :: o in old(Arrays(c)) || fresh(o)
    ensures rc == 0 <==> Free(c, old(Sets(c)), i, k)
    ensures Sets(c) == if rc == 0 then Added(c, old(Sets(c)), i, k) else old(Sets(c))
    decreases |c| - i
  {
    hide TotalPreorder, IsFind, ValidChain, Sets, Free, Added, Arrays;
    ghost var was := Sets(c);
    var x := i;
    while x < |c| && !c[x].Accepts(k)
      invariant i <= x <= |c|
      invariant forall j | i <= j < x :: !c[j].Accepts(k)
    {
      x := x + 1;
    }
    SkipRejecting(c, was, i, x, k);
    if x == |c| { return 0; }
    AddOne(c, was, x, k);
    rc := InsertAt(c, x, k);
    if rc == 0 {
      ghost var mid := Sets(c);
      rc := InsertFrom(c, x + 1, k);
      if rc != 0 {
        ChainOrder(c, x);
        var code, save := RemoveAt(c, x, k);
        TakeBack(c[x].table.cmp, was[x], k, save);
        assert Sets(c) == mid[x := mid[x] - {k}] && mid == was[x := was[x] + {k}];
        assert Sets(c) == was;
      }
    } else {
      assert was[x] + {} == was[x];
      assert was[x := was[x]] == was;
    }
  }

  lemma ChainOrder<T(0, !new)>(c: seq<Index<T>>, x: nat)
    requires ValidChain(c) && x < |c|
    ensures TotalPreorder(c[x].table.cmp) && UniqueKeys(c[x].table.cmp, Sets(c)[x])
  {
    c[x].table.Unique();
  }

  /** CONTAINER_INSERT. */
  method Insert<T(0, !new)>(c: seq<Index<T>>, k: T) returns (rc: int)
    requires ValidChain(c)
    modifies Tables(c), Arrays(c)
    ensures ValidChain(c)
    ensures forall o | o in Arrays(c) :: o in old(Arrays(c)) || fresh(o)
    ensures rc == 0 <==> Free(c, old(Sets(c)), 0, k)
    ensures Sets(c) == if rc == 0 then Added(c, old(Sets(c)), 0, k) else old(Sets(c))
    ensures old(Uniform(c)) ==> Uniform(c)
  {
    ghost var was := Sets(c);
    rc := InsertFrom(c, 0, k);
    if rc == 0 { AddedUniform(c, was, k); }
  }

  /** No index has a filter and all hold the same entries. */
  ghost predicate Uniform<T(0, !new)>(c: seq<Index<T>>)
    requires ValidChain(c)
    reads Tables(c), Arrays(c)
  {
    Filterless(c) && AllEqual(Sets(c))
  }

  ghost predicate Filterless<T(0, !new)>(c: seq<Index<T>>) {
    forall i | 0 <= i < |c| :: c[i].filter.None?
  }

  ghost predicate AllEqual<T(!new)>(sets: seq<set<T>>) {
    forall i, j | 0 <= i < j < |sets| :: sets[i] == sets[j]
  }

  lemma AddedUniform<T(0, !new)>(c: seq<Index<T>>, sets: seq<set<T>>, k: T)
    requires |sets| == |c|
    ensures Filterless(c) && AllEqual(sets) ==> AllEqual(Added(c, sets, 0, k))
  {
    if Filterless(c) && AllEqual(sets) {
      var a := Added(c, sets, 0, k);
      forall i, j | 0 <= i < j < |a| ensures a[i] == a[j] {
        assert c[i].Accepts(k) && c[j].Accepts(k) && sets[i] == sets[j];
      }
    }
  }

  /** What an index holds once the entry with an equal key is gone. */
  ghost function Without<T(!new)>(cmp: (T, T) -> int, S: set<T>, k: T): set<T> {
    set x | x in S && cmp(x, k) != 0
  }

  lemma WithoutFound<T(!new)>(cmp: (T, T) -> int, S: set<T>, k: T, save: Option<T>)
    requires TotalPreorder(cmp) && UniqueKeys(cmp, S) && IsFind(cmp, S, k, save)
    ensures S - (if save.Some? then {save.value} else {}) == Without(cmp, S, k)
    ensures k in S ==> save == Some(k) && Without(cmp, S, k) == S - {k}
  {
    Flip(cmp, k, k);
    if save.Some? {
      forall x | x in S && cmp(x, k) == 0 ensures x == save.value {
        FindUnique(cmp, S, k, Some(x), save);
      }
    }
  }

  /** CONTAINER_REMOVE, from the last index to the first. */
  method Remove<T(0, !new)>(c: seq<Index<T>>, k: T) returns (rc: int)
    requires ValidChain(c)
    modifies Tables(c), Arrays(c)
    ensures ValidChain(c) && Arrays(c) == old(Arrays(c))
    ensures forall j | 0 <= j < |c| :: Sets(c)[j] == Without(c[j].table.cmp, old(Sets(c))[j], k)
    ensures rc == 0 <==> forall j | 0 <= j < |c| :: Removed(c[j], old(Sets(c))[j], k)
    ensures old(Uniform(c)) && (forall j | 0 <= j < |c| :: k in old(Sets(c))[j]) ==>
              rc == 0 && Uniform(c) && forall j | 0 <= j < |c| :: Sets(c)[j] == old(Sets(c))[j] - {k}
  {
    hide TotalPreorder, IsFind, ValidChain, Sets, Arrays, UniqueKeys, Removed, Without;
    ghost var was := Sets(c);
    StoredGone(c, k);
    var x := |c|;
    rc := 0;
    while x > 0
      invariant 0 <= x <= |c| && ValidChain(c) && Arrays(c) == old(Arrays(c))
      invariant forall j | 0 <= j < x :: Sets(c)[j] == was[j]
      invariant forall j | x <= j < |c| :: Sets(c)[j] == Without(c[j].table.cmp, was[j], k)
      invariant rc == 0 <==> forall j | x <= j < |c| :: Removed(c[j], was[j], k)
    {
      x := x - 1;
      ChainOrder(c, x);
      var code, save := RemoveAt(c, x, k);
      WithoutFound(c[x].table.cmp, was[x], k, save);
      RemovedWhen(c[x], was[x], k, save);
      if code != 0 && c[x].filter.None? { rc := code; }
    }
  }

  lemma StoredGone<T(0, !new)>(c: seq<Index<T>>, k: T)
    requires ValidChain(c)
    ensures forall j | 0 <= j < |c| && k in Sets(c)[j] ::
              Without(c[j].table.cmp, Sets(c)[j], k) == Sets(c)[j] - {k} && Removed(c[j], Sets(c)[j], k)
  {
    forall j | 0 <= j < |c| && k in Sets(c)[j]
      ensures Without(c[j].table.cmp, Sets(c)[j], k) == Sets(c)[j] - {k} && Removed(c[j], Sets(c)[j], k)
    {
      ChainOrder(c, j);
      Flip(c[j].table.cmp, k, k);
      WithoutFound(c[j].table.cmp, Sets(c)[j], k, Some(k));
    }
  }

  /** No error is reported for an index: the entry was there, the index was empty, or it has a filter. */
  ghost predicate Removed<T(0, !new)>(x: Index<T>, S: set<T>, k: T) {
    x.filter.Some? || S == {} || !IsFind(x.table.cmp, S, k, None)
  }

  lemma RemovedWhen<T(0, !new)>(x: Index<T>, S: set<T>, k: T, save: Option<T>)
    requires IsFind(x.table.cmp, S, k, save)
    ensures Removed(x, S, k) <==> x.filter.Some? || save.Some? || S == {}
  {
  }
}
