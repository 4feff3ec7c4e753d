/** Whole runs of inserts and removes over a chain of indexes, against one set for each index. */
module ChainRun {
  import opened Options
  import opened Ordered
  import opened BinaryArray
  import opened ContainerChain

  datatype Op<T> = DoInsert(entry: T) | DoRemove(gone: T)

  /** One operation on the sets of all indexes: what they hold afterwards and the result code. */
  ghost predicate Step<T(0, !new)>(c: seq<Index<T>>, S: seq<set<T>>, op: Op<T>, now: seq<set<T>>, rc: int)
    requires |S| == |c|
  {
    match op
    case DoInsert(k) => (rc == 0 <==> Free(c, S, 0, k)) && now == if rc == 0 then Added(c, S, 0, k) else S
    case DoRemove(k) => now == Dropped(c, S, k) && (rc == 0 <==> forall j | 0 <= j < |c| :: Removed(c[j], S[j], k))
  }

  /** What all indexes hold once the entries with a key equal to that of k are gone. */
  ghost function Dropped<T(0, !new)>(c: seq<Index<T>>, S: seq<set<T>>, k: T): (r: seq<set<T>>)
    requires |S| == |c|
    ensures |r| == |c| && forall j | 0 <= j < |c| :: r[j] == Without(c[j].table.cmp, S[j], k)
  {
    seq(|c|, j requires 0 <= j < |c| => Without(c[j].table.cmp, S[j], k))
  }

  /** A run passes through one sequence of sets after another. */
  ghost predicate Follows<T(0, !new)>(c: seq<Index<T>>, sets: seq<seq<set<T>>>, ops: seq<Op<T>>, rcs: seq<int>) {
    |sets| == |ops| + 1 && |rcs| == |ops| && (forall i | 0 <= i < |sets| :: |sets[i]| == |c|) &&
    forall i | 0 <= i < |ops| :: Step(c, sets[i], ops[i], sets[i + 1], rcs[i])
  }

  lemma FollowMore<T(0, !new)>(c: seq<Index<T>>, sets: seq<seq<set<T>>>, ops: seq<Op<T>>, rcs: seq<int>, op: Op<T>,
                               now: seq<set<T>>, rc: int)
    requires Follows(c, sets, ops, rcs) && |now| == |c| && Step(c, sets[|ops|], op, now, rc)
    ensures Follows(c, sets + [now], ops + [op], rcs + [rc])
  {
    hide Step;
    var s, o, u := sets + [now], ops + [op], rcs + [rc];
    forall i | 0 <= i < |o| ensures Step(c, s[i], o[i], s[i + 1], u[i]) {
      if i < |ops| { assert Step(c, sets[i], ops[i], sets[i + 1], rcs[i]); }
    }
  }

  method Apply<T(0, !new)>(c: seq<Index<T>>, op: Op<T>) returns (rc: int)
    requires ValidChain(c)
    modifies Tables(c), Arrays(c)
    ensures ValidChain(c) && Step(c, old(Sets(c)), op, Sets(c), rc)
    ensures forall o | o in Arrays(c) :: o in old(Arrays(c)) || fresh(o)
  {
    hide ValidChain, Free, Added, Removed, Without, Uniform, Sets, Arrays;
    match op {
      case DoInsert(k) => rc := Insert(c, k);
      case DoRemove(k) =>
        rc := Remove(c, k);
        assert Sets(c) == Dropped(c, old(Sets(c)), k);
    }
  }

  /** Every run over a chain is a run of its sets, code for code. */
  method Run<T(0, !new)>(c: seq<Index<T>>, ops: seq<Op<T>>) returns (rcs: seq<int>, ghost sets: seq<seq<set<T>>>)
    requires ValidChain(c)
    modifies Tables(c), Arrays(c)
    ensures ValidChain(c) && Follows(c, sets, ops, rcs) && sets[0] == old(Sets(c)) && sets[|ops|] == Sets(c)
  {
    hide ValidChain, Step, Follows, Sets, Arrays;
    rcs, sets := [], [Sets(c)];
    FollowNothing(c, Sets(c));
    var i := 0;
    while i < |ops|
      invariant 0 <= i <= |ops| && ValidChain(c) && (forall o | o in Arrays(c) :: o in old(Arrays(c)) || fresh(o))
      invariant |sets| == i + 1 && |rcs| == i && sets[0] == old(Sets(c)) && sets[i] == Sets(c)
      invariant Follows(c, sets, ops[..i], rcs)
    {
      var rc := Apply(c, ops[i]);
      FollowMore(c, sets, ops[..i], rcs, ops[i], Sets(c), rc);
      assert ops[..i] + [ops[i]] == ops[..i + 1];
      rcs, sets := rcs + [rc], sets + [Sets(c)];
      i := i + 1;
    }
    assert ops[..i] == ops;
  }

  lemma FollowNothing<T(0, !new)>(c: seq<Index<T>>, S: seq<set<T>>)
    requires |S| == |c|
    ensures Follows(c, [S], [], [])
  {
  }

  // ----- what every run keeps

  /** Every index is ordered and has unique keys. */
  ghost predicate Keyed<T(0, !new)>(c: seq<Index<T>>, S: seq<set<T>>) {
    |S| == |c| && forall j | 0 <= j < |c| :: TotalPreorder(c[j].table.cmp) && UniqueKeys(c[j].table.cmp, S[j])
  }

  /** Keys stay unique. */
  lemma StepKeyed<T(0, !new)>(c: seq<Index<T>>, S: seq<set<T>>, op: Op<T>, now: seq<set<T>>, rc: int)
    requires Keyed(c, S) && |now| == |c| && Step(c, S, op, now, rc)
    ensures Keyed(c, now)
  {
    forall j | 0 <= j < |c| ensures UniqueKeys(c[j].table.cmp, now[j]) {
      if op.DoInsert? && rc == 0 && c[j].Accepts(op.entry) { OneKeyMore(c[j].table.cmp, S[j], op.entry); }
    }
  }

  lemma OneKeyMore<T(!new)>(cmp: (T, T) -> int, S: set<T>, k: T)
    requires TotalPreorder(cmp) && UniqueKeys(cmp, S) && IsFind(cmp, S, k, None)
    ensures UniqueKeys(cmp, S + {k})
  {
    forall x | x in S ensures cmp(x, k) != 0 && cmp(k, x) != 0 { Flip(cmp, x, k); }
  }

  /** All through a run keys stay unique in every index. */
  lemma {:induction false} RunKeyed<T(0, !new)>(c: seq<Index<T>>, sets: seq<seq<set<T>>>, ops: seq<Op<T>>,
                                                rcs: seq<int>, i: nat)
    requires Follows(c, sets, ops, rcs) && Keyed(c, sets[0]) && i < |sets|
    ensures Keyed(c, sets[i])
  {
    hide Step, Keyed;
    if i > 0 {
      RunKeyed(c, sets, ops, rcs, i - 1);
      assert Step(c, sets[i - 1], ops[i - 1], sets[i], rcs[i - 1]);
      StepKeyed(c, sets[i - 1], ops[i - 1], sets[i], rcs[i - 1]);
    }
  }

  /** Equal indexes without filters are equal all through a run in which only stored entries are removed. */
  lemma {:induction false} RunUniform<T(0, !new)>(c: seq<Index<T>>, sets: seq<seq<set<T>>>, ops: seq<Op<T>>,
                                                  rcs: seq<int>, i: nat)
    requires Follows(c, sets, ops, rcs) && Keyed(c, sets[0]) && Filterless(c) && AllEqual(sets[0]) && i < |sets|
    requires forall m | 0 <= m < i && ops[m].DoRemove? :: Stored(sets[m], ops[m].gone)
    ensures AllEqual(sets[i])
  {
    hide Step, Keyed, AllEqual;
    if i > 0 {
      RunUniform(c, sets, ops, rcs, i - 1);
      RunKeyed(c, sets, ops, rcs, i - 1);
      assert Step(c, sets[i - 1], ops[i - 1], sets[i], rcs[i - 1]);
      StepUniform(c, sets[i - 1], ops[i - 1], sets[i], rcs[i - 1]);
    }
  }

  ghost predicate Stored<T(!new)>(S: seq<set<T>>, k: T) {
    forall j | 0 <= j < |S| :: k in S[j]
  }

  lemma StepUniform<T(0, !new)>(c: seq<Index<T>>, S: seq<set<T>>, op: Op<T>, now: seq<set<T>>, rc: int)
    requires Keyed(c, S) && Filterless(c) && AllEqual(S) && |now| == |c| && Step(c, S, op, now, rc)
    requires op.DoRemove? ==> Stored(S, op.gone)
    ensures AllEqual(now)
  {
    hide TotalPreorder, UniqueKeys;
    match op
    case DoInsert(k) => AddedUniform(c, S, k);
    case DoRemove(k) =>
      forall j | 0 <= j < |c| ensures now[j] == S[j] - {k} {
        Flip(c[j].table.cmp, k, k);
        WithoutFound(c[j].table.cmp, S[j], k, Some(k));
      }
  }

  // ----- what a remove undoes

  /** Removing what was just inserted brings every index back exactly when no index that filtered the entry out holds
      one with an equal key: a filter keeps an entry from being inserted but not from being removed. */
  lemma RemoveUndoes<T(0, !new)>(c: seq<Index<T>>, S: seq<set<T>>, k: T)
    requires Keyed(c, S) && Free(c, S, 0, k)
    ensures Dropped(c, Added(c, S, 0, k), k) == S <==>
            forall j | 0 <= j < |c| && !c[j].Accepts(k) :: IsFind(c[j].table.cmp, S[j], k, None)
  {
    hide TotalPreorder, UniqueKeys;
    var a := Added(c, S, 0, k);
    var d := Dropped(c, a, k);
    forall j | 0 <= j < |c| ensures d[j] == S[j] <==> c[j].Accepts(k) || IsFind(c[j].table.cmp, S[j], k, None) {
      UndoneAt(c[j].table.cmp, S[j], k, c[j].Accepts(k));
    }
    if d == S {
      forall j | 0 <= j < |c| && !c[j].Accepts(k) ensures IsFind(c[j].table.cmp, S[j], k, None) { assert d[j] == S[j]; }
    }
  }

  /** An index that filters everything out, holds 1 and takes all keys for equal loses its 1 to the entry 2, which was
      never in it. */
  lemma FilteredRemoved(t: Table<int>, c: seq<Index<int>>)
    requires c == [Index(t, Some((x: int) => true))] && forall x, y :: t.cmp(x, y) == 0
    ensures Keyed(c, [{1}]) && Free(c, [{1}], 0, 2) && Added(c, [{1}], 0, 2) == [{1}]
    ensures Dropped(c, [{1}], 2) == [{}]
  {
    assert !c[0].Accepts(2);
    var S, a, d := [{1}], Added(c, [{1}], 0, 2), Dropped(c, [{1}], 2);
    assert a[0] == S[0] + {} == {1};
    assert d[0] == Without(t.cmp, {1}, 2) == {};
    assert a == [{1}] && d == [{}];
    assert TotalPreorder(t.cmp) && UniqueKeys(t.cmp, {1});
  }

  lemma UndoneAt<T(!new)>(cmp: (T, T) -> int, S: set<T>, k: T, taken: bool)
    requires TotalPreorder(cmp) && (taken ==> IsFind(cmp, S, k, None))
    ensures Without(cmp, S + if taken then {k} else {}, k) == S <==> taken || IsFind(cmp, S, k, None)
  {
    Flip(cmp, k, k);
    if taken {
      assert Without(cmp, S + {k}, k) == S;
    } else {
      assert S + {} == S;
      if x :| x in S && cmp(x, k) == 0 { assert x !in Without(cmp, S, k); }
      if IsFind(cmp, S, k, None) { assert Without(cmp, S, k) == S; }
    }
  }
}
