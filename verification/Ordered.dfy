/** Comparators, and what looking up in a finite ordered set means; the containers are measured against this. */
module Ordered {
  import opened Options

  /** What every compare function must satisfy. */
  ghost predicate TotalPreorder<T(!new)>(cmp: (T, T) -> int) {
    (forall x, y :: cmp(x, y) < 0 <==> cmp(y, x) > 0) &&
    (forall x, y, z :: cmp(x, y) <= 0 && cmp(y, z) <= 0 ==> cmp(x, z) <= 0)
  }

  lemma Flip<T(!new)>(cmp: (T, T) -> int, x: T, y: T)
    requires TotalPreorder(cmp)
    ensures cmp(x, y) < 0 <==> cmp(y, x) > 0
    ensures cmp(x, y) == 0 <==> cmp(y, x) == 0
    ensures cmp(x, x) == 0
  {
  }

  lemma Trans<T(!new)>(cmp: (T, T) -> int, x: T, y: T, z: T)
    requires TotalPreorder(cmp)
    ensures cmp(x, y) <= 0 && cmp(y, z) <= 0 ==> cmp(x, z) <= 0
    ensures cmp(x, y) < 0 && cmp(y, z) <= 0 ==> cmp(x, z) < 0
    ensures cmp(x, y) <= 0 && cmp(y, z) < 0 ==> cmp(x, z) < 0
  {
    Flip(cmp, x, z);
    Flip(cmp, x, y);
    Flip(cmp, y, z);
  }

  ghost predicate Sorted<T>(cmp: (T, T) -> int, s: seq<T>) {
    forall p, q | 0 <= p < q < |s| :: cmp(s[p], s[q]) <= 0
  }

  ghost predicate Ascending<T>(cmp: (T, T) -> int, s: seq<T>) {
    forall p, q | 0 <= p < q < |s| :: cmp(s[p], s[q]) < 0
  }

  /** No two entries have equal keys. */
  ghost predicate Distinct<T>(cmp: (T, T) -> int, s: seq<T>) {
    forall p, q | 0 <= p < q < |s| :: cmp(s[p], s[q]) != 0
  }

  lemma DistinctAscends<T>(cmp: (T, T) -> int, s: seq<T>)
    ensures Ascending(cmp, s) <==> Sorted(cmp, s) && Distinct(cmp, s)
  {
  }

  // ----- a finite set with unique keys

  ghost function Entries<T(!new)>(s: seq<T>): set<T> {
    set x | x in s
  }

  ghost predicate UniqueKeys<T(!new)>(cmp: (T, T) -> int, S: set<T>) {
    forall x, y | x in S && y in S && cmp(x, y) == 0 :: x == y
  }

  lemma DistinctUnique<T(!new)>(cmp: (T, T) -> int, s: seq<T>)
    requires TotalPreorder(cmp) && Distinct(cmp, s)
    ensures UniqueKeys(cmp, Entries(s))
  {
    forall x, y | x in Entries(s) && y in Entries(s) && cmp(x, y) == 0 ensures x == y {
      var p :| 0 <= p < |s| && s[p] == x;
      var q :| 0 <= q < |s| && s[q] == y;
      Flip(cmp, x, y);
    }
  }

  /** CONTAINER_FIND. */
  ghost predicate IsFind<T(!new)>(cmp: (T, T) -> int, S: set<T>, key: T, r: Option<T>) {
    match r
    case Some(x) => x in S && cmp(x, key) == 0
    case None => forall x | x in S :: cmp(x, key) != 0
  }

  ghost predicate After<T>(cmp: (T, T) -> int, key: Option<T>, x: T) {
    key.Some? ==> cmp(x, key.value) > 0
  }

  /** CONTAINER_NEXT: the least entry above the key, or the least of all when there is no key. */
  ghost predicate IsNext<T(!new)>(cmp: (T, T) -> int, S: set<T>, key: Option<T>, r: Option<T>) {
    match r
    case Some(x) => x in S && After(cmp, key, x) && forall y | y in S && After(cmp, key, y) :: cmp(x, y) <= 0
    case None => forall x | x in S :: !After(cmp, key, x)
  }

  lemma FindUnique<T(!new)>(cmp: (T, T) -> int, S: set<T>, key: T, r: Option<T>, q: Option<T>)
    requires TotalPreorder(cmp) && UniqueKeys(cmp, S) && IsFind(cmp, S, key, r) && IsFind(cmp, S, key, q)
    ensures r == q
  {
    if r.Some? && q.Some? {
      Flip(cmp, q.value, key);
      Trans(cmp, r.value, key, q.value);
      Trans(cmp, q.value, key, r.value);
      Flip(cmp, r.value, key);
      Flip(cmp, r.value, q.value);
    }
  }

  lemma NextUnique<T(!new)>(cmp: (T, T) -> int, S: set<T>, key: Option<T>, r: Option<T>, q: Option<T>)
    requires TotalPreorder(cmp) && UniqueKeys(cmp, S) && IsNext(cmp, S, key, r) && IsNext(cmp, S, key, q)
    ensures r == q
  {
    if r.Some? && q.Some? {
      Flip(cmp, r.value, q.value);
    }
  }

  /** Answers obtained by asking for the next entry again and again, starting without a key. */
  ghost predicate Going<T(!new)>(cmp: (T, T) -> int, S: set<T>, run: seq<T>) {
    (run != [] ==> IsNext(cmp, S, None, Some(run[0]))) &&
    (forall i | 0 < i < |run| :: IsNext(cmp, S, Some(run[i - 1]), Some(run[i])))
  }

  /** The same until there is no further answer. */
  ghost predicate Walk<T(!new)>(cmp: (T, T) -> int, S: set<T>, run: seq<T>) {
    Going(cmp, S, run) && IsNext(cmp, S, if run == [] then None else Some(run[|run| - 1]), None)
  }

  lemma GoOn<T(!new)>(cmp: (T, T) -> int, S: set<T>, run: seq<T>, x: T)
    requires Going(cmp, S, run) && IsNext(cmp, S, if run == [] then None else Some(run[|run| - 1]), Some(x))
    ensures Going(cmp, S, run + [x])
  {
  }

  /** Answers never outnumber the entries. */
  lemma GoingBounded<T(!new)>(cmp: (T, T) -> int, S: set<T>, run: seq<T>)
    requires TotalPreorder(cmp) && Going(cmp, S, run)
    ensures |run| <= |S|
  {
    hide TotalPreorder;
    GoingAscends(cmp, S, run);
    CountEntries(cmp, run);
    GoingInside(cmp, S, run);
    Subset(Entries(run), S);
  }

  lemma {:induction false} Subset<T>(A: set<T>, B: set<T>)
    requires A <= B
    ensures |A| <= |B|
  {
    if A != {} {
      var x :| x in A;
      Subset(A - {x}, B - {x});
    }
  }

  lemma GoingInside<T(!new)>(cmp: (T, T) -> int, S: set<T>, run: seq<T>)
    requires Going(cmp, S, run)
    ensures Entries(run) <= S
  {
    forall i | 0 <= i < |run| ensures run[i] in S {
      if i > 0 { assert IsNext(cmp, S, Some(run[i - 1]), Some(run[i])); }
    }
  }

  /** Such a walk visits every entry exactly once, in ascending order: what GETNEXT needs (section 4.2.2 of RFC
      3416). */
  lemma WalkVisitsAll<T(!new)>(cmp: (T, T) -> int, S: set<T>, run: seq<T>)
    requires TotalPreorder(cmp) && UniqueKeys(cmp, S) && Walk(cmp, S, run)
    ensures Ascending(cmp, run) && Entries(run) == S && |run| == |S|
  {
    hide TotalPreorder;
    GoingAscends(cmp, S, run);
    GoingInside(cmp, S, run);
    forall x | x in S ensures x in run {
      assert run != [] by { assert After(cmp, None, x); }
      if x !in run {
        MissesAbove(cmp, S, run, x, |run|);
      }
    }
    assert Entries(run) == S;
    CountEntries(cmp, run);
  }

  lemma {:induction false} GoingAscends<T(!new)>(cmp: (T, T) -> int, S: set<T>, run: seq<T>)
    requires TotalPreorder(cmp) && Going(cmp, S, run)
    ensures Ascending(cmp, run)
  {
    hide TotalPreorder;
    forall p, q | 0 <= p < q < |run| ensures cmp(run[p], run[q]) < 0 {
      WalkStep(cmp, S, run, p, q);
    }
  }

  lemma {:induction false} WalkStep<T(!new)>(cmp: (T, T) -> int, S: set<T>, run: seq<T>, p: nat, q: nat)
    requires TotalPreorder(cmp) && Going(cmp, S, run) && p < q < |run|
    ensures cmp(run[p], run[q]) < 0
    decreases q
  {
    hide TotalPreorder;
    assert IsNext(cmp, S, Some(run[q - 1]), Some(run[q]));
    Flip(cmp, run[q - 1], run[q]);
    if p < q - 1 {
      WalkStep(cmp, S, run, p, q - 1);
      Trans(cmp, run[p], run[q - 1], run[q]);
    }
  }

  /** An entry the walk does not contain lies above its first i answers. */
  lemma {:induction false} MissesAbove<T(!new)>(cmp: (T, T) -> int, S: set<T>, run: seq<T>, x: T, i: nat)
    requires TotalPreorder(cmp) && UniqueKeys(cmp, S) && Walk(cmp, S, run) && x in S && x !in run && 0 < i <= |run|
    ensures cmp(x, run[i - 1]) > 0
    decreases i
  {
    hide TotalPreorder;
    if i == 1 {
      assert After(cmp, None, x);
    } else {
      MissesAbove(cmp, S, run, x, i - 1);
      assert IsNext(cmp, S, Some(run[i - 2]), Some(run[i - 1]));
      assert After(cmp, Some(run[i - 2]), x);
    }
    assert cmp(run[i - 1], x) <= 0;
    assert run[i - 1] in S;
    Flip(cmp, run[i - 1], x);
  }

  /** Distinct entries are as many as the sequence is long. */
  lemma {:induction false} CountEntries<T(!new)>(cmp: (T, T) -> int, s: seq<T>)
    requires TotalPreorder(cmp) && Ascending(cmp, s)
    ensures |Entries(s)| == |s|
  {
    hide TotalPreorder;
    if s != [] {
      var t, x := s[..|s| - 1], s[|s| - 1];
      CountEntries(cmp, t);
      Flip(cmp, x, x);
      forall i | 0 <= i < |t| ensures t[i] != x {
        assert cmp(s[i], x) < 0;
      }
      assert Entries(s) == Entries(t) + {x};
    }
  }
}
