/** Whole runs of a binary array against a finite ordered set. */
module ContainerRun {
  import opened Options
  import opened Ordered
  import opened BinaryArray

  datatype Op<T> = DoInsert(entry: T) | DoFind(key: T) | DoNext(after: Option<T>) | DoRemove(gone: T) | DoClear

  /** A result code, or the entry a lookup found. */
  datatype Out<T> = Code(rc: int) | Entry(found: Option<T>)

  /** One operation on a set with unique keys: the set it leaves and the answer it gives. */
  ghost predicate Step<T(!new)>(cmp: (T, T) -> int, S: set<T>, op: Op<T>, now: set<T>, out: Out<T>) {
    match op
    case DoInsert(e) =>
      if IsFind(cmp, S, e, None) then now == S + {e} && out == Code(0) else now == S && out == Code(-1)
    case DoFind(k) => now == S && out.Entry? && IsFind(cmp, S, k, out.found)
    case DoNext(k) => now == S && out.Entry? && IsNext(cmp, S, k, out.found)
    case DoRemove(k) =>
      if S == {} then now == S && out == Code(0)
      else if IsFind(cmp, S, k, None) then now == S && out == Code(-1)
      else out == Code(0) && exists x | x in S && cmp(x, k) == 0 :: now == S - {x}
    case DoClear => now == {} && out == Code(0)
  }

  /** A run passes through one set after another. */
  ghost predicate Follows<T(!new)>(cmp: (T, T) -> int, sets: seq<set<T>>, ops: seq<Op<T>>, outs: seq<Out<T>>) {
    |sets| == |ops| + 1 && |outs| == |ops| &&
    forall i | 0 <= i < |ops| :: Step(cmp, sets[i], ops[i], sets[i + 1], outs[i])
  }

  lemma FollowMore<T(!new)>(cmp: (T, T) -> int, sets: seq<set<T>>, ops: seq<Op<T>>, outs: seq<Out<T>>, op: Op<T>,
                            now: set<T>, out: Out<T>)
    requires Follows(cmp, sets, ops, outs) && Step(cmp, sets[|ops|], op, now, out)
    ensures Follows(cmp, sets + [now], ops + [op], outs + [out])
  {
    hide Step;
    var s, o, u := sets + [now], ops + [op], outs + [out];
    forall i | 0 <= i < |o| ensures Step(cmp, s[i], o[i], s[i + 1], u[i]) {
      if i < |ops| { assert Step(cmp, sets[i], ops[i], sets[i + 1], outs[i]); }
    }
  }

  /** The set determines the answer and the next set. */
  lemma StepDetermined<T(!new)>(cmp: (T, T) -> int, S: set<T>, op: Op<T>, a: set<T>, b: set<T>, x: Out<T>, y: Out<T>)
    requires TotalPreorder(cmp) && UniqueKeys(cmp, S) && Step(cmp, S, op, a, x) && Step(cmp, S, op, b, y)
    ensures a == b && x == y
    ensures UniqueKeys(cmp, a)
  {
    match op
    case DoFind(k) => FindUnique(cmp, S, k, x.found, y.found);
    case DoNext(k) => NextUnique(cmp, S, k, x.found, y.found);
    case DoRemove(k) =>
      forall p, q | p in S && q in S && cmp(p, k) == 0 && cmp(q, k) == 0 ensures p == q {
        FindUnique(cmp, S, k, Some(p), Some(q));
      }
    case DoInsert(e) =>
      forall p | p in S ensures cmp(p, e) == 0 <==> cmp(e, p) == 0 { Flip(cmp, p, e); }
    case DoClear =>
  }

  /** Any two runs of the same operations from the same set give the same answers and end in the same set. */
  lemma {:induction false} RunDetermined<T(!new)>(cmp: (T, T) -> int, ops: seq<Op<T>>, s: seq<set<T>>, t: seq<set<T>>,
                                                  x: seq<Out<T>>, y: seq<Out<T>>)
    requires TotalPreorder(cmp) && Follows(cmp, s, ops, x) && Follows(cmp, t, ops, y)
    requires s[0] == t[0] && UniqueKeys(cmp, s[0])
    ensures x == y && s == t
    decreases |ops|
  {
    hide TotalPreorder, UniqueKeys, Step;
    if ops == [] {
      assert s == [s[0]] && t == [t[0]];
    } else {
      assert Step(cmp, s[0], ops[0], s[1], x[0]) && Step(cmp, t[0], ops[0], t[1], y[0]);
      StepDetermined(cmp, s[0], ops[0], s[1], t[1], x[0], y[0]);
      FollowTail(cmp, s, ops, x);
      FollowTail(cmp, t, ops, y);
      RunDetermined(cmp, ops[1..], s[1..], t[1..], x[1..], y[1..]);
      assert s == [s[0]] + s[1..] && t == [t[0]] + t[1..];
      assert x == [x[0]] + x[1..] && y == [y[0]] + y[1..];
    }
  }

  lemma FollowTail<T(!new)>(cmp: (T, T) -> int, s: seq<set<T>>, ops: seq<Op<T>>, x: seq<Out<T>>)
    requires Follows(cmp, s, ops, x) && ops != []
    ensures Follows(cmp, s[1..], ops[1..], x[1..])
  {
    hide Step;
    forall i | 0 <= i < |ops| - 1 ensures Step(cmp, s[1..][i], ops[1..][i], s[1..][i + 1], x[1..][i]) {
      assert Step(cmp, s[i + 1], ops[i + 1], s[i + 2], x[i + 1]);
    }
  }

  method Apply<T(0, !new)>(t: Table<T>, op: Op<T>) returns (out: Out<T>)
    requires t.Valid()
    modifies t, t.data
    ensures t.Valid() && (t.data == old(t.data) || fresh(t.data))
    ensures Step(t.cmp, old(t.Set()), op, t.Set(), out)
  {
    hide TotalPreorder, Distinct, Sorted, Entries, IsNext;
    match op {
      case DoInsert(e) =>
        var rc := t.Insert(e);
        out := Code(rc);
      case DoFind(k) =>
        var r := t.Get(Some(k), true);
        out := Entry(r);
      case DoNext(k) =>
        var r := t.Get(k, false);
        out := Entry(r);
      case DoRemove(k) =>
        var rc, save := t.Remove(k);
        out := Code(rc);
      case DoClear =>
        t.Clear();
        out := Code(0);
    }
  }

  /** Every run of a binary array is a run of the set. */
  method Run<T(0, !new)>(t: Table<T>, ops: seq<Op<T>>) returns (outs: seq<Out<T>>, ghost sets: seq<set<T>>)
    requires t.Valid()
    modifies t, t.data
    ensures t.Valid() && Follows(t.cmp, sets, ops, outs) && sets[0] == old(t.Set()) && sets[|ops|] == t.Set()
  {
    hide TotalPreorder, Distinct, Sorted, Entries, Step, Follows;
    outs, sets := [], [t.Set()];
    FollowNothing(t.cmp, t.Set());
    var i := 0;
    while i < |ops|
      invariant 0 <= i <= |ops| && t.Valid() && (t.data == old(t.data) || fresh(t.data))
      invariant |sets| == i + 1 && |outs| == i && sets[0] == old(t.Set()) && sets[i] == t.Set()
      invariant Follows(t.cmp, sets, ops[..i], outs)
    {
      var out := Apply(t, ops[i]);
      FollowMore(t.cmp, sets, ops[..i], outs, ops[i], t.Set(), out);
      assert ops[..i] + [ops[i]] == ops[..i + 1];
      outs, sets := outs + [out], sets + [t.Set()];
      i := i + 1;
    }
    assert ops[..i] == ops;
  }

  lemma FollowNothing<T(!new)>(cmp: (T, T) -> int, S: set<T>)
    ensures Follows(cmp, [S], [], [])
  {
  }
}
