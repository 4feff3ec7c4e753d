/** container_iterator.c: lookups by one pass over entries that callbacks hand out in some order. */
module ContainerIterator {
  import opened Options
  import opened Ordered

  /** One more entry examined by an exact lookup. */
  lemma FindMore<T(!new)>(cmp: (T, T) -> int, s: seq<T>, x: T, key: T, best: Option<T>)
    requires IsFind(cmp, Entries(s), key, best)
    ensures IsFind(cmp, Entries(s + [x]), key, if cmp(x, key) == 0 then Some(x) else best)
  {
    assert Entries(s + [x]) == Entries(s) + {x};
  }

  /** In sorted order nothing beyond a greater entry is equal. */
  lemma FindRest<T(!new)>(cmp: (T, T) -> int, s: seq<T>, p: nat, key: T, best: Option<T>)
    requires TotalPreorder(cmp) && Sorted(cmp, s) && p < |s| && cmp(s[p], key) > 0
    requires IsFind(cmp, Entries(s[..p]), key, best)
    ensures IsFind(cmp, Entries(s), key, best)
  {
    hide TotalPreorder;
    forall k | p < k < |s| ensures cmp(s[k], key) > 0 {
      Flip(cmp, key, s[p]);
      Flip(cmp, key, s[k]);
      Trans(cmp, key, s[p], s[k]);
    }
    forall k | 0 <= k < p ensures s[k] in Entries(s[..p]) {
      assert s[..p][k] == s[k];
    }
    assert forall k | 0 <= k < |s| :: s[k] in Entries(s[..p]) || cmp(s[k], key) > 0;
  }

  /** _iterator_get: the last entry found equal; a sorted source is left at the first greater entry. */
  method Find<T(!new)>(cmp: (T, T) -> int, items: seq<T>, sorted: bool, key: T) returns (best: Option<T>)
    requires TotalPreorder(cmp) && (sorted ==> Sorted(cmp, items))
    ensures IsFind(cmp, Entries(items), key, best)
  {
    hide TotalPreorder, IsFind, Entries;
    best := None;
    var p := 0;
    EmptyFind(cmp, items, key);
    while p < |items|
      invariant 0 <= p <= |items|
      invariant IsFind(cmp, Entries(items[..p]), key, best)
    {
      var c := cmp(items[p], key);
      FindMore(cmp, items[..p], items[p], key, best);
      assert items[..p] + [items[p]] == items[..p + 1];
      if c == 0 { best := Some(items[p]); }
      if c > 0 && sorted {
        FindRest(cmp, items, p, key, best);
        return;
      }
      p := p + 1;
    }
    assert items[..p] == items;
  }

  lemma EmptyFind<T(!new)>(cmp: (T, T) -> int, s: seq<T>, key: T)
    ensures IsFind(cmp, Entries(s[..0]), key, None)
  {
  }

  lemma EmptyNext<T(!new)>(cmp: (T, T) -> int, s: seq<T>, key: Option<T>)
    ensures IsNext(cmp, Entries(s[..0]), key, None)
  {
  }

  /** One more entry examined by a search for the next one. */
  lemma NextMore<T(!new)>(cmp: (T, T) -> int, s: seq<T>, x: T, key: Option<T>, best: Option<T>)
    requires TotalPreorder(cmp) && IsNext(cmp, Entries(s), key, best)
    ensures IsNext(cmp, Entries(s + [x]), key,
                   if After(cmp, key, x) && (best.None? || cmp(x, best.value) < 0) then Some(x) else best)
  {
    hide TotalPreorder;
    assert Entries(s + [x]) == Entries(s) + {x};
    Flip(cmp, x, x);
    if best.Some? {
      Flip(cmp, x, best.value);
      forall y | y in s ensures cmp(x, best.value) < 0 && cmp(best.value, y) <= 0 ==> cmp(x, y) <= 0 {
        Trans(cmp, x, best.value, y);
      }
    }
  }

  /** In sorted order the entry after an equal one is the next one. */
  lemma NextFollows<T(!new)>(cmp: (T, T) -> int, s: seq<T>, p: nat, key: T)
    requires TotalPreorder(cmp) && Sorted(cmp, s) && Distinct(cmp, s) && p < |s| && cmp(s[p], key) == 0
    ensures IsNext(cmp, Entries(s), Some(key), if p + 1 < |s| then Some(s[p + 1]) else None)
  {
    hide TotalPreorder;
    forall k | 0 <= k < |s| ensures cmp(s[k], key) > 0 <==> k > p {
      Flip(cmp, s[p], key);
      Flip(cmp, key, s[k]);
      if k > p { Trans(cmp, key, s[p], s[k]); }
      if k < p { Trans(cmp, s[k], s[p], key); }
    }
    forall y | y in Entries(s) && After(cmp, Some(key), y) ensures p + 1 < |s| && cmp(s[p + 1], y) <= 0 {
      var k :| 0 <= k < |s| && s[k] == y;
      Flip(cmp, y, y);
    }
  }

  lemma FirstLeast<T(!new)>(cmp: (T, T) -> int, s: seq<T>)
    requires TotalPreorder(cmp) && Sorted(cmp, s) && s != []
    ensures IsNext(cmp, Entries(s), None, Some(s[0]))
  {
    hide TotalPreorder;
    Flip(cmp, s[0], s[0]);
  }

  /** _iterator_get_next. */
  method FindNext<T(==, !new)>(cmp: (T, T) -> int, items: seq<T>, sorted: bool, key: Option<T>)
    returns (best: Option<T>)
    requires TotalPreorder(cmp) && (sorted ==> Sorted(cmp, items))
    ensures Distinct(cmp, items) ==> IsNext(cmp, Entries(items), key, best)
  {
    hide TotalPreorder, IsNext, Entries, Sorted;
    best := None;
    EmptyNext(cmp, items, key);
    if items == [] {
      assert items[..0] == items;
      return;
    }
    var p := 0;
    if key.None? {
      best := Some(items[0]);
      if sorted {
        FirstLeast(cmp, items);
        return;
      }
      NextMore(cmp, items[..0], items[0], key, None);
      assert items[..0] + [items[0]] == items[..1];
      p := 1;
    }
    while p < |items|
      invariant 0 <= p <= |items| && (key.None? ==> p > 0 && best.Some?)
      invariant Distinct(cmp, items) ==> IsNext(cmp, Entries(items[..p]), key, best)
      invariant key.None? ==> best.value in items[..p]
    {
      var tmp := items[p];
      if Distinct(cmp, items) { NextMore(cmp, items[..p], tmp, key, best); }
      assert items[..p] + [tmp] == items[..p + 1];
      var c;
      if key.Some? {
        c := cmp(tmp, key.value);
      } else {
        if best.value == tmp {
          SameTwice(cmp, items, p);
          return None;
        }
        c := cmp(best.value, tmp);
        Flip(cmp, best.value, tmp);
      }
      if c > 0 {
        if key.None? || best.None? || cmp(tmp, best.value) < 0 { best := Some(tmp); }
      } else if c == 0 && sorted && key.Some? {
        if Distinct(cmp, items) { NextFollows(cmp, items, p, key.value); }
        return if p + 1 < |items| then Some(items[p + 1]) else None;
      }
      p := p + 1;
    }
    assert items[..p] == items;
  }

  /** The same entry handed out twice contradicts unique keys. */
  lemma SameTwice<T(!new)>(cmp: (T, T) -> int, s: seq<T>, p: nat)
    requires TotalPreorder(cmp) && p < |s| && s[p] in s[..p]
    ensures !Distinct(cmp, s)
  {
    var k :| 0 <= k < p && s[k] == s[p];
    Flip(cmp, s[k], s[p]);
    assert cmp(s[k], s[p]) == 0;
  }
}
