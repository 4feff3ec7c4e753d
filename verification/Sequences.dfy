/** Putting an element into a sequence, taking one out, and copying into an array. */
module Sequences {

  /** s with x in front of its i-th element. */
  function Put<T>(s: seq<T>, i: nat, x: T): seq<T>
    requires i <= |s|
  {
    s[..i] + [x] + s[i..]
  }

  lemma PutMultiset<T>(s: seq<T>, i: nat, x: T)
    requires i <= |s|
    ensures multiset(Put(s, i, x)) == multiset(s) + multiset{x}
    ensures |Put(s, i, x)| == |s| + 1
  {
    assert s == s[..i] + s[i..];
  }

  lemma PutAt<T>(s: seq<T>, i: nat, x: T, k: nat)
    requires i <= |s| && k <= |s|
    ensures Put(s, i, x)[k] == if k < i then s[k] else if k == i then x else s[k - 1]
  {
  }

  /** s without its j-th element. */
  function Cut<T>(s: seq<T>, j: nat): seq<T>
    requires j < |s|
  {
    s[..j] + s[j + 1..]
  }

  lemma CutAt<T>(s: seq<T>, j: nat, l: nat)
    requires j < |s| && l < |s| - 1
    ensures |Cut(s, j)| == |s| - 1 && Cut(s, j)[l] == if l < j then s[l] else s[l + 1]
  {
  }

  /** Place by place, w is v with x put in at i. */
  ghost predicate PutIn<T>(v: seq<T>, i: nat, x: T, w: seq<T>) {
    |w| == |v| + 1 && i <= |v| && w[i] == x &&
    (forall k | 0 <= k < i :: w[k] == v[k]) && (forall k | i <= k < |v| :: w[k + 1] == v[k])
  }

  lemma PutInIs<T>(v: seq<T>, i: nat, x: T)
    requires i <= |v|
    ensures PutIn(v, i, x, Put(v, i, x))
  {
  }

  lemma TakenOutIs<T>(v: seq<T>, i: nat)
    requires i < |v|
    ensures PutIn(Cut(v, i), i, v[i], v)
  {
  }

  lemma PutInMembers<T>(v: seq<T>, i: nat, x: T, w: seq<T>, y: T)
    requires PutIn(v, i, x, w)
    ensures y in w <==> y == x || y in v
  {
    if y in v {
      var k :| 0 <= k < |v| && v[k] == y;
      assert w[if k < i then k else k + 1] == y;
    }
    if y in w && y != x {
      var k :| 0 <= k < |w| && w[k] == y;
      if k < i { assert v[k] == y; } else { assert v[k - 1] == w[k - 1 + 1] == y; }
    }
  }

  lemma PutInAt<T>(v: seq<T>, i: nat, x: T, w: seq<T>, k: nat)
    requires PutIn(v, i, x, w) && k < |w|
    ensures w[k] == if k < i then v[k] else if k == i then x else v[k - 1]
  {
    if k > i { assert w[k - 1 + 1] == v[k - 1]; }
  }

  /** Where x first stands in s, or the length of s. */
  ghost function FirstAt<T(!new)>(s: seq<T>, x: T): (k: nat)
    ensures k <= |s| && (k < |s| <==> x in s)
  {
    if s == [] || s[0] == x then 0 else 1 + FirstAt(s[1..], x)
  }

  lemma {:induction false} FirstAtMore<T(!new)>(s: seq<T>, y: T, x: T)
    ensures FirstAt(s + [y], x) == if x in s then FirstAt(s, x) else if x == y then |s| else |s| + 1
  {
    if s == [] {
      assert s + [y] == [y] && [y][1..] == [];
    } else {
      assert (s + [y])[1..] == s[1..] + [y];
      FirstAtMore(s[1..], y, x);
    }
  }

  lemma {:induction false} FirstAtHolds<T(!new)>(s: seq<T>, x: T)
    requires x in s
    ensures s[FirstAt(s, x)] == x
  {
    if s[0] != x { FirstAtHolds(s[1..], x); }
  }

  lemma {:induction false} FirstAtJoin<T(!new)>(s: seq<T>, t: seq<T>, x: T)
    ensures FirstAt(s + t, x) == if x in s then FirstAt(s, x) else |s| + FirstAt(t, x)
  {
    if s == [] {
      assert s + t == t;
    } else {
      assert (s + t)[1..] == s[1..] + t;
      FirstAtJoin(s[1..], t, x);
    }
  }

  lemma {:induction false} FirstAtIs<T(!new)>(s: seq<T>, k: nat)
    requires k < |s| && s[k] !in s[..k]
    ensures FirstAt(s, s[k]) == k
  {
    if k > 0 {
      assert s[0] in s[..k] && s[1..][..k - 1] == s[..k][1..];
      FirstAtIs(s[1..], k - 1);
    }
  }

  lemma SliceOfSlice<T>(s: seq<T>, a: nat, b: nat, c: nat, d: nat)
    requires a <= b <= |s| && c <= d <= b - a
    ensures s[a..b][c..d] == s[a + c..a + d]
  {
    var x, y := s[a..b][c..d], s[a + c..a + d];
    forall i | 0 <= i < d - c ensures x[i] == y[i] {
      assert x[i] == s[a..b][c + i] == s[a + c + i];
    }
  }

  lemma SlicePrefix<T>(s: seq<T>, a: nat, b: nat, n: nat)
    requires a <= b <= |s| && n <= b - a
    ensures s[a..b][..n] == s[a..a + n]
  {
    SliceOfSlice(s, a, b, 0, n);
    assert s[a..b][..n] == s[a..b][0..n];
  }

  /** Behind a whole piece, the first n elements of the next one. */
  lemma PrefixOfThree<T>(a: seq<T>, b: seq<T>, c: seq<T>, n: nat)
    requires n <= |b|
    ensures (a + b + c)[..|a| + n] == a + b[..n]
  {
    var x, y := (a + b + c)[..|a| + n], a + b[..n];
    forall i | 0 <= i < |a| + n ensures x[i] == y[i] {
      assert x[i] == (a + b + c)[i];
    }
  }

  lemma Assoc<T>(a: seq<T>, b: seq<T>, c: seq<T>)
    ensures a + b + c == a + (b + c)
  {
  }

  /** memcpy and memmove into an array. */
  method CopyInto<T>(dst: array<T>, off: nat, src: seq<T>)
    requires off + |src| <= dst.Length
    modifies dst
    ensures dst[..] == old(dst[..off]) + src + old(dst[off + |src|..])
  {
    forall i | 0 <= i < |src| { dst[off + i] := src[i]; }
  }
}
