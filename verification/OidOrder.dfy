/** Object identifiers in lexicographic order (snmp_oid_compare and snmp_oidsubtree_compare of snmp_api.c). */
module OidOrder {

  type Oid = seq<nat>

  /** Lexicographic order, a proper prefix first. */
  ghost predicate Less(a: Oid, b: Oid) {
    b != [] && (a == [] || a[0] < b[0] || (a[0] == b[0] && Less(a[1..], b[1..])))
  }

  lemma {:induction false} LessTotal(a: Oid, b: Oid)
    ensures Less(a, b) || a == b || Less(b, a)
    ensures !(Less(a, b) && Less(b, a)) && (a == b ==> !Less(a, b))
    decreases |a| + |b|
  {
    if a != [] && b != [] {
      LessTotal(a[1..], b[1..]);
      if a[0] == b[0] && a[1..] == b[1..] {
        assert a == [a[0]] + a[1..] && b == [b[0]] + b[1..];
      }
    }
  }

  lemma {:induction false} LessTrans(a: Oid, b: Oid, c: Oid)
    requires Less(a, b) && Less(b, c)
    ensures Less(a, c)
  {
    if a != [] && a[0] == b[0] == c[0] { LessTrans(a[1..], b[1..], c[1..]); }
  }

  ghost predicate Prefix(a: Oid, b: Oid) {
    |a| <= |b| && b[..|a|] == a
  }

  /** Of two prefixes of the same identifier the longer one is the greater. */
  lemma {:induction false} LongerPrefix(a: Oid, b: Oid, c: Oid)
    requires Prefix(a, c) && Prefix(b, c)
    ensures |a| < |b| <==> Less(a, b)
    decreases |a|
  {
    if a != [] && b != [] {
      assert a[0] == c[0] && b[0] == c[0];
      assert a[1..] == c[1..][..|a| - 1] && b[1..] == c[1..][..|b| - 1];
      LongerPrefix(a[1..], b[1..], c[1..]);
    } else if a == [] && b != [] {
      assert Less(a, b);
    }
  }

  lemma {:induction false} DifferAt(a: Oid, b: Oid, k: nat)
    requires k <= |a| && k <= |b| && a[..k] == b[..k]
    ensures k < |a| && k < |b| && a[k] < b[k] ==> Less(a, b)
    ensures k == |a| && k < |b| ==> Less(a, b)
    decreases k
  {
    if k > 0 {
      assert a[0] == a[..k][0] == b[..k][0] == b[0];
      assert a[1..][..k - 1] == a[..k][1..] && b[1..][..k - 1] == b[..k][1..];
      DifferAt(a[1..], b[1..], k - 1);
    }
  }

  /** The order without recursion: behind a common beginning of k numbers the first identifier ends, or goes on with a
      smaller number. */
  lemma {:induction false} LessExact(a: Oid, b: Oid)
    ensures Less(a, b) <==>
            exists k | 0 <= k <= |a| && k < |b| :: a[..k] == b[..k] && (k == |a| || a[k] < b[k])
    decreases |a|
  {
    if Less(a, b) && a != [] && a[0] == b[0] {
      LessExact(a[1..], b[1..]);
      var k :| 0 <= k <= |a[1..]| && k < |b[1..]| && a[1..][..k] == b[1..][..k]
        && (k == |a[1..]| || a[1..][k] < b[1..][k]);
      assert a[..k + 1] == [a[0]] + a[1..][..k] && b[..k + 1] == [b[0]] + b[1..][..k];
    } else if Less(a, b) {
      assert a[..0] == b[..0];
    }
    forall k | 0 <= k <= |a| && k < |b| && a[..k] == b[..k] && (k == |a| || a[k] < b[k]) ensures Less(a, b) {
      DifferAt(a, b, k);
    }
  }

  /** snmp_oid_compare. */
  method Compare(a: Oid, b: Oid) returns (r: int)
    ensures -1 <= r <= 1
    ensures r == -1 <==> Less(a, b)
    ensures r == 0 <==> a == b
    ensures r == 1 <==> Less(b, a)
  {
    hide Less;
    LessTotal(a, b);
    LessTotal(b, a);
    var len := if |a| < |b| then |a| else |b|;
    var k := 0;
    while k < len
      invariant 0 <= k <= len && a[..k] == b[..k]
    {
      DifferAt(a, b, k);
      DifferAt(b, a, k);
      if a[k] != b[k] { return if a[k] < b[k] then -1 else 1; }
      k := k + 1;
    }
    DifferAt(a, b, k);
    DifferAt(b, a, k);
    assert |a| == |b| ==> a == a[..k] && b == b[..k];
    return if |a| < |b| then -1 else if |b| < |a| then 1 else 0;
  }

  /** snmp_oidsubtree_compare gives 0 for a prefix and only for a prefix. */
  method CompareSubtree(a: Oid, b: Oid) returns (r: int)
    ensures r == 0 <==> Prefix(a, b)
  {
    var len := if |a| < |b| then |a| else |b|;
    r := Compare(a, b[..len]);
  }
}
