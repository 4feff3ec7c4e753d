/** The AgentX index registry as a value: rows of entries, one row for each object identifier (sections 7.1.2 and
    7.1.3 of RFC 2741). The linked structure of agent_index.c is proved to compute these functions. */
module IndexSpec {
  import opened Sequences
  import opened Options
  import opened OidOrder

  const INTEGER: int := 2
  const OCTET_STR: int := 4
  const OBJECT_ID: int := 6
  const MAXINT: int := 0x7FFF_FFFF
  const WRONG_TYPE: int := -2
  const NOT_ALLOCATED: int := -3
  const WRONG_SESSION: int := -4

  /** ALLOCATE_THIS_INDEX, ALLOCATE_ANY_INDEX, ALLOCATE_NEW_INDEX. */
  datatype Flag = This | Any | New

  /** Session 0 is no session. */
  datatype Entry = Entry(value: int, session: nat, held: bool)
  datatype Row = Row(name: Oid, ty: int, entries: seq<Entry>)

  ghost predicate Increasing(es: seq<Entry>) {
    forall p, q | 0 <= p < q < |es| :: es[p].value < es[q].value
  }

  /** Types whose values this model follows: integers, and those the code has no order for. */
  ghost predicate Modelled(ty: int) {
    ty != OCTET_STR && ty != OBJECT_ID
  }

  /** A row of a type without an order has one entry. */
  ghost predicate GoodRow(r: Row) {
    Modelled(r.ty) && |r.entries| > 0 && (r.ty != INTEGER ==> |r.entries| == 1)
  }

  ghost predicate WellFormed(v: seq<Row>) {
    (forall i | 0 <= i < |v| :: GoodRow(v[i])) &&
    (forall i, k | 0 <= i < k < |v| :: Less(v[i].name, v[k].name))
  }

  /** Values that can be an index, in strictly increasing order. */
  ghost predicate RowTidy(es: seq<Entry>) {
    Increasing(es) && forall j | 0 <= j < |es| :: 0 <= es[j].value <= MAXINT
  }

  ghost predicate Tidy(v: seq<Row>) {
    forall i | 0 <= i < |v| :: RowTidy(v[i].entries)
  }

  // ----- searching

  /** The first row not before a name. */
  ghost function RowAt(v: seq<Row>, name: Oid): (i: nat)
    ensures i <= |v|
  {
    if v == [] || !Less(v[0].name, name) then 0 else 1 + RowAt(v[1..], name)
  }

  lemma {:induction false} RowAtIs(v: seq<Row>, name: Oid, i: nat)
    requires i <= |v| && (forall k | 0 <= k < i :: Less(v[k].name, name)) && (i < |v| ==> !Less(v[i].name, name))
    ensures RowAt(v, name) == i
    decreases |v|
  {
    if i > 0 { RowAtIs(v[1..], name, i - 1); }
  }

  lemma {:induction false} RowAtSplits(v: seq<Row>, name: Oid)
    ensures forall k | 0 <= k < RowAt(v, name) :: Less(v[k].name, name)
    ensures RowAt(v, name) < |v| ==> !Less(v[RowAt(v, name)].name, name)
    decreases |v|
  {
    if v != [] && Less(v[0].name, name) {
      RowAtSplits(v[1..], name);
      forall k | 0 <= k < RowAt(v, name) ensures Less(v[k].name, name) {
        if k > 0 { assert v[k] == v[1..][k - 1]; }
      }
    }
  }

  ghost predicate Found(v: seq<Row>, name: Oid) {
    var i := RowAt(v, name);
    i < |v| && v[i].name == name
  }

  /** The first entry not below a value. */
  ghost function ValueAt(es: seq<Entry>, value: int): (j: nat)
    ensures j <= |es|
  {
    if es == [] || value <= es[0].value then 0 else 1 + ValueAt(es[1..], value)
  }

  lemma {:induction false} ValueAtSplits(es: seq<Entry>, value: int)
    ensures forall k | 0 <= k < ValueAt(es, value) :: es[k].value < value
    ensures ValueAt(es, value) < |es| ==> value <= es[ValueAt(es, value)].value
    decreases |es|
  {
    if es != [] && es[0].value < value {
      ValueAtSplits(es[1..], value);
      forall k | 0 <= k < ValueAt(es, value) ensures es[k].value < value {
        if k > 0 { assert es[k] == es[1..][k - 1]; }
      }
    }
  }

  /** The difference of two longs stored into an int. */
  function ToInt(d: int): int {
    (d + 0x8000_0000) % 0x1_0000_0000 - 0x8000_0000
  }

  lemma ToIntSmall(d: int)
    requires -0x8000_0000 <= d < 0x8000_0000
    ensures ToInt(d) == d
  {
  }

  /** The int has the right sign exactly when the difference fits it. */
  lemma ToIntRight(d: int)
    requires -0x1_0000_0000 < d < 0x1_0000_0000
    ensures (ToInt(d) > 0 <==> d > 0) && (ToInt(d) == 0 <==> d == 0) <==> -0x8000_0000 <= d < 0x8000_0000
  {
  }

  /** Where the search by int differences stops. */
  ghost function PlaceAt(es: seq<Entry>, value: int): (j: nat)
    ensures j <= |es|
  {
    if es == [] || ToInt(value - es[0].value) <= 0 then 0 else 1 + PlaceAt(es[1..], value)
  }

  lemma {:induction false} PlaceAtIs(es: seq<Entry>, value: int, j: nat)
    requires j <= |es| && (forall k | 0 <= k < j :: ToInt(value - es[k].value) > 0)
    requires j < |es| ==> ToInt(value - es[j].value) <= 0
    ensures PlaceAt(es, value) == j
    decreases |es|
  {
    hide ToInt;
    if j > 0 { PlaceAtIs(es[1..], value, j - 1); }
  }

  /** All differences from a value fit an int. */
  ghost predicate Near(es: seq<Entry>, value: int) {
    forall k | 0 <= k < |es| :: -0x8000_0000 <= value - es[k].value < 0x8000_0000
  }

  /** Then int differences tell the order. */
  lemma PlaceIsValueAt(es: seq<Entry>, value: int)
    requires Near(es, value)
    ensures PlaceAt(es, value) == ValueAt(es, value)
    ensures forall k | 0 <= k < |es| :: ToInt(value - es[k].value) == value - es[k].value
  {
    hide ToInt;
    forall k | 0 <= k < |es| ensures ToInt(value - es[k].value) == value - es[k].value {
      ToIntSmall(value - es[k].value);
    }
    ValueAtSplits(es, value);
    PlaceAtIs(es, value, ValueAt(es, value));
  }

  /** The first entry nobody holds. */
  ghost function FreeAt(es: seq<Entry>): (j: nat)
    ensures j <= |es| && (j < |es| ==> !es[j].held)
  {
    if es == [] || !es[0].held then 0 else 1 + FreeAt(es[1..])
  }

  lemma {:induction false} FreeAtIs(es: seq<Entry>, j: nat)
    requires j <= |es| && (forall k | 0 <= k < j :: es[k].held) && (j < |es| ==> !es[j].held)
    ensures FreeAt(es) == j
    decreases |es|
  {
    if j > 0 { FreeAtIs(es[1..], j - 1); }
  }

  const TWO64: int := 0x1_0000_0000_0000_0000

  /** A long as it is stored. */
  function Stored(x: int): nat {
    x % TWO64
  }

  lemma StoredSmall(x: int)
    requires 0 <= x <= MAXINT
    ensures Stored(x) == x
  {
  }

  ghost predicate IsLong(x: int) {
    -0x8000_0000_0000_0000 <= x < 0x8000_0000_0000_0000
  }

  /** Different longs are stored differently. */
  lemma StoredLong(x: int, y: int)
    requires IsLong(x) && IsLong(y)
    ensures Stored(x) == Stored(y) <==> x == y
  {
    StoredIs(x);
    StoredIs(y);
  }

  lemma StoredIs(x: int)
    requires IsLong(x)
    ensures Stored(x) == if x < 0 then x + 0x1_0000_0000_0000_0000 else x
  {
  }

  /** memcmp of two longs stored least significant octet first: is a before b? */
  predicate OctetsLess(a: nat, b: nat)
    decreases a + b
  {
    a != b && (a % 256 < b % 256 || (a % 256 == b % 256 && OctetsLess(a / 256, b / 256)))
  }

  lemma {:induction false} OctetsTotal(a: nat, b: nat)
    ensures OctetsLess(a, b) || a == b || OctetsLess(b, a)
    ensures !(OctetsLess(a, b) && OctetsLess(b, a))
    decreases a + b
  {
    if a != b && a % 256 == b % 256 { OctetsTotal(a / 256, b / 256); }
  }

  /** Octet k of a stored number, the least significant one first. */
  function OctetOf(x: nat, k: nat): nat {
    if k == 0 then x % 256 else OctetOf(x / 256, k - 1)
  }

  /** The first octet in which they differ decides. */
  lemma {:induction false} OctetsLessExact(a: nat, b: nat)
    ensures OctetsLess(a, b) <==> exists k: nat :: FirstLess(a, b, k)
    decreases a + b
  {
    if OctetsLess(a, b) {
      if a % 256 < b % 256 {
        assert FirstLess(a, b, 0);
      } else {
        OctetsLessExact(a / 256, b / 256);
        var k: nat :| FirstLess(a / 256, b / 256, k);
        FirstLessMore(a, b, k);
      }
    }
    if k: nat :| FirstLess(a, b, k) && k > 0 {
      FirstLessMore(a, b, k - 1);
      OctetsLessExact(a / 256, b / 256);
    }
  }

  ghost predicate FirstLess(a: nat, b: nat, k: nat) {
    OctetOf(a, k) < OctetOf(b, k) && forall i: nat | i < k :: OctetOf(a, i) == OctetOf(b, i)
  }

  lemma FirstLessMore(a: nat, b: nat, k: nat)
    ensures FirstLess(a, b, k + 1) <==> a % 256 == b % 256 && FirstLess(a / 256, b / 256, k)
  {
    assert OctetOf(a, 0) == a % 256 && OctetOf(b, 0) == b % 256;
    assert forall i: nat :: OctetOf(a, i + 1) == OctetOf(a / 256, i) && OctetOf(b, i + 1) == OctetOf(b / 256, i);
    if FirstLess(a, b, k + 1) {
      forall i: nat | i < k ensures OctetOf(a / 256, i) == OctetOf(b / 256, i) {
        assert OctetOf(a, i + 1) == OctetOf(b, i + 1);
      }
    }
    if a % 256 == b % 256 && FirstLess(a / 256, b / 256, k) {
      forall i: nat | i < k + 1 ensures OctetOf(a, i) == OctetOf(b, i) {
        if i > 0 { assert OctetOf(a, i) == OctetOf(a / 256, i - 1) && OctetOf(b, i) == OctetOf(b / 256, i - 1); }
      }
    }
  }

  /** Where a search by octets stops. */
  ghost function OctetsAt(es: seq<Entry>, value: int): (j: nat)
    ensures j <= |es|
  {
    if es == [] || !Before(es[0].value, value) then 0 else 1 + OctetsAt(es[1..], value)
  }

  /** One long compares less than another by its stored octets. */
  predicate Before(a: int, b: int) {
    OctetsLess(Stored(a), Stored(b))
  }

  lemma {:induction false} OctetsAtIs(es: seq<Entry>, value: int, j: nat)
    requires j <= |es| && forall k | 0 <= k < j :: Before(es[k].value, value)
    requires j < |es| ==> !Before(es[j].value, value)
    ensures OctetsAt(es, value) == j
    decreases |es|
  {
    hide Before;
    if j > 0 { OctetsAtIs(es[1..], value, j - 1); }
  }

  lemma {:induction false} OctetsAtSplits(es: seq<Entry>, value: int)
    ensures forall k | 0 <= k < OctetsAt(es, value) :: Before(es[k].value, value)
    ensures OctetsAt(es, value) < |es| ==> !Before(es[OctetsAt(es, value)].value, value)
    decreases |es|
  {
    hide Before;
    if es != [] && Before(es[0].value, value) {
      OctetsAtSplits(es[1..], value);
      forall k | 0 <= k < OctetsAt(es, value) ensures Before(es[k].value, value) {
        if k > 0 { assert es[k] == es[1..][k - 1]; }
      }
    }
  }

  // ----- the operations

  ghost function With(v: seq<Row>, i: nat, es: seq<Entry>): seq<Row>
    requires i < |v|
  {
    v[i := v[i].(entries := es)]
  }

  datatype Request = Request(flag: Flag, name: Oid, ty: int, value: int, session: nat)

  /** register_index on the entries of the row found: the new entries and the value handed out. */
  ghost function RegisterInRow(r: Row, q: Request): (seq<Entry>, Option<int>)
    requires |r.entries| > 0
  {
    var es := r.entries;
    if q.ty != r.ty then (es, None)
    else if q.flag != This then
      var j := FreeAt(es);
      if q.flag == Any && j < |es| then (es[j := Entry(es[j].value, q.session, true)], Some(es[j].value))
      else if q.ty != INTEGER then (es, None)
      else var x := es[|es| - 1].value + 1; (es + [Entry(x, q.session, true)], Some(x))
    else if q.ty != INTEGER then (es, None)
    else
      var j := PlaceAt(es, q.value);
      if j < |es| && ToInt(q.value - es[j].value) == 0 then
        if es[j].held then (es, None) else (es[j := Entry(es[j].value, q.session, true)], Some(es[j].value))
      else (Put(es, j, Entry(q.value, q.session, true)), Some(q.value))
  }

  ghost function Register(v: seq<Row>, q: Request): (seq<Row>, Option<int>)
    requires WellFormed(v) && Modelled(q.ty)
  {
    var i := RowAt(v, q.name);
    if Found(v, q.name) then
      var (es, x) := RegisterInRow(v[i], q); (With(v, i, es), x)
    else if q.flag != This && q.ty != INTEGER then (v, None)
    else
      var x := if q.flag == This then q.value else 1;
      (Put(v, i, Row(q.name, q.ty, [Entry(x, q.session, true)])), Some(x))
  }

  /** unregister_index, keeping the entry for reuse or removing it. */
  ghost function Unregister(v: seq<Row>, name: Oid, ty: int, value: int, remember: bool, ss: nat): (seq<Row>, int)
    requires WellFormed(v)
  {
    var i := RowAt(v, name);
    if !Found(v, name) then (v, NOT_ALLOCATED)
    else if ty != v[i].ty then (v, WRONG_TYPE)
    else
      var es := v[i].entries;
      var j := OctetsAt(es, value);
      if j == |es| || Stored(es[j].value) != Stored(value) || !es[j].held then (v, NOT_ALLOCATED)
      else if es[j].session != ss then (v, WRONG_SESSION)
      else if remember then (With(v, i, es[j := Entry(es[j].value, 0, false)]), 0)
      else if |es| == 1 then (Cut(v, i), 0)
      else (With(v, i, Cut(es, j)), 0)
  }

  ghost function FreedOf(e: Entry, ss: nat): Entry {
    if e.session == ss then Entry(e.value, 0, false) else e
  }

  ghost function FreedRow(r: Row, ss: nat): Row {
    Row(r.name, r.ty, seq(|r.entries|, j requires 0 <= j < |r.entries| => FreedOf(r.entries[j], ss)))
  }

  /** unregister_index_by_session. */
  ghost function ReleaseSession(v: seq<Row>, ss: nat): seq<Row> {
    seq(|v|, i requires 0 <= i < |v| => FreedRow(v[i], ss))
  }
}
