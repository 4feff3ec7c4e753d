/** What every run of the index registry keeps, and who holds what. */
module IndexProperties {
  import opened Sequences
  import opened Options
  import opened OidOrder
  import opened IndexSpec

  /** The registry has this entry under this name. */
  ghost predicate Has(v: seq<Row>, name: Oid, e: Entry) {
    exists i | 0 <= i < |v| :: v[i].name == name && e in v[i].entries
  }

  /** Somebody holds a value under a name. */
  ghost predicate Holds(v: seq<Row>, name: Oid, value: int) {
    exists s: nat :: Has(v, name, Entry(value, s, true))
  }

  /** The registry has an entry for a value under a name, held or not. */
  ghost predicate Present(v: seq<Row>, name: Oid, value: int) {
    exists s: nat, h: bool :: Has(v, name, Entry(value, s, h))
  }

  // ----- changing one row

  lemma NamesDiffer(v: seq<Row>, i: nat, k: nat)
    requires WellFormed(v) && i < |v| && k < |v| && v[i].name == v[k].name
    ensures i == k
  {
    LessTotal(v[i].name, v[k].name);
  }

  lemma HasInRow(v: seq<Row>, i: nat, e: Entry)
    requires WellFormed(v) && i < |v|
    ensures Has(v, v[i].name, e) <==> e in v[i].entries
  {
    forall k | 0 <= k < |v| && v[k].name == v[i].name ensures k == i { NamesDiffer(v, i, k); }
  }

  /** New entries for one row. */
  lemma ReplaceRow(v: seq<Row>, i: nat, es: seq<Entry>)
    requires WellFormed(v) && i < |v| && GoodRow(v[i].(entries := es))
    ensures WellFormed(With(v, i, es))
    ensures Tidy(v) ==> (Tidy(With(v, i, es)) <==> RowTidy(es))
    ensures forall n, e :: Has(With(v, i, es), n, e) <==> if n == v[i].name then e in es else Has(v, n, e)
  {
    var w := With(v, i, es);
    forall n, e ensures Has(w, n, e) <==> if n == v[i].name then e in es else Has(v, n, e) {
      HasInRow(w, i, e);
      if n != v[i].name && Has(v, n, e) {
        var k :| 0 <= k < |v| && v[k].name == n && e in v[k].entries;
        assert w[k] == v[k];
      }
    }
    if Tidy(w) { assert RowTidy(w[i].entries); }
  }

  lemma NotFound(v: seq<Row>, name: Oid)
    requires WellFormed(v) && !Found(v, name)
    ensures var i := RowAt(v, name);
            (forall k | 0 <= k < i :: Less(v[k].name, name)) && (forall k | i <= k < |v| :: Less(name, v[k].name))
    ensures forall e :: !Has(v, name, e)
  {
    var i := RowAt(v, name);
    RowAtSplits(v, name);
    LessTotal(name, name);
    if i < |v| { LessTotal(v[i].name, name); }
    forall k | i <= k < |v| ensures Less(name, v[k].name) {
      if i < k { LessTrans(name, v[i].name, v[k].name); }
    }
    forall k | 0 <= k < |v| ensures v[k].name != name { LessTotal(v[k].name, name); }
  }

  /** Rows are in order with x between its neighbours exactly when they are without it. */
  lemma RowsInOrder(v: seq<Row>, i: nat, r: Row, w: seq<Row>)
    requires PutIn(v, i, r, w) && WellFormed(v) && GoodRow(r)
    requires (forall k | 0 <= k < i :: Less(v[k].name, r.name)) && (forall k | i <= k < |v| :: Less(r.name, v[k].name))
    ensures WellFormed(w)
  {
    hide GoodRow, Less;
    forall p, q | 0 <= p < q < |w| ensures Less(w[p].name, w[q].name) {
      PutInAt(v, i, r, w, p);
      PutInAt(v, i, r, w, q);
    }
    forall p | 0 <= p < |w| ensures GoodRow(w[p]) { PutInAt(v, i, r, w, p); }
  }

  lemma RowsWithout(v: seq<Row>, i: nat, r: Row, w: seq<Row>)
    requires PutIn(v, i, r, w) && WellFormed(w)
    ensures WellFormed(v)
  {
    hide GoodRow, Less;
    forall p, q | 0 <= p < q < |v| ensures Less(v[p].name, v[q].name) {
      assert v[p] == w[if p < i then p else p + 1] && v[q] == w[if q < i then q else q + 1];
    }
    forall p | 0 <= p < |v| ensures GoodRow(v[p]) { assert v[p] == w[if p < i then p else p + 1]; }
  }

  lemma RowsHave(v: seq<Row>, i: nat, r: Row, w: seq<Row>, n: Oid, e: Entry)
    requires PutIn(v, i, r, w) && WellFormed(w)
    ensures Has(w, n, e) <==> if n == r.name then e in r.entries else Has(v, n, e)
    ensures !Has(v, r.name, e)
  {
    hide WellFormed, Less;
    HasInRow(w, i, e);
    if Has(v, n, e) {
      var k :| 0 <= k < |v| && v[k].name == n && e in v[k].entries;
      var m := if k < i then k else k + 1;
      assert w[m] == v[k];
      if n == r.name { NamesDiffer(w, m, i); }
    }
    if Has(v, r.name, e) {
      var k :| 0 <= k < |v| && v[k].name == r.name && e in v[k].entries;
      var m := if k < i then k else k + 1;
      assert w[m] == v[k];
      NamesDiffer(w, m, i);
    }
    if Has(w, n, e) && n != r.name {
      var k :| 0 <= k < |w| && w[k].name == n && e in w[k].entries;
      PutInAt(v, i, r, w, k);
      assert v[if k < i then k else k - 1] == w[k];
    }
  }

  lemma RowsRange(v: seq<Row>, i: nat, r: Row, w: seq<Row>)
    requires PutIn(v, i, r, w)
    ensures Tidy(w) <==> Tidy(v) && RowTidy(r.entries)
  {
    hide RowTidy;
    if Tidy(w) {
      forall k | 0 <= k < |v| ensures RowTidy(v[k].entries) { assert v[k] == w[if k < i then k else k + 1]; }
      assert RowTidy(w[i].entries);
    }
    if Tidy(v) && RowTidy(r.entries) {
      forall k | 0 <= k < |w| ensures RowTidy(w[k].entries) { PutInAt(v, i, r, w, k); }
    }
  }

  /** A row of its own for a new name. */
  lemma InsertRow(v: seq<Row>, r: Row)
    requires WellFormed(v) && !Found(v, r.name) && GoodRow(r)
    ensures var i := RowAt(v, r.name); var w := Put(v, i, r);
            WellFormed(w) && (Tidy(w) <==> Tidy(v) && RowTidy(r.entries)) &&
            forall n, e :: Has(w, n, e) <==> if n == r.name then e in r.entries else Has(v, n, e)
  {
    hide WellFormed, GoodRow, Tidy, Has, PutIn;
    var i := RowAt(v, r.name);
    var w := Put(v, i, r);
    NotFound(v, r.name);
    PutInIs(v, i, r);
    RowsInOrder(v, i, r, w);
    RowsRange(v, i, r, w);
    forall n, e ensures Has(w, n, e) <==> if n == r.name then e in r.entries else Has(v, n, e) {
      RowsHave(v, i, r, w, n, e);
    }
  }

  /** The last entry of a row takes the row with it. */
  lemma RemoveRow(v: seq<Row>, i: nat)
    requires WellFormed(v) && i < |v|
    ensures var w := Cut(v, i);
            WellFormed(w) && (Tidy(v) ==> Tidy(w)) &&
            forall n, e :: Has(w, n, e) <==> n != v[i].name && Has(v, n, e)
  {
    hide WellFormed, Tidy, Has, PutIn;
    var w := Cut(v, i);
    TakenOutIs(v, i);
    RowsWithout(w, i, v[i], v);
    RowsRange(w, i, v[i], v);
    forall n, e ensures Has(w, n, e) <==> n != v[i].name && Has(v, n, e) {
      RowsHave(w, i, v[i], v, n, e);
    }
  }

  // ----- changing one entry of a row

  lemma ClaimEntry(es: seq<Entry>, j: nat, x: Entry)
    requires Increasing(es) && j < |es| && x.value == es[j].value
    ensures Increasing(es[j := x]) && (RowTidy(es) ==> RowTidy(es[j := x]))
    ensures forall e :: e in es[j := x] <==> e == x || (e in es && e.value != x.value)
  {
    var fs := es[j := x];
    forall e ensures e in fs <==> e == x || (e in es && e.value != x.value) {
      if e in fs && e != x {
        var k :| 0 <= k < |fs| && fs[k] == e;
        assert es[k] == e && k != j;
      }
      if e in es && e.value != x.value {
        var k :| 0 <= k < |es| && es[k] == e;
        assert fs[k] == e;
      }
      if e == x { assert fs[j] == e; }
    }
  }

  lemma InsertEntry(es: seq<Entry>, j: nat, x: Entry)
    requires Increasing(es) && j <= |es|
    requires (forall k | 0 <= k < j :: es[k].value < x.value) && (forall k | j <= k < |es| :: x.value < es[k].value)
    ensures Increasing(Put(es, j, x))
    ensures RowTidy(es) ==> (RowTidy(Put(es, j, x)) <==> 0 <= x.value <= MAXINT)
    ensures forall e :: e in Put(es, j, x) <==> e == x || (e in es && e.value != x.value)
  {
    var fs := Put(es, j, x);
    PutInIs(es, j, x);
    forall p, q | 0 <= p < q < |fs| ensures fs[p].value < fs[q].value {
      PutInAt(es, j, x, fs, p);
      PutInAt(es, j, x, fs, q);
    }
    forall e ensures e in fs <==> e == x || (e in es && e.value != x.value) {
      PutInMembers(es, j, x, fs, e);
      if e in es {
        var k :| 0 <= k < |es| && es[k] == e;
        assert es[k].value != x.value;
      }
    }
    if RowTidy(fs) { assert 0 <= fs[j].value <= MAXINT; }
    if 0 <= x.value <= MAXINT && RowTidy(es) {
      forall k | 0 <= k < |fs| ensures 0 <= fs[k].value <= MAXINT { PutInAt(es, j, x, fs, k); }
    }
  }

  lemma RemoveEntry(es: seq<Entry>, j: nat)
    requires Increasing(es) && j < |es|
    ensures Increasing(Cut(es, j)) && (RowTidy(es) ==> RowTidy(Cut(es, j)))
    ensures forall e :: e in Cut(es, j) <==> e in es && e.value != es[j].value
  {
    var fs := Cut(es, j);
    TakenOutIs(es, j);
    TakenOutOrder(fs, j, es);
    forall e ensures e in fs <==> e in es && e.value != es[j].value {
      PutInMembers(fs, j, es[j], es, e);
      if e in fs { TakenOutValue(fs, j, es, e); }
    }
  }

  lemma TakenOutOrder(fs: seq<Entry>, j: nat, es: seq<Entry>)
    requires Increasing(es) && j < |es| && PutIn(fs, j, es[j], es)
    ensures Increasing(fs) && (RowTidy(es) ==> RowTidy(fs))
  {
    forall k | 0 <= k < |fs| ensures fs[k] == es[if k < j then k else k + 1] {}
  }

  lemma TakenOutValue(fs: seq<Entry>, j: nat, es: seq<Entry>, e: Entry)
    requires Increasing(es) && j < |es| && PutIn(fs, j, es[j], es) && e in fs
    ensures e.value != es[j].value
  {
    var k :| 0 <= k < |fs| && fs[k] == e;
    assert fs[k] == es[if k < j then k else k + 1];
  }

  // ----- registration

  /** The type is modelled, and a particular value asked for can be an index. */
  ghost predicate GoodRequest(q: Request) {
    Modelled(q.ty) && (q.flag == This ==> 0 <= q.value <= MAXINT)
  }

  /** A value after the last one is wanted and the last one is the largest there is. */
  ghost predicate RowFull(r: Row, q: Request)
    requires |r.entries| > 0
  {
    var es := r.entries;
    q.flag != This && q.ty == INTEGER == r.ty && !(q.flag == Any && FreeAt(es) < |es|) && es[|es| - 1].value == MAXINT
  }

  ghost predicate Full(v: seq<Row>, q: Request)
    requires WellFormed(v)
  {
    Found(v, q.name) && RowFull(v[RowAt(v, q.name)], q)
  }

  /** Entries after value x went to a session. */
  ghost predicate Handed(was: seq<Entry>, es: seq<Entry>, x: int, ss: nat) {
    (forall e :: e in es <==> e == Entry(x, ss, true) || (e in was && e.value != x)) &&
    (forall e | e in was && e.value == x :: !e.held)
  }

  lemma LastIsFree(es: seq<Entry>, ss: nat)
    requires Increasing(es) && es != []
    ensures var x := es[|es| - 1].value + 1; var fs := es + [Entry(x, ss, true)];
            Increasing(fs) && Handed(es, fs, x, ss) && (forall e | e in es :: e.value != x) &&
            (RowTidy(es) ==> (RowTidy(fs) <==> es[|es| - 1].value < MAXINT))
  {
    var x := es[|es| - 1].value + 1;
    var e := Entry(x, ss, true);
    assert es[..|es|] + [e] + es[|es|..] == es + [e];
    InsertEntry(es, |es|, e);
    forall e | e in es ensures e.value != x {
      var k :| 0 <= k < |es| && es[k] == e;
    }
  }

  lemma FreeClaimed(es: seq<Entry>, j: nat, ss: nat)
    requires Increasing(es) && j < |es| && !es[j].held
    ensures var x := es[j].value; var fs := es[j := Entry(x, ss, true)];
            Increasing(fs) && Handed(es, fs, x, ss) && (RowTidy(es) ==> RowTidy(fs))
  {
    ClaimEntry(es, j, Entry(es[j].value, ss, true));
    forall e | e in es && e.value == es[j].value ensures !e.held {
      var k :| 0 <= k < |es| && es[k] == e;
      assert k == j;
    }
  }

  lemma ValueInserted(es: seq<Entry>, value: int, ss: nat)
    requires RowTidy(es) && 0 <= value <= MAXINT
    requires var j := ValueAt(es, value); j < |es| ==> es[j].value != value
    ensures var j := ValueAt(es, value); var fs := Put(es, j, Entry(value, ss, true));
            Handed(es, fs, value, ss) && |fs| > 0 && RowTidy(fs)
  {
    ValueAtSplits(es, value);
    var j := ValueAt(es, value);
    InsertEntry(es, j, Entry(value, ss, true));
    forall k | 0 <= k < |es| ensures es[k].value != value {
      if j < k { assert es[j].value < es[k].value; }
    }
  }

  /** Whatever is asked of it, a row keeps its form. */
  lemma RowKeepsForm(r: Row, q: Request)
    requires GoodRow(r)
    ensures var (es, x) := RegisterInRow(r, q); GoodRow(r.(entries := es)) && (x.None? ==> es == r.entries)
  {
  }

  lemma RegisterRow(r: Row, q: Request)
    requires GoodRow(r) && RowTidy(r.entries) && GoodRequest(q)
    ensures var (es, x) := RegisterInRow(r, q);
            (x.Some? ==> Handed(r.entries, es, x.value, q.session)) &&
            (x.Some? && q.flag == New ==> forall e | e in r.entries :: e.value != x.value) &&
            (x.Some? && q.flag == This ==> x.value == q.value) &&
            (RowTidy(es) <==> !RowFull(r, q))
  {
    TidyParts(r.entries);
    hide Handed, Increasing, RowTidy, ToInt;
    var es := r.entries;
    if q.ty == r.ty {
      if q.flag != This {
        var j := FreeAt(es);
        if q.flag == Any && j < |es| {
          FreeClaimed(es, j, q.session);
        } else if q.ty == INTEGER {
          LastIsFree(es, q.session);
          LastInRange(es);
        }
      } else if q.ty == INTEGER {
        RegisterThis(r, q);
      }
    }
  }

  lemma RegisterThis(r: Row, q: Request)
    requires GoodRow(r) && RowTidy(r.entries) && GoodRequest(q) && q.flag == This && q.ty == INTEGER == r.ty
    ensures var (es, x) := RegisterInRow(r, q);
            RowTidy(es) && (x.Some? ==> Handed(r.entries, es, x.value, q.session) && x.value == q.value)
  {
    hide Handed, ToInt;
    var es := r.entries;
    var j := ValueAt(es, q.value);
    PlaceIsValueAt(es, q.value);
    hide RowTidy, ValueAt, PlaceAt;
    if j < |es| && es[j].value == q.value {
      TidyParts(es);
      if !es[j].held { FreeClaimed(es, j, q.session); }
    } else {
      ValueInserted(es, q.value, q.session);
    }
  }

  lemma TidyParts(es: seq<Entry>)
    requires RowTidy(es)
    ensures Increasing(es)
  {
  }

  lemma LastInRange(es: seq<Entry>)
    requires es != []
    ensures RowTidy(es) ==> 0 <= es[|es| - 1].value <= MAXINT
  {
  }

  /** Whatever is asked of it, the registry stays well formed. */
  lemma RegisterWellFormed(v: seq<Row>, q: Request)
    requires WellFormed(v) && Modelled(q.ty)
    ensures WellFormed(Register(v, q).0) && (Register(v, q).1.None? ==> Register(v, q).0 == v)
  {
    hide WellFormed, GoodRow, Tidy, Has, RegisterInRow;
    var i := RowAt(v, q.name);
    if Found(v, q.name) {
      RowIsGood(v, i);
      RowKeepsForm(v[i], q);
      ReplaceRow(v, i, RegisterInRow(v[i], q).0);
      assert With(v, i, v[i].entries) == v;
    } else {
      OneEntry(if q.flag == This then q.value else 1, q.session);
      InsertRow(v, Row(q.name, q.ty, [Entry(if q.flag == This then q.value else 1, q.session, true)]));
    }
  }

  /** Registration keeps a tidy registry tidy, unless a row is used up; it hands out a value nobody holds, the one
      asked for if any, records who holds it now, and changes no other entry. */
  lemma RegisterExclusive(v: seq<Row>, q: Request)
    requires WellFormed(v) && Tidy(v) && GoodRequest(q)
    ensures WellFormed(Register(v, q).0)
    ensures Tidy(Register(v, q).0) <==> !Full(v, q)
    ensures var (w, x) := Register(v, q);
            if x.None? then w == v
            else !Holds(v, q.name, x.value) && (q.flag == This ==> x.value == q.value) &&
                 (q.flag == New ==> !Present(v, q.name, x.value)) &&
                 forall n, e :: Has(w, n, e) <==>
                                (n == q.name && e == Entry(x.value, q.session, true)) ||
                                (Has(v, n, e) && !(n == q.name && e.value == x.value))
  {
    hide WellFormed, GoodRow, Tidy, Has, RegisterInRow, RowFull, RowTidy;
    var i := RowAt(v, q.name);
    if Found(v, q.name) {
      var r := v[i];
      RowIsGood(v, i);
      RowKeepsForm(r, q);
      RegisterRow(r, q);
      var (es, x) := RegisterInRow(r, q);
      ReplaceRow(v, i, es);
      forall e ensures Has(v, q.name, e) <==> e in r.entries { HasInRow(v, i, e); }
      if x.None? { assert With(v, i, es) == v; }
    } else {
      NotFound(v, q.name);
      var x := if q.flag == This then q.value else 1;
      var es := [Entry(x, q.session, true)];
      OneEntry(x, q.session);
      InsertRow(v, Row(q.name, q.ty, es));
    }
  }

  // ----- when a value is handed out, and which

  /** The registry has an entry under a name that nobody holds. */
  ghost predicate FreeFor(v: seq<Row>, name: Oid, value: int) {
    exists s: nat :: Has(v, name, Entry(value, s, false))
  }

  /** In a tidy registry an integer is refused exactly when it is held already; any or a new integer is never
      refused. */
  lemma RegisterWhen(v: seq<Row>, q: Request)
    requires WellFormed(v) && Tidy(v) && GoodRequest(q) && q.ty == INTEGER
    requires Found(v, q.name) ==> v[RowAt(v, q.name)].ty == INTEGER
    ensures Register(v, q).1.Some? <==> (q.flag == This ==> !Holds(v, q.name, q.value))
  {
    hide WellFormed, GoodRow, Has, Holds, RegisterInRow, Tidy;
    if Found(v, q.name) {
      var i := RowAt(v, q.name);
      RowIsGood(v, i);
      FoundRow(v, q.name);
      HoldsInRow(v, i, q.value);
      RefusedInRow(v[i], q);
    } else {
      NotFound(v, q.name);
      NotHeld(v, q.name, q.value);
    }
  }

  lemma NotHeld(v: seq<Row>, name: Oid, value: int)
    requires forall e :: !Has(v, name, e)
    ensures !Holds(v, name, value)
  {
    hide Has;
  }

  lemma RefusedInRow(r: Row, q: Request)
    requires GoodRow(r) && RowTidy(r.entries) && GoodRequest(q) && q.ty == INTEGER == r.ty
    ensures RegisterInRow(r, q).1.Some? <==> (q.flag == This ==> !HeldIn(r.entries, q.value))
  {
    hide ToInt;
    var es := r.entries;
    if q.flag == This {
      PlaceIsValueAt(es, q.value);
      ValueAtSplits(es, q.value);
      hide PlaceAt, ValueAt;
    }
  }

  /** Of other types only an entry that is there and free is handed out, and the first value of a name if it is given;
      and nothing of a type the name does not have. */
  lemma RegisterOther(v: seq<Row>, q: Request)
    requires WellFormed(v) && Modelled(q.ty)
    ensures !Found(v, q.name) && q.ty != INTEGER ==> (Register(v, q).1.Some? <==> q.flag == This)
    ensures Found(v, q.name) && q.ty != v[RowAt(v, q.name)].ty ==> Register(v, q).1.None?
    ensures Found(v, q.name) && q.ty == v[RowAt(v, q.name)].ty != INTEGER ==>
              (Register(v, q).1.Some? <==> q.flag == Any && !v[RowAt(v, q.name)].entries[0].held)
  {
    if Found(v, q.name) { RowIsGood(v, RowAt(v, q.name)); }
  }

  /** Which value is handed out: the one asked for; for a name without values 1; for any value the least one that is
      free; and otherwise one above the greatest. */
  lemma RegisterValue(v: seq<Row>, q: Request, x: int)
    requires WellFormed(v) && Tidy(v) && GoodRequest(q) && q.ty == INTEGER && Register(v, q).1 == Some(x)
    ensures q.flag == This ==> x == q.value
    ensures q.flag != This && !Found(v, q.name) ==> x == 1
    ensures q.flag == Any && (exists y :: FreeFor(v, q.name, y)) ==>
              FreeFor(v, q.name, x) && forall y | FreeFor(v, q.name, y) :: x <= y
    ensures Found(v, q.name) && (q.flag == New || (q.flag == Any && !exists y :: FreeFor(v, q.name, y))) ==>
              Present(v, q.name, x - 1) && forall y | Present(v, q.name, y) :: y < x
  {
    hide WellFormed, GoodRow, Has, RegisterInRow, Tidy, FreeFor, Present;
    if Found(v, q.name) {
      var i := RowAt(v, q.name);
      RowIsGood(v, i);
      FoundRow(v, q.name);
      forall y ensures FreeFor(v, q.name, y) <==> FreeIn(v[i].entries, y) { InRowEntries(v, i, y); }
      forall y ensures Present(v, q.name, y) <==> In(v[i].entries, y) { InRowEntries(v, i, y); }
      ValueInRow(v[i], q, x);
    } else {
      NotFound(v, q.name);
      forall y ensures !FreeFor(v, q.name, y) { NothingFree(v, q.name, y); }
    }
  }

  ghost predicate FreeIn(es: seq<Entry>, value: int) {
    exists k | 0 <= k < |es| :: !es[k].held && es[k].value == value
  }

  ghost predicate In(es: seq<Entry>, value: int) {
    exists k | 0 <= k < |es| :: es[k].value == value
  }

  lemma NothingFree(v: seq<Row>, name: Oid, y: int)
    requires forall e :: !Has(v, name, e)
    ensures !FreeFor(v, name, y)
  {
    hide Has;
  }

  lemma InRowEntries(v: seq<Row>, i: nat, y: int)
    requires WellFormed(v) && i < |v|
    ensures FreeFor(v, v[i].name, y) <==> FreeIn(v[i].entries, y)
    ensures Present(v, v[i].name, y) <==> In(v[i].entries, y)
  {
    hide WellFormed, Has;
    var es := v[i].entries;
    forall e ensures Has(v, v[i].name, e) <==> e in es { HasInRow(v, i, e); }
    if FreeIn(es, y) {
      var k :| 0 <= k < |es| && !es[k].held && es[k].value == y;
      assert es[k] == Entry(y, es[k].session, false) && es[k] in es;
    }
    if In(es, y) {
      var k :| 0 <= k < |es| && es[k].value == y;
      assert es[k] == Entry(y, es[k].session, es[k].held) && es[k] in es;
    }
  }

  lemma ValueInRow(r: Row, q: Request, x: int)
    requires GoodRow(r) && RowTidy(r.entries) && GoodRequest(q) && q.ty == INTEGER
    requires RegisterInRow(r, q).1 == Some(x)
    ensures q.flag == This ==> x == q.value
    ensures q.flag == Any && (exists y :: FreeIn(r.entries, y)) ==>
              FreeIn(r.entries, x) && forall y | FreeIn(r.entries, y) :: x <= y
    ensures q.flag == New || (q.flag == Any && !exists y :: FreeIn(r.entries, y)) ==>
              In(r.entries, x - 1) && forall y | In(r.entries, y) :: y < x
  {
    hide ToInt, FreeAt;
    var es := r.entries;
    if q.flag == This {
      PlaceIsValueAt(es, q.value);
    } else {
      FreeAtFirst(es);
      if FreeAt(es) < |es| { assert FreeIn(es, es[FreeAt(es)].value); }
    }
  }

  lemma {:induction false} FreeAtFirst(es: seq<Entry>)
    ensures forall k | 0 <= k < FreeAt(es) :: es[k].held
    ensures FreeAt(es) < |es| ==> !es[FreeAt(es)].held
    decreases |es|
  {
    if es != [] && es[0].held {
      FreeAtFirst(es[1..]);
      forall k | 0 <= k < FreeAt(es) ensures es[k].held {
        if k > 0 { assert es[k] == es[1..][k - 1]; }
      }
    }
  }

  // ----- values beyond the range of an int

  /** Where the search for a value stops: at an entry whose int difference is negative, or zero, or at the end. */
  ghost predicate StopsShort(es: seq<Entry>, value: int) {
    var j := PlaceAt(es, value);
    j < |es| && ToInt(value - es[j].value) < 0
  }

  ghost predicate StopsAtOther(es: seq<Entry>, value: int) {
    var j := PlaceAt(es, value);
    j < |es| && ToInt(value - es[j].value) == 0 && es[j].value != value && !es[j].held
  }

  /** For rows of any longs in order and any value asked for: a value that somebody holds is handed out again exactly
      when the value asked for is held and the search stops short of it; another value than the one asked for is handed
      out exactly when the search stops at a free entry 2^32 or a multiple away. */
  lemma HandedTwiceWhen(v: seq<Row>, q: Request)
    requires WellFormed(v) && q.flag == This && q.ty == INTEGER && Found(v, q.name)
    requires v[RowAt(v, q.name)].ty == INTEGER && Increasing(v[RowAt(v, q.name)].entries)
    ensures var es, x := v[RowAt(v, q.name)].entries, Register(v, q).1;
            (x.Some? && Holds(v, q.name, x.value) <==> Holds(v, q.name, q.value) && StopsShort(es, q.value)) &&
            (x.Some? && x.value != q.value <==> StopsAtOther(es, q.value))
  {
    hide WellFormed, GoodRow, Has, ToInt, PlaceAt, Holds, HeldIn, RegisterInRow, StopsShort, StopsAtOther;
    var i := RowAt(v, q.name);
    FoundRow(v, q.name);
    RowIsGood(v, i);
    HoldsInRow(v, i, q.value);
    var x := RegisterInRow(v[i], q).1;
    if x.Some? { HoldsInRow(v, i, x.value); }
    HandedInRow(v[i], q);
  }

  ghost predicate HeldIn(es: seq<Entry>, value: int) {
    exists k | 0 <= k < |es| :: es[k].held && es[k].value == value
  }

  lemma HoldsInRow(v: seq<Row>, i: nat, value: int)
    requires WellFormed(v) && i < |v|
    ensures Holds(v, v[i].name, value) <==> HeldIn(v[i].entries, value)
  {
    hide WellFormed, Has;
    var es := v[i].entries;
    forall e ensures Has(v, v[i].name, e) <==> e in es { HasInRow(v, i, e); }
    if HeldIn(es, value) {
      var k :| 0 <= k < |es| && es[k].held && es[k].value == value;
      assert es[k] == Entry(value, es[k].session, true) && es[k] in es;
    }
  }

  lemma HandedInRow(r: Row, q: Request)
    requires r.ty == INTEGER == q.ty && q.flag == This && |r.entries| > 0 && Increasing(r.entries)
    ensures var es, x := r.entries, RegisterInRow(r, q).1;
            (x.Some? && HeldIn(es, x.value) <==> HeldIn(es, q.value) && StopsShort(es, q.value)) &&
            (x.Some? && x.value != q.value <==> StopsAtOther(es, q.value))
  {
    hide ToInt, PlaceAt;
    var es, j := r.entries, PlaceAt(r.entries, q.value);
    PlaceStops(es, q.value);
    if HeldIn(es, q.value) {
      var k :| 0 <= k < |es| && es[k].held && es[k].value == q.value;
      NotBeyond(es, q.value, k);
    }
    if j < |es| && !es[j].held { OneOfAValue(es, j); }
  }

  lemma {:induction false} PlaceStops(es: seq<Entry>, value: int)
    ensures PlaceAt(es, value) < |es| ==> ToInt(value - es[PlaceAt(es, value)].value) <= 0
    decreases |es|
  {
    hide ToInt;
    if es != [] { PlaceStops(es[1..], value); }
  }

  /** The search never goes beyond the value itself. */
  lemma NotBeyond(es: seq<Entry>, value: int, k: nat)
    requires k < |es| && es[k].value == value
    ensures PlaceAt(es, value) <= k
    decreases |es|
  {
    assert ToInt(0) == 0;
    if k > 0 && ToInt(value - es[0].value) > 0 { NotBeyond(es[1..], value, k - 1); }
  }

  lemma OneOfAValue(es: seq<Entry>, j: nat)
    requires Increasing(es) && j < |es| && !es[j].held
    ensures !HeldIn(es, es[j].value)
  {
  }

  /** While all differences fit an int neither happens. */
  lemma NearIsRight(es: seq<Entry>, value: int)
    requires Near(es, value) && Increasing(es)
    ensures !StopsAtOther(es, value) && (StopsShort(es, value) ==> forall e | e in es :: e.value != value)
  {
    hide ToInt;
    PlaceIsValueAt(es, value);
    ValueAtSplits(es, value);
    var j := ValueAt(es, value);
    if j < |es| && es[j].value != value {
      forall e | e in es ensures e.value != value {
        var k :| 0 <= k < |es| && es[k] == e;
      }
    }
  }

  /** 2^31+5, held behind 0 and 10, is handed out a second time: its distance from 0 turns negative in an int. */
  lemma HeldHandedOut(name: Oid, a: nat, b: nat)
    ensures var big := 0x8000_0005;
            var v := [Row(name, INTEGER, [Entry(0, a, true), Entry(10, a, true), Entry(big, a, true)])];
            WellFormed(v) && Holds(v, name, big) &&
            Register(v, Request(This, name, INTEGER, big, b)).1 == Some(big)
  {
    var big := 0x8000_0005;
    var es := [Entry(0, a, true), Entry(10, a, true), Entry(big, a, true)];
    var v := [Row(name, INTEGER, es)];
    LessTotal(name, name);
    RowAtIs(v, name, 0);
    assert ToInt(big - es[0].value) < 0;
    PlaceAtIs(es, big, 0);
    assert es[2] in es;
    assert Has(v, name, es[2]);
  }

  /** A new value behind 2^31-1 is 2^31. */
  lemma FullRowOverflows(name: Oid, ss: nat)
    ensures var v := [Row(name, 2, [Entry(0x7FFF_FFFF, ss, true)])];
            var q := Request(New, name, 2, 0, ss);
            WellFormed(v) && Tidy(v) && GoodRequest(q) && Register(v, q).1 == Some(0x8000_0000)
              && !Tidy(Register(v, q).0)
  {
    var v := [Row(name, 2, [Entry(0x7FFF_FFFF, ss, true)])];
    var q := Request(New, name, 2, 0, ss);
    LessTotal(name, name);
    RowAtIs(v, name, 0);
    RegisterExclusive(v, q);
  }

  lemma OneEntry(x: int, ss: nat)
    ensures forall name, ty | Modelled(ty) :: GoodRow(Row(name, ty, [Entry(x, ss, true)]))
    ensures RowTidy([Entry(x, ss, true)]) <==> 0 <= x <= MAXINT
    ensures forall e :: e in [Entry(x, ss, true)] <==> e == Entry(x, ss, true)
  {
    var es := [Entry(x, ss, true)];
    if RowTidy(es) { assert 0 <= es[0].value <= MAXINT; }
  }

  lemma RowIsGood(v: seq<Row>, i: nat)
    requires WellFormed(v) && i < |v|
    ensures GoodRow(v[i]) && |v[i].entries| > 0
    ensures Tidy(v) ==> RowTidy(v[i].entries)
  {
  }

  // ----- release

  /** The entry asked for can be reached by its octets: everything before it in its row compares less. */
  ghost predicate Reachable(v: seq<Row>, name: Oid, ty: int, value: int, e: Entry)
    requires WellFormed(v)
  {
    Found(v, name) && v[RowAt(v, name)].ty == ty &&
    var es := v[RowAt(v, name)].entries;
    exists j | 0 <= j < |es| ::
      es[j] == e && e.value == value && forall k | 0 <= k < j :: Before(es[k].value, value)
  }

  /** The octet search finds an entry exactly when all those before it compare less. */
  lemma OctetSearch(es: seq<Entry>, value: int, j: nat)
    requires j < |es| && es[j].value == value
    ensures OctetsAt(es, value) == j <==> forall k | 0 <= k < j :: Before(es[k].value, value)
  {
    OctetsAtSplits(es, value);
    OctetsTotal(Stored(value), Stored(value));
    if forall k | 0 <= k < j :: Before(es[k].value, value) {
      OctetsAtIs(es, value, j);
    }
  }

  ghost predicate Longs(v: seq<Row>) {
    forall i, j | 0 <= i < |v| && 0 <= j < |v[i].entries| :: IsLong(v[i].entries[j].value)
  }

  /** For any registry and any long: release succeeds exactly when the entry is held by the caller's session and can be
      reached by its octets. */
  lemma UnregisterWhen(v: seq<Row>, name: Oid, ty: int, value: int, remember: bool, ss: nat)
    requires WellFormed(v) && Longs(v) && IsLong(value)
    ensures Unregister(v, name, ty, value, remember, ss).1 == 0
            <==> Reachable(v, name, ty, value, Entry(value, ss, true))
  {
    if Found(v, name) && v[RowAt(v, name)].ty == ty {
      var es := v[RowAt(v, name)].entries;
      var j := OctetsAt(es, value);
      var e := Entry(value, ss, true);
      if j < |es| { StoredLong(es[j].value, value); }
      if j < |es| && es[j] == e { OctetSearch(es, value, j); }
      forall k | 0 <= k < |es| && es[k] == e
        ensures OctetsAt(es, value) == k <==> forall m | 0 <= m < k :: Before(es[m].value, value)
      {
        OctetSearch(es, value, k);
      }
    }
  }

  /** A value in increasing order need not be in octet order: 256 behind 1 cannot be released. */
  lemma ReleaseMisses(name: Oid, ss: nat, remember: bool)
    ensures var v := [Row(name, INTEGER, [Entry(1, ss, true), Entry(256, ss, true)])];
            WellFormed(v) && Tidy(v) && Holds(v, name, 256) &&
            Unregister(v, name, INTEGER, 256, remember, ss) == (v, NOT_ALLOCATED)
  {
    var v := [Row(name, INTEGER, [Entry(1, ss, true), Entry(256, ss, true)])];
    LessTotal(name, name);
    RowAtIs(v, name, 0);
    StoredSmall(1);
    StoredSmall(256);
    assert !OctetsLess(1, 256);
    assert v[0].entries[1] == Entry(256, ss, true);
    assert Has(v, name, Entry(256, ss, true));
  }

  /** A release changes exactly the entry asked for, and nothing when it fails. */
  lemma UnregisterExact(v: seq<Row>, name: Oid, ty: int, value: int, remember: bool, ss: nat)
    requires WellFormed(v) && Tidy(v) && IsLong(value)
    ensures var (w, rc) := Unregister(v, name, ty, value, remember, ss);
            WellFormed(w) && Tidy(w) &&
            if rc != 0 then w == v
            else Has(v, name, Entry(value, ss, true)) &&
                 forall n, e :: Has(w, n, e) <==>
                                (remember && n == name && e == Entry(value, 0, false)) ||
                                (Has(v, n, e) && !(n == name && e.value == value))
  {
    hide WellFormed, GoodRow, Tidy, Has, RowTidy, Increasing, Found;
    var i := RowAt(v, name);
    if Found(v, name) && Unregister(v, name, ty, value, remember, ss).1 == 0 {
      FoundRow(v, name);
      RowIsGood(v, i);
      var es := v[i].entries;
      RowRange(v, i);
      var j := OctetsAt(es, value);
      TidyParts(es);
      LongAt(es, j);
      StoredLong(es[j].value, value);
      forall e ensures Has(v, name, e) <==> e in es { HasInRow(v, i, e); }
      assert es[j] in es;
      if remember {
        ClaimEntry(es, j, Entry(value, 0, false));
        GoodAgain(v[i], es[j := Entry(value, 0, false)]);
        ReplaceRow(v, i, es[j := Entry(value, 0, false)]);
      } else if |es| == 1 {
        RemoveRow(v, i);
        assert forall e | e in es :: e == es[0];
      } else {
        RemoveEntry(es, j);
        GoodAgain(v[i], Cut(es, j));
        ReplaceRow(v, i, Cut(es, j));
      }
    }
  }

  lemma FoundRow(v: seq<Row>, name: Oid)
    requires Found(v, name)
    ensures RowAt(v, name) < |v| && v[RowAt(v, name)].name == name
  {
  }

  lemma RowRange(v: seq<Row>, i: nat)
    requires Tidy(v) && i < |v|
    ensures RowTidy(v[i].entries)
  {
  }

  lemma LongAt(es: seq<Entry>, j: nat)
    requires RowTidy(es) && j < |es|
    ensures IsLong(es[j].value)
  {
  }

  /** Whatever is released, the registry stays well formed. */
  lemma UnregisterWellFormed(v: seq<Row>, name: Oid, ty: int, value: int, remember: bool, ss: nat)
    requires WellFormed(v)
    ensures WellFormed(Unregister(v, name, ty, value, remember, ss).0)
  {
    hide WellFormed, GoodRow, Tidy, Has, RowTidy, Found;
    var i := RowAt(v, name);
    if Found(v, name) && Unregister(v, name, ty, value, remember, ss).1 == 0 {
      FoundRow(v, name);
      RowIsGood(v, i);
      var es := v[i].entries;
      var j := OctetsAt(es, value);
      if remember {
        GoodAgain(v[i], es[j := Entry(es[j].value, 0, false)]);
        ReplaceRow(v, i, es[j := Entry(es[j].value, 0, false)]);
      } else if |es| == 1 {
        RemoveRow(v, i);
      } else {
        GoodAgain(v[i], Cut(es, j));
        ReplaceRow(v, i, Cut(es, j));
      }
    }
  }

  lemma GoodAgain(r: Row, es: seq<Entry>)
    requires GoodRow(r) && 0 < |es| && (|es| == |r.entries| || |r.entries| > 1)
    ensures GoodRow(r.(entries := es))
  {
  }

  /** The result codes of a release: -3 for a name without values, -2 for a wrong type, -4 when the search stops at the
      value but another session holds it, 0 as UnregisterWhen says, and otherwise -3. */
  lemma UnregisterCodes(v: seq<Row>, name: Oid, ty: int, value: int, remember: bool, ss: nat)
    requires WellFormed(v) && Longs(v) && IsLong(value)
    ensures var rc := Unregister(v, name, ty, value, remember, ss).1;
            if !Found(v, name) then rc == -3
            else if v[RowAt(v, name)].ty != ty then rc == -2
            else if Reachable(v, name, ty, value, Entry(value, ss, true)) then rc == 0
            else if exists s: nat :: s != ss && Reachable(v, name, ty, value, Entry(value, s, true)) then rc == -4
            else rc == -3
  {
    hide WellFormed, Reachable, Longs;
    UnregisterWhen(v, name, ty, value, remember, ss);
    if Found(v, name) && v[RowAt(v, name)].ty == ty {
      var es := v[RowAt(v, name)].entries;
      var j := OctetsAt(es, value);
      if j < |es| && es[j].held && Stored(es[j].value) == Stored(value) {
        ReachedAt(v, name, ty, value);
        assert Reachable(v, name, ty, value, Entry(value, es[j].session, true));
      } else {
        forall s: nat ensures !Reachable(v, name, ty, value, Entry(value, s, true)) {
          UnregisterWhen(v, name, ty, value, remember, s);
        }
      }
    }
  }

  lemma ReachedAt(v: seq<Row>, name: Oid, ty: int, value: int)
    requires WellFormed(v) && Longs(v) && IsLong(value) && Found(v, name) && v[RowAt(v, name)].ty == ty
    requires var es := v[RowAt(v, name)].entries; var j := OctetsAt(es, value);
             j < |es| && es[j].held && Stored(es[j].value) == Stored(value)
    ensures var es := v[RowAt(v, name)].entries; var j := OctetsAt(es, value);
            Reachable(v, name, ty, value, Entry(value, es[j].session, true))
  {
    var es := v[RowAt(v, name)].entries;
    var j := OctetsAt(es, value);
    StoredLong(es[j].value, value);
    OctetsAtSplits(es, value);
    assert es[j] == Entry(value, es[j].session, true);
  }

  /** A session that goes away frees exactly its own entries: these stay for reuse, held by nobody, and all others
      stay as they are. */
  lemma ReleaseSessionExact(v: seq<Row>, ss: nat)
    requires WellFormed(v) && Tidy(v)
    ensures WellFormed(ReleaseSession(v, ss)) && Tidy(ReleaseSession(v, ss))
    ensures forall n, x, s, h :: Has(ReleaseSession(v, ss), n, Entry(x, s, h)) <==>
              (s != ss && Has(v, n, Entry(x, s, h))) || (s == 0 && !h && exists b :: Has(v, n, Entry(x, ss, b)))
  {
    var w := ReleaseSession(v, ss);
    forall i | 0 <= i < |v| ensures GoodRow(w[i]) && RowTidy(w[i].entries) && w[i].name == v[i].name {
      FreedRowGood(v[i], ss);
    }
    hide WellFormed, Tidy, Has;
    forall n, x, s, h ensures Has(w, n, Entry(x, s, h)) <==>
      (s != ss && Has(v, n, Entry(x, s, h))) || (s == 0 && !h && exists b :: Has(v, n, Entry(x, ss, b)))
    {
      FreedHas(v, ss, n, Entry(x, s, h));
    }
  }

  lemma FreedHas(v: seq<Row>, ss: nat, n: Oid, e: Entry)
    ensures Has(ReleaseSession(v, ss), n, e) <==> exists f | Has(v, n, f) :: e == FreedOf(f, ss)
  {
    hide FreedOf;
    var w := ReleaseSession(v, ss);
    if Has(w, n, e) {
      var i :| 0 <= i < |w| && w[i].name == n && e in w[i].entries;
      var j :| 0 <= j < |w[i].entries| && w[i].entries[j] == e;
      assert Has(v, n, v[i].entries[j]);
    }
    if f :| Has(v, n, f) && e == FreedOf(f, ss) {
      var i :| 0 <= i < |v| && v[i].name == n && f in v[i].entries;
      var j :| 0 <= j < |v[i].entries| && v[i].entries[j] == f;
      assert w[i].entries[j] == e;
    }
  }

  lemma FreedRowGood(r: Row, ss: nat)
    requires GoodRow(r) && RowTidy(r.entries)
    ensures GoodRow(FreedRow(r, ss)) && RowTidy(FreedRow(r, ss).entries)
  {
    var es, fs := r.entries, FreedRow(r, ss).entries;
    assert forall j | 0 <= j < |es| :: fs[j].value == es[j].value;
  }

  // ----- runs

  datatype Op =
    | DoRegister(q: Request)
    | DoUnregister(name: Oid, ty: int, value: int, remember: bool, session: nat)
    | DoRelease(gone: nat)

  ghost function Apply(v: seq<Row>, op: Op): seq<Row>
    requires WellFormed(v) && (op.DoRegister? ==> Modelled(op.q.ty))
  {
    match op
    case DoRegister(q) => Register(v, q).0
    case DoUnregister(name, ty, value, remember, ss) => Unregister(v, name, ty, value, remember, ss).0
    case DoRelease(ss) => ReleaseSession(v, ss)
  }

  /** A run in which every value asked for can be an index and no row is used up passes through these registries. */
  ghost predicate Run(states: seq<seq<Row>>, ops: seq<Op>) {
    |states| == |ops| + 1 && states[0] == [] &&
    forall i | 0 <= i < |ops| ::
      WellFormed(states[i]) && Tidy(states[i]) ==>
        (ops[i].DoRegister? ==> GoodRequest(ops[i].q) && !Full(states[i], ops[i].q))
          && (ops[i].DoUnregister? ==> IsLong(ops[i].value))
          && states[i + 1] == Apply(states[i], ops[i])
  }

  lemma {:induction false} RunStaysGood(states: seq<seq<Row>>, ops: seq<Op>, i: nat)
    requires Run(states, ops) && i < |states|
    ensures WellFormed(states[i]) && Tidy(states[i])
  {
    hide WellFormed, Tidy;
    if i == 0 {
      EmptyGood();
    } else {
      RunStaysGood(states, ops, i - 1);
      var v := states[i - 1];
      match ops[i - 1]
      case DoRegister(q) => RegisterExclusive(v, q);
      case DoUnregister(name, ty, value, remember, ss) => UnregisterExact(v, name, ty, value, remember, ss);
      case DoRelease(ss) => ReleaseSessionExact(v, ss);
    }
  }

  lemma EmptyGood()
    ensures WellFormed([]) && Tidy([])
  {
  }
}
