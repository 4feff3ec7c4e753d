/** The linked registry of agent_index.c: rows hang together by nextIdx, and every node of a row points by nextOid to
    the head of the next row. */
module AgentIndex {
  import opened Sequences
  import opened Options
  import opened OidOrder
  import opened IndexSpec
  import opened IndexProperties

  /** struct snmp_index; the variable binding does not change once the node is made. */
  class Node {
    const name: Oid
    const ty: int
    const value: int
    var held: bool
    var session: nat
    var nextOid: Node?
    var nextIdx: Node?

    constructor (q: Request, v: int)
      ensures name == q.name && ty == q.ty && value == v && held && session == q.session
      ensures nextOid == null && nextIdx == null
    {
      name, ty, value, held, session := q.name, q.ty, v, true, q.session;
      nextOid, nextIdx := null, null;
    }

    ghost function Entry(): Entry
      reads this`held, this`session
    {
      IndexSpec.Entry(value, session, held)
    }
  }

  ghost function Nodes(rows: seq<seq<Node>>): set<Node> {
    set i, j | 0 <= i < |rows| && 0 <= j < |rows[i]| :: rows[i][j]
  }

  /** The head of a row, null past the last row. */
  ghost function HeadOf(rows: seq<seq<Node>>, i: nat): Node? {
    if i < |rows| && |rows[i]| > 0 then rows[i][0] else null
  }

  ghost function After(row: seq<Node>, j: nat): Node? {
    if j + 1 < |row| then row[j + 1] else null
  }

  ghost predicate IdxLinks(rows: seq<seq<Node>>)
    reads Nodes(rows)`nextIdx
  {
    IdxAll(rows)
  }

  ghost predicate IdxAll(rows: seq<seq<Node>>)
    reads Nodes(rows)`nextIdx
  {
    forall i, j {:trigger rows[i][j].nextIdx} | 0 <= i < |rows| && 0 <= j < |rows[i]| ::
      rows[i][j].nextIdx == After(rows[i], j)
  }

  ghost predicate OidLinks(rows: seq<seq<Node>>)
    reads Nodes(rows)`nextOid
  {
    OidAll(rows)
  }

  ghost predicate OidAll(rows: seq<seq<Node>>)
    reads Nodes(rows)`nextOid
  {
    forall i, j {:trigger rows[i][j].nextOid} | 0 <= i < |rows| && 0 <= j < |rows[i]| ::
      rows[i][j].nextOid == HeadOf(rows, i + 1)
  }

  /** The nodes are the entries of the rows, one name and one type to a row. */
  ghost predicate Shows(rows: seq<seq<Node>>, view: seq<Row>)
    reads Nodes(rows)`held, Nodes(rows)`session
  {
    ShowsAll(rows, view)
  }

  ghost predicate ShowsAll(rows: seq<seq<Node>>, view: seq<Row>)
    reads Nodes(rows)`held, Nodes(rows)`session
  {
    |rows| == |view| &&
    (forall i | 0 <= i < |rows| :: |rows[i]| == |view[i].entries|) &&
    (forall i, j | 0 <= i < |rows| && 0 <= j < |rows[i]| ::
      rows[i][j].name == view[i].name && rows[i][j].ty == view[i].ty && rows[i][j].Entry() == view[i].entries[j])
  }

  /** The nodes of one row, linked by nextIdx. */
  ghost predicate RowShows(row: seq<Node>, es: seq<Entry>)
    reads set n | n in row
  {
    |row| == |es| > 0 && forall j | 0 <= j < |row| :: row[j].Entry() == es[j] && row[j].nextIdx == After(row, j)
  }

  /** For an arbitrary value: an entry nobody holds, if any will do, or else the last entry of the row. */
  method FindFree(first: Node, any: bool, ghost row: seq<Node>, ghost es: seq<Entry>)
    returns (free: Node?, last: Node)
    requires RowShows(row, es) && first == row[0]
    ensures free == if any && FreeAt(es) < |row| then row[FreeAt(es)] else null
    ensures free == null ==> last == row[|row| - 1]
  {
    hide FreeAt, After;
    var cur: Node? := first;
    ghost var j := 0;
    last := first;
    while cur != null
      invariant 0 <= j <= |row| && cur == (if j < |row| then row[j] else null)
      invariant j > 0 ==> last == row[j - 1]
      invariant any ==> forall k | 0 <= k < j :: es[k].held
      decreases |row| - j
    {
      assert row[j].Entry() == es[j];
      AfterIs(row, j);
      if any && !cur.held {
        FreeAtIs(es, j);
        return cur, last;
      }
      last, cur, j := cur, cur.nextIdx, j + 1;
    }
    if any { FreeAtIs(es, j); }
    return null, last;
  }

  /** For one particular value: the first entry the int difference does not put before it, and the entry in front. */
  method FindValue(first: Node, value: int, ghost row: seq<Node>, ghost es: seq<Entry>)
    returns (prev: Node?, cur: Node?, res: int)
    requires RowShows(row, es) && first == row[0]
    ensures cur == if PlaceAt(es, value) < |row| then row[PlaceAt(es, value)] else null
    ensures prev == if PlaceAt(es, value) == 0 then null else row[PlaceAt(es, value) - 1]
    ensures res == 0 <==> PlaceAt(es, value) < |row| && ToInt(value - es[PlaceAt(es, value)].value) == 0
  {
    hide PlaceAt, After, ToInt;
    prev, cur, res := null, first, 1;
    ghost var j := 0;
    while cur != null
      invariant 0 <= j <= |row| && cur == (if j < |row| then row[j] else null)
      invariant prev == (if j == 0 then null else row[j - 1])
      invariant res > 0 && forall k | 0 <= k < j :: ToInt(value - es[k].value) > 0
      decreases |row| - j
    {
      assert row[j].Entry() == es[j];
      AfterIs(row, j);
      res := ToInt(value - cur.value);
      if res <= 0 { break; }
      prev, cur, j := cur, cur.nextIdx, j + 1;
    }
    PlaceAtIs(es, value, j);
  }

  /** For a release: the search compares stored octets. */
  method FindOctets(first: Node, value: int, ghost row: seq<Node>, ghost es: seq<Entry>)
    returns (prev: Node?, cur: Node?, res: int)
    requires RowShows(row, es) && first == row[0]
    ensures cur == if OctetsAt(es, value) < |row| then row[OctetsAt(es, value)] else null
    ensures prev == if OctetsAt(es, value) == 0 then null else row[OctetsAt(es, value) - 1]
    ensures res == 0 <==> OctetsAt(es, value) < |row| && Stored(es[OctetsAt(es, value)].value) == Stored(value)
  {
    hide OctetsAt, OctetsLess, After, Stored;
    prev, cur, res := null, first, 1;
    ghost var j := 0;
    while cur != null
      invariant 0 <= j <= |row| && cur == (if j < |row| then row[j] else null)
      invariant prev == (if j == 0 then null else row[j - 1])
      invariant res > 0 && forall k | 0 <= k < j :: Before(es[k].value, value)
      decreases |row| - j
    {
      assert row[j].Entry() == es[j];
      AfterIs(row, j);
      var a, b := Stored(value), Stored(cur.value);
      OctetsTotal(a, b);
      res := if a == b then 0 else if OctetsLess(a, b) then -1 else 1;
      if res <= 0 { break; }
      prev, cur, j := cur, cur.nextIdx, j + 1;
    }
    OctetsAtIs(es, value, j);
  }

  // ----- relinking

  /** A node put into a row shows as its entry put into the row. */
  lemma ShowsPut(rows: seq<seq<Node>>, view: seq<Row>, i: nat, j: nat, n: Node)
    requires Shows(rows, view) && i < |rows| && j <= |rows[i]| && n.name == view[i].name && n.ty == view[i].ty
    ensures Shows(rows[i := Put(rows[i], j, n)], With(view, i, Put(view[i].entries, j, n.Entry())))
  {
    var r: seq<seq<Node>> := rows[i := Put(rows[i], j, n)];
    var w := With(view, i, Put(view[i].entries, j, n.Entry()));
    forall k, l | 0 <= k < |r| && 0 <= l < |r[k]|
      ensures r[k][l].name == w[k].name && r[k][l].ty == w[k].ty && r[k][l].Entry() == w[k].entries[l]
    {
      if k == i {
        PutInIs(rows[i], j, n);
        PutInAt(rows[i], j, n, r[i], l);
        PutInIs(view[i].entries, j, n.Entry());
        PutInAt(view[i].entries, j, n.Entry(), w[i].entries, l);
      } else {
        assert r[k][l] == rows[k][l];
      }
    }
  }

  lemma IdxPut(rows: seq<seq<Node>>, i: nat, j: nat, n: Node)
    requires i < |rows| && j <= |rows[i]|
    requires forall k, l | 0 <= k < |rows| && 0 <= l < |rows[k]| && !(k == i && l == j - 1) ::
               rows[k][l].nextIdx == After(rows[k], l)
    requires j > 0 ==> rows[i][j - 1].nextIdx == n
    requires n.nextIdx == if j < |rows[i]| then rows[i][j] else null
    ensures IdxLinks(rows[i := Put(rows[i], j, n)])
  {
    var r: seq<seq<Node>> := rows[i := Put(rows[i], j, n)];
    forall k, l | 0 <= k < |r| && 0 <= l < |r[k]| ensures r[k][l].nextIdx == After(r[k], l) {
      if k == i {
        PutInIs(rows[i], j, n);
        PutInAt(rows[i], j, n, r[i], l);
        if l + 1 < |r[i]| { PutInAt(rows[i], j, n, r[i], l + 1); }
      } else {
        assert r[k][l] == rows[k][l];
      }
    }
  }

  lemma OidPut(rows: seq<seq<Node>>, i: nat, j: nat, n: Node)
    requires i < |rows| && j <= |rows[i]| && n.nextOid == HeadOf(rows, i + 1)
    requires if j == 0 then Bent(rows, i, n) else OidLinks(rows)
    requires Headed(rows)
    ensures OidLinks(rows[i := Put(rows[i], j, n)])
  {
    var r: seq<seq<Node>> := rows[i := Put(rows[i], j, n)];
    forall k, l | 0 <= k < |r| && 0 <= l < |r[k]| ensures r[k][l].nextOid == HeadOf(r, k + 1) {
      PutInIs(rows[i], j, n);
      PutInAt(rows[i], j, n, r[i], 0);
      if k == i { PutInAt(rows[i], j, n, r[i], l); } else { assert r[k][l] == rows[k][l]; }
    }
  }

  /** Every node of a row is made to point to a new next row. */
  method Retarget(first: Node, target: Node?, ghost row: seq<Node>)
    requires row != [] && first == row[0]
    requires forall j | 0 <= j < |row| :: row[j].nextIdx == After(row, j)
    requires forall j, k | 0 <= j < k < |row| :: row[j] != row[k]
    modifies (set n | n in row)`nextOid
    ensures forall j | 0 <= j < |row| :: row[j].nextOid == target
  {
    hide After;
    var p: Node? := first;
    ghost var j := 0;
    while p != null
      invariant 0 <= j <= |row| && p == (if j < |row| then row[j] else null)
      invariant forall k | 0 <= k < j :: row[k].nextOid == target
      decreases |row| - j
    {
      AfterIs(row, j);
      p.nextOid := target;
      p := p.nextIdx;
      j := j + 1;
    }
  }

  /** No two places hold the same node. */
  ghost predicate Separate(rows: seq<seq<Node>>) {
    forall i, j, k, l | 0 <= i < |rows| && 0 <= j < |rows[i]| && 0 <= k < |rows| && 0 <= l < |rows[k]| &&
                        rows[i][j] == rows[k][l] :: i == k && j == l
  }

  /** A new node put into a row. */
  lemma SeparatePut(rows: seq<seq<Node>>, i: nat, j: nat, n: Node)
    requires Separate(rows) && n !in Nodes(rows) && i < |rows| && j <= |rows[i]|
    ensures Separate(rows[i := Put(rows[i], j, n)])
  {
    hide Put;
    var r: seq<seq<Node>> := rows[i := Put(rows[i], j, n)];
    Outside(rows, n);
    PutMultiset(rows[i], j, n);
    forall a, b, c, d | 0 <= a < |r| && 0 <= b < |r[a]| && 0 <= c < |r| && 0 <= d < |r[c]| && r[a][b] == r[c][d]
      ensures a == c && b == d
    {
      if a == i { PutAt(rows[i], j, n, b); } else { assert r[a][b] == rows[a][b]; }
      if c == i { PutAt(rows[i], j, n, d); } else { assert r[c][d] == rows[c][d]; }
    }
  }

  /** A new node put in as a row of its own. */
  lemma SeparateRowPut(rows: seq<seq<Node>>, i: nat, n: Node)
    requires Separate(rows) && n !in Nodes(rows) && i <= |rows|
    ensures Separate(Put(rows, i, [n]))
  {
    hide Put;
    var r: seq<seq<Node>> := Put(rows, i, [n]);
    Outside(rows, n);
    RowPutAt(rows, i, n, i);
    forall a, b, c, d | 0 <= a < |r| && 0 <= b < |r[a]| && 0 <= c < |r| && 0 <= d < |r[c]| && r[a][b] == r[c][d]
      ensures a == c && b == d
    {
      RowPutAt(rows, i, n, a);
      RowPutAt(rows, i, n, c);
    }
  }

  /** A node taken out of its row. */
  lemma SeparateCut(rows: seq<seq<Node>>, i: nat, j: nat)
    requires Separate(rows) && i < |rows| && j < |rows[i]| && |rows[i]| > 1
    ensures Separate(rows[i := Cut(rows[i], j)])
  {
    hide Cut;
    var r: seq<seq<Node>> := rows[i := Cut(rows[i], j)];
    CutAt(rows[i], j, 0);
    forall a, b, c, d | 0 <= a < |r| && 0 <= b < |r[a]| && 0 <= c < |r| && 0 <= d < |r[c]| && r[a][b] == r[c][d]
      ensures a == c && b == d
    {
      if a == i { CutAt(rows[i], j, b); } else { assert r[a][b] == rows[a][b]; }
      if c == i { CutAt(rows[i], j, d); } else { assert r[c][d] == rows[c][d]; }
    }
  }

  /** A row taken out. */
  lemma SeparateRowCut(rows: seq<seq<Node>>, i: nat)
    requires Separate(rows) && i < |rows|
    ensures Separate(Cut(rows, i))
  {
    CutIsWithout(rows, i);
    var r: seq<seq<Node>> := Cut(rows, i);
    hide Cut;
    forall a, b, c, d | 0 <= a < |r| && 0 <= b < |r[a]| && 0 <= c < |r| && 0 <= d < |r[c]| && r[a][b] == r[c][d]
      ensures a == c && b == d
    {
      assert r[a] == rows[if a < i then a else a + 1] && r[c] == rows[if c < i then c else c + 1];
    }
  }

  ghost predicate Headed(rows: seq<seq<Node>>) {
    forall k | 0 <= k < |rows| :: |rows[k]| > 0
  }

  method SpliceAfter(p: Node, n: Node, ghost rows: seq<seq<Node>>, ghost i: nat, ghost j: nat)
    requires IdxLinks(rows) && OidLinks(rows) && Separate(rows) && Headed(rows) && n !in Nodes(rows)
    requires i < |rows| && 0 < j <= |rows[i]| && p == rows[i][j - 1]
    modifies p`nextIdx, n`nextIdx, n`nextOid
    ensures IdxLinks(rows[i := Put(rows[i], j, n)]) && OidLinks(rows[i := Put(rows[i], j, n)])
  {
    hide Put;
    Outside(rows, n);
    n.nextIdx := p.nextIdx;
    n.nextOid := p.nextOid;
    p.nextIdx := n;
    IdxPut(rows, i, j, n);
    OidPut(rows, i, j, n);
  }

  /** Every node still points to its next row, except that the row in front of the i-th one points to n. */
  ghost predicate Bent(rows: seq<seq<Node>>, i: nat, n: Node?)
    reads Nodes(rows)`nextOid
  {
    forall k, l {:trigger rows[k][l].nextOid} | 0 <= k < |rows| && 0 <= l < |rows[k]| ::
      rows[k][l].nextOid == if k + 1 == i then n else HeadOf(rows, k + 1)
  }

  method Bend(prev: Node?, n: Node?, ghost rows: seq<seq<Node>>, ghost i: nat)
    requires IdxLinks(rows) && OidLinks(rows) && Separate(rows) && Headed(rows)
    requires i <= |rows| && prev == if i == 0 then null else HeadOf(rows, i - 1)
    modifies Nodes(rows)`nextOid
    ensures Bent(rows, i, n)
  {
    hide Separate, After, HeadOf;
    if i > 0 { HeadAt(rows, i - 1); }
    if prev != null {
      RowApart(rows, i - 1);
      ghost var row := rows[i - 1];
      Retarget(prev, n, row);
      forall k, l | 0 <= k < |rows| && 0 <= l < |rows[k]|
        ensures rows[k][l].nextOid == if k + 1 == i then n else HeadOf(rows, k + 1)
      {
        if k == i - 1 { assert rows[k][l] == row[l]; } else { assert rows[k][l] !in row; }
      }
    }
  }

  lemma HeadAt(rows: seq<seq<Node>>, i: nat)
    requires i < |rows| && Headed(rows)
    ensures HeadOf(rows, i) == rows[i][0]
  {
  }

  lemma AfterIs(row: seq<Node>, j: nat)
    ensures After(row, j) == if j + 1 < |row| then row[j + 1] else null
  {
  }

  lemma RowApart(rows: seq<seq<Node>>, m: nat)
    requires Separate(rows) && m < |rows|
    ensures forall k, l | 0 <= k < |rows| && 0 <= l < |rows[k]| && k != m :: rows[k][l] !in rows[m]
    ensures forall j, k | 0 <= j < k < |rows[m]| :: rows[m][j] != rows[m][k]
  {
    forall k, l | 0 <= k < |rows| && 0 <= l < |rows[k]| && rows[k][l] in rows[m] ensures k == m {
      var j :| 0 <= j < |rows[m]| && rows[m][j] == rows[k][l];
    }
  }

  method SpliceFirst(prev: Node?, cur: Node, n: Node, ghost rows: seq<seq<Node>>, ghost i: nat)
    requires IdxLinks(rows) && OidLinks(rows) && Separate(rows) && Headed(rows) && n !in Nodes(rows)
    requires i < |rows| && cur == HeadOf(rows, i) && prev == if i == 0 then null else HeadOf(rows, i - 1)
    modifies Nodes(rows)`nextOid, n`nextIdx, n`nextOid
    ensures IdxLinks(rows[i := Put(rows[i], 0, n)]) && OidLinks(rows[i := Put(rows[i], 0, n)])
  {
    hide Put, Bent;
    Outside(rows, n);
    n.nextIdx := cur;
    n.nextOid := cur.nextOid;
    Bend(prev, n, rows, i);
    IdxPut(rows, i, 0, n);
    OidPut(rows, i, 0, n);
  }

  method SpliceRow(prev: Node?, cur: Node?, n: Node, ghost rows: seq<seq<Node>>, ghost i: nat)
    requires IdxLinks(rows) && OidLinks(rows) && Separate(rows) && Headed(rows) && n !in Nodes(rows)
    requires i <= |rows| && cur == HeadOf(rows, i) && prev == if i == 0 then null else HeadOf(rows, i - 1)
    modifies Nodes(rows)`nextOid, n`nextIdx, n`nextOid
    ensures IdxLinks(Put(rows, i, [n])) && OidLinks(Put(rows, i, [n]))
  {
    hide Put, Bent;
    Outside(rows, n);
    n.nextIdx := null;
    n.nextOid := cur;
    Bend(prev, n, rows, i);
    IdxRowPut(rows, i, n);
    OidRowPut(rows, i, n);
  }

  lemma Outside(rows: seq<seq<Node>>, n: Node)
    requires n !in Nodes(rows)
    ensures forall k, l | 0 <= k < |rows| && 0 <= l < |rows[k]| :: rows[k][l] != n
  {
    forall k, l | 0 <= k < |rows| && 0 <= l < |rows[k]| ensures rows[k][l] != n {
      assert rows[k][l] in Nodes(rows);
    }
  }

  // ----- unlinking

  lemma IdxCut(rows: seq<seq<Node>>, i: nat, j: nat)
    requires i < |rows| && j < |rows[i]| && |rows[i]| > 1
    requires forall k, l | 0 <= k < |rows| && 0 <= l < |rows[k]| && !(k == i && l == j - 1) ::
               rows[k][l].nextIdx == After(rows[k], l)
    requires j > 0 ==> rows[i][j - 1].nextIdx == After(rows[i], j)
    ensures IdxLinks(rows[i := Cut(rows[i], j)])
  {
    hide After, Cut;
    var r: seq<seq<Node>> := rows[i := Cut(rows[i], j)];
    CutAt(rows[i], j, 0);
    forall k, l | 0 <= k < |r| && 0 <= l < |r[k]| ensures r[k][l].nextIdx == After(r[k], l) {
      if k == i {
        CutAt(rows[i], j, l);
        if l + 1 < |r[i]| { CutAt(rows[i], j, l + 1); }
        AfterIs(r[i], l);
        AfterIs(rows[i], l);
        AfterIs(rows[i], l + 1);
      } else {
        assert r[k][l] == rows[k][l];
      }
    }
  }

  lemma OidCut(rows: seq<seq<Node>>, i: nat, j: nat)
    requires i < |rows| && j < |rows[i]| && |rows[i]| > 1 && Headed(rows)
    requires if j == 0 then Bent(rows, i, rows[i][1]) else OidLinks(rows)
    ensures OidLinks(rows[i := Cut(rows[i], j)])
  {
    hide HeadOf, Cut;
    var r: seq<seq<Node>> := rows[i := Cut(rows[i], j)];
    CutAt(rows[i], j, 0);
    forall k, l | 0 <= k < |r| && 0 <= l < |r[k]| ensures r[k][l].nextOid == HeadOf(r, k + 1) {
      if k == i { CutAt(rows[i], j, l); } else { assert r[k][l] == rows[k][l]; }
      HeadSame(rows, r, k + 1);
    }
  }

  lemma HeadSame(rows: seq<seq<Node>>, r: seq<seq<Node>>, k: nat)
    requires |rows| == |r| && Headed(rows) && Headed(r)
    ensures if k < |rows| then HeadOf(rows, k) == rows[k][0] && HeadOf(r, k) == r[k][0]
            else HeadOf(rows, k) == null == HeadOf(r, k)
  {
  }

  lemma ShowsCut(rows: seq<seq<Node>>, view: seq<Row>, i: nat, j: nat)
    requires Shows(rows, view) && i < |rows| && j < |rows[i]|
    ensures Shows(rows[i := Cut(rows[i], j)], With(view, i, Cut(view[i].entries, j)))
  {
    var r: seq<seq<Node>> := rows[i := Cut(rows[i], j)];
    var w := With(view, i, Cut(view[i].entries, j));
    hide Cut;
    if |rows[i]| > 1 {
      CutAt(rows[i], j, 0);
      CutAt(view[i].entries, j, 0);
    } else {
      CutOne(rows[i]);
      CutOne(view[i].entries);
    }
    forall k, l | 0 <= k < |r| && 0 <= l < |r[k]|
      ensures r[k][l].name == w[k].name && r[k][l].ty == w[k].ty && r[k][l].Entry() == w[k].entries[l]
    {
      if k == i {
        CutAt(rows[i], j, l);
        CutAt(view[i].entries, j, l);
      } else {
        assert r[k][l] == rows[k][l];
      }
    }
  }

  lemma CutOne<T>(s: seq<T>)
    requires |s| == 1
    ensures Cut(s, 0) == []
  {
  }

  /** Row by row, r is rows without the i-th. */
  ghost predicate WithoutRow<T>(rows: seq<T>, i: nat, r: seq<T>) {
    i < |rows| && |r| == |rows| - 1 &&
    (forall k | 0 <= k < i :: r[k] == rows[k]) && (forall k | i <= k < |r| :: r[k] == rows[k + 1])
  }

  lemma CutIsWithout<T>(rows: seq<T>, i: nat)
    requires i < |rows|
    ensures WithoutRow(rows, i, Cut(rows, i))
  {
    forall k | 0 <= k < |rows| - 1
      ensures Cut(rows, i)[k] == if k < i then rows[k] else rows[k + 1] { CutAt(rows, i, k); }
  }

  lemma IdxRowCut(rows: seq<seq<Node>>, i: nat, r: seq<seq<Node>>)
    requires IdxLinks(rows) && WithoutRow(rows, i, r)
    ensures IdxLinks(r)
  {
    hide After;
  }

  lemma OidRowCut(rows: seq<seq<Node>>, i: nat, r: seq<seq<Node>>)
    requires WithoutRow(rows, i, r) && Headed(rows) && Bent(rows, i, HeadOf(rows, i + 1))
    ensures OidLinks(r)
  {
    hide HeadOf, WithoutRow, Headed;
    forall k, l | 0 <= k < |r| && 0 <= l < |r[k]| ensures r[k][l].nextOid == HeadOf(r, k + 1) {
      RowCutHead(rows, i, r, k);
    }
  }

  lemma RowCutHead(rows: seq<seq<Node>>, i: nat, r: seq<seq<Node>>, k: nat)
    requires WithoutRow(rows, i, r) && Headed(rows) && k < |r|
    ensures r[k] == (if k < i then rows[k] else rows[k + 1]) && |r| == |rows| - 1
    ensures HeadOf(r, k + 1) == if k + 1 < i then HeadOf(rows, k + 1) else HeadOf(rows, k + 2)
  {
    if k + 1 < |r| { assert r[k + 1] == if k + 1 < i then rows[k + 1] else rows[k + 2]; }
  }

  lemma ShowsRowCut(rows: seq<seq<Node>>, view: seq<Row>, i: nat, r: seq<seq<Node>>, w: seq<Row>)
    requires Shows(rows, view) && WithoutRow(rows, i, r) && WithoutRow(view, i, w)
    ensures Shows(r, w)
  {
  }

  /** The row in front points past row i: the links are those of the rows without it. */
  method PassRow(prev: Node?, next: Node?, ghost rows: seq<seq<Node>>, ghost view: seq<Row>, ghost i: nat)
    requires IdxLinks(rows) && OidLinks(rows) && Separate(rows) && Headed(rows) && Shows(rows, view)
    requires i < |rows| == |view| && next == HeadOf(rows, i + 1)
    requires prev == if i == 0 then null else HeadOf(rows, i - 1)
    modifies Nodes(rows)`nextOid
    ensures IdxLinks(Cut(rows, i)) && OidLinks(Cut(rows, i)) && Shows(Cut(rows, i), Cut(view, i))
  {
    hide IdxLinks, OidLinks, Shows, IdxAll, OidAll, ShowsAll, Separate, Headed, HeadOf, After, Bent, Cut, WithoutRow;
    Bend(prev, next, rows, i);
    CutIsWithout(rows, i);
    CutIsWithout(view, i);
    IdxRowCut(rows, i, Cut(rows, i));
    OidRowCut(rows, i, Cut(rows, i));
    ShowsRowCut(rows, view, i, Cut(rows, i), Cut(view, i));
  }

  lemma NodesCut(rows: seq<seq<Node>>, i: nat, j: nat)
    requires i < |rows| && j < |rows[i]|
    ensures Nodes(rows[i := Cut(rows[i], j)]) <= Nodes(rows) && Nodes(Cut(rows, i)) <= Nodes(rows)
  {
  }

  /** Take an entry out of a row that keeps others. */
  method UnspliceEntry(p: Node?, prev: Node?, c: Node, ghost rows: seq<seq<Node>>, ghost i: nat, ghost j: nat)
    requires IdxLinks(rows) && OidLinks(rows) && Separate(rows) && Headed(rows)
    requires i < |rows| && j < |rows[i]| && |rows[i]| > 1 && c == rows[i][j]
    requires p == (if j == 0 then null else rows[i][j - 1]) && prev == (if i == 0 then null else HeadOf(rows, i - 1))
    modifies Nodes(rows)`nextOid, Nodes(rows)`nextIdx
    ensures IdxLinks(rows[i := Cut(rows[i], j)]) && OidLinks(rows[i := Cut(rows[i], j)])
  {
    hide After, HeadOf, Cut, Bent;
    AfterIs(rows[i], j);
    if p != null {
      p.nextIdx := c.nextIdx;
      assert OidLinks(rows);
    } else {
      Bend(prev, c.nextIdx, rows, i);
    }
    IdxCut(rows, i, j);
    OidCut(rows, i, j);
  }

  class Registry {
    var head: Node?
    ghost var rows: seq<seq<Node>>
    ghost var view: seq<Row>

    constructor ()
      ensures Valid() && view == []
    {
      head, rows, view := null, [], [];
    }

    ghost predicate Valid()
      reads this, Nodes(rows)
    {
      head == HeadOf(rows, 0) && IdxLinks(rows) && OidLinks(rows) && Shows(rows, view) && WellFormed(view) &&
      Separate(rows)
    }

    /** The search over row heads: the first row not before the name, and the head of the row in front of it. */
    method FindRow(name: Oid) returns (prev: Node?, cur: Node?, res: int, ghost i: nat)
      requires Valid()
      ensures i == RowAt(view, name) <= |rows| == |view| && cur == HeadOf(rows, i)
      ensures (cur == null <==> i == |rows|) && (res == 0 && cur != null <==> Found(view, name))
      ensures prev == if i == 0 then null else HeadOf(rows, i - 1)
      ensures res == 0 ==> cur != null
    {
      hide WellFormed, Separate, HeadOf, RowAt, After;
      prev, cur, res, i := null, head, 1, 0;
      HeadIs(0);
      while cur != null
        invariant Valid() && i <= |rows| && cur == HeadOf(rows, i)
                  && prev == (if i == 0 then null else HeadOf(rows, i - 1))
        invariant |rows| == |view| && forall k | 0 <= k < i :: Less(view[k].name, name)
        invariant cur == null <==> i == |rows|
        invariant res != 0
        decreases |rows| - i
      {
        HeadIs(i);
        res := Compare(name, cur.name);
        LessTotal(name, cur.name);
        if res <= 0 { break; }
        HeadIs(i + 1);
        prev, cur, i := cur, cur.nextOid, i + 1;
      }
      RowAtIs(view, name, i);
    }

    lemma HeadIs(i: nat)
      requires Valid() && i <= |rows|
      ensures |rows| == |view| && (HeadOf(rows, i) == null <==> i == |rows|)
      ensures i < |rows| ==> |rows[i]| == |view[i].entries| > 0 && HeadOf(rows, i) == rows[i][0] &&
                             rows[i][0].name == view[i].name && rows[i][0].ty == view[i].ty &&
                             rows[i][0].nextOid == HeadOf(rows, i + 1)
    {
      if i < |rows| { RowIsGood(view, i); }
    }

    /** A row taken by itself. */
    lemma RowShown(i: nat)
      requires Valid() && i < |rows|
      ensures |rows| == |view| && RowShows(rows[i], view[i].entries) && HeadOf(rows, i) == rows[i][0]
    {
      RowIsGood(view, i);
    }

    /** An entry changes hands: its session and whether it is held. */
    method SetEntry(n: Node, ss: nat, h: bool, ghost i: nat, ghost j: nat)
      requires Valid() && i < |rows| && j < |rows[i]| && n == rows[i][j]
      modifies this`view, n`session, n`held
      ensures Valid() && j < |old(view)[i].entries|
      ensures view == With(old(view), i, old(view)[i].entries[j := Entry(n.value, ss, h)])
    {
      hide WellFormed, HeadOf, After;
      EntryKeeps(view, i, j, Entry(n.value, ss, h));
      n.session, n.held := ss, h;
      view := With(view, i, view[i].entries[j := Entry(n.value, ss, h)]);
    }

    /** A node goes behind another one of its row. */
    method LinkAfter(p: Node, n: Node, ghost i: nat, ghost j: nat)
      requires Valid() && i < |rows| && 0 < j <= |rows[i]| == |view[i].entries| && p == rows[i][j - 1]
               && n !in Nodes(rows)
      requires n.name == view[i].name && n.ty == view[i].ty
      requires WellFormed(With(view, i, Put(view[i].entries, j, n.Entry())))
      modifies this`rows, this`view, p`nextIdx, n`nextIdx, n`nextOid
      ensures Valid() && view == With(old(view), i, Put(old(view)[i].entries, j, n.Entry()))
      ensures Nodes(rows) == old(Nodes(rows)) + {n}
    {
      hide WellFormed, Put, IdxAll, OidAll, ShowsAll, Separate, Headed;
      HeadsExist();
      SpliceAfter(p, n, rows, i, j);
      ShowsPut(rows, view, i, j, n);
      NodesPut(rows, i, j, n);
      HeadPut(rows, i, j, n);
      SeparatePut(rows, i, j, n);
      view := With(view, i, Put(view[i].entries, j, n.Entry()));
      rows := rows[i := Put(rows[i], j, n)];
    }

    /** A node becomes the head of its row; the row in front, or the registry, points to it. */
    method LinkFirst(prev: Node?, cur: Node, n: Node, ghost i: nat)
      requires Valid() && i < |rows| == |view| && cur == HeadOf(rows, i) && n !in Nodes(rows)
      requires prev == if i == 0 then null else HeadOf(rows, i - 1)
      requires n.name == view[i].name && n.ty == view[i].ty
      requires WellFormed(With(view, i, Put(view[i].entries, 0, n.Entry())))
      modifies this, Nodes(rows)`nextOid, n`nextIdx, n`nextOid
      ensures Valid() && view == With(old(view), i, Put(old(view)[i].entries, 0, n.Entry()))
      ensures Nodes(rows) == old(Nodes(rows)) + {n}
    {
      hide WellFormed, Put, IdxAll, OidAll, ShowsAll, Separate, Headed;
      HeadsExist();
      SpliceFirst(prev, cur, n, rows, i);
      if prev == null { head := n; }
      ShowsPut(rows, view, i, 0, n);
      NodesPut(rows, i, 0, n);
      HeadPut(rows, i, 0, n);
      SeparatePut(rows, i, 0, n);
      view := With(view, i, Put(view[i].entries, 0, n.Entry()));
      rows := rows[i := Put(rows[i], 0, n)];
    }

    lemma HeadsExist()
      requires Valid()
      ensures |rows| == |view| && Headed(rows)
    {
      forall k | 0 <= k < |rows| ensures |rows[k]| > 0 { RowIsGood(view, k); }
    }

    /** A node becomes a row of its own in front of the i-th row. */
    method LinkRow(prev: Node?, cur: Node?, n: Node, ghost i: nat)
      requires Valid() && i <= |rows| == |view| && cur == HeadOf(rows, i) && n !in Nodes(rows)
      requires prev == if i == 0 then null else HeadOf(rows, i - 1)
      requires WellFormed(Put(view, i, Row(n.name, n.ty, [n.Entry()])))
      modifies this, Nodes(rows)`nextOid, n`nextIdx, n`nextOid
      ensures Valid() && view == Put(old(view), i, Row(n.name, n.ty, [n.Entry()]))
      ensures Nodes(rows) == old(Nodes(rows)) + {n}
    {
      hide WellFormed, Put, IdxAll, OidAll, ShowsAll, Separate, Headed;
      HeadsExist();
      SpliceRow(prev, cur, n, rows, i);
      if prev == null { head := n; }
      ShowsRowPut(rows, view, i, n);
      NodesRowPut(rows, i, n);
      HeadRowPut(rows, i, n);
      SeparateRowPut(rows, i, n);
      view := Put(view, i, Row(n.name, n.ty, [n.Entry()]));
      rows := Put(rows, i, [n]);
    }

    /** Any or a new value in a row that exists. */
    method TakeAny(cur: Node, q: Request, ghost i: nat) returns (rv: Option<int>)
      requires Valid() && i < |rows| && cur == HeadOf(rows, i) && q.flag != This
      requires |rows| == |view| && q.name == view[i].name && q.ty == view[i].ty
      modifies this, Nodes(rows)
      ensures Valid() && (forall n | n in Nodes(rows) :: n in old(Nodes(rows)) || fresh(n))
      ensures |old(view)[i].entries| > 0
      ensures view == With(old(view), i, RegisterInRow(old(view)[i], q).0) && rv == RegisterInRow(old(view)[i], q).1
    {
      hide WellFormed, Separate, IdxAll, OidAll, ShowsAll, HeadOf, After;
      RowShown(i);
      RowResult(view, i, q);
      var free, last := FindFree(cur, q.flag == Any, rows[i], view[i].entries);
      if free != null {
        ghost var j := FreeAt(view[i].entries);
        RowValue(rows[i], view[i].entries, j);
        SetEntry(free, q.session, true, i, j);
        return Some(free.value);
      }
      if q.ty != INTEGER {
        WithSame(view, i);
        return None;
      }
      RowValue(rows[i], view[i].entries, |rows[i]| - 1);
      var n := new Node(q, last.value + 1);
      PutLast(view[i].entries, n.Entry());
      LinkAfter(last, n, i, |rows[i]|);
      return Some(n.value);
    }

    /** One particular value in a row that exists. */
    method TakeThis(prev: Node?, cur: Node, q: Request, ghost i: nat) returns (rv: Option<int>)
      requires Valid() && i < |rows| && cur == HeadOf(rows, i) && q.flag == This
      requires prev == if i == 0 then null else HeadOf(rows, i - 1)
      requires |rows| == |view| && q.name == view[i].name && q.ty == view[i].ty
      modifies this, Nodes(rows)
      ensures Valid() && (forall n | n in Nodes(rows) :: n in old(Nodes(rows)) || fresh(n))
      ensures |old(view)[i].entries| > 0
      ensures view == With(old(view), i, RegisterInRow(old(view)[i], q).0) && rv == RegisterInRow(old(view)[i], q).1
    {
      hide WellFormed, IdxLinks, OidLinks, IdxAll, OidAll, ShowsAll, HeadOf, After, Separate, ToInt;
      RowShown(i);
      RowResult(view, i, q);
      WithSame(view, i);
      if q.ty != INTEGER { return None; }
      var p, c, res := FindValue(cur, q.value, rows[i], view[i].entries);
      ghost var j := PlaceAt(view[i].entries, q.value);
      if res == 0 {
        RowValue(rows[i], view[i].entries, j);
        if c.held { return None; }
        SetEntry(c, q.session, true, i, j);
        return Some(c.value);
      }
      var n := new Node(q, q.value);
      if p != null {
        LinkAfter(p, n, i, j);
      } else {
        LinkFirst(prev, cur, n, i);
      }
      return Some(n.value);
    }

    /** register_index in a master agent. */
    method Register(q: Request) returns (rv: Option<int>)
      requires Valid() && Modelled(q.ty)
      modifies this, Nodes(rows)
      ensures Valid() && (forall n | n in Nodes(rows) :: n in old(Nodes(rows)) || fresh(n))
      ensures (view, rv) == IndexSpec.Register(old(view), q)
    {
      hide WellFormed, Separate, IdxAll, OidAll, ShowsAll, HeadOf, After, RegisterInRow;
      var prev, cur, res, i := FindRow(q.name);
      ghost var v := view;
      HeadIs(i);
      if res == 0 && cur != null {
        FoundRow(v, q.name);
        RowResult(v, i, q);
        if q.ty != cur.ty {
          WrongType(v, i, q);
          return None;
        }
        if q.flag != This {
          rv := TakeAny(cur, q, i);
        } else {
          rv := TakeThis(prev, cur, q, i);
        }
      } else {
        if q.flag != This && q.ty != INTEGER { return None; }
        var x := if q.flag == This then q.value else 1;
        NewRowGood(v, q, x);
        var n := new Node(q, x);
        LinkRow(prev, cur, n, i);
        rv := Some(x);
      }
    }

    /** Remove a row of one entry. */
    method UnlinkRow(prev: Node?, c: Node, ghost i: nat)
      requires Valid() && i < |rows| == |view| && |rows[i]| == 1 && c == rows[i][0]
      requires prev == (if i == 0 then null else HeadOf(rows, i - 1)) && WellFormed(Cut(view, i))
      modifies this, Nodes(rows)
      ensures Valid() && Nodes(rows) <= old(Nodes(rows)) && view == Cut(old(view), i)
    {
      hide WellFormed, IdxLinks, OidLinks, Shows, IdxAll, OidAll, ShowsAll, Separate, Headed, HeadOf, After, Cut;
      HeadsExist();
      NodeLinks(i, 0);
      NodesCut(rows, i, 0);
      var next := c.nextOid;
      PassRow(prev, next, rows, view, i);
      HeadRowCut(rows, i);
      SeparateRowCut(rows, i);
      if prev == null { head := next; }
      view := Cut(view, i);
      rows := Cut(rows, i);
    }

    /** Remove one entry of a row that keeps others. */
    method UnlinkEntry(p: Node?, prev: Node?, c: Node, ghost i: nat, ghost j: nat)
      requires Valid() && i < |rows| == |view| && j < |rows[i]| == |view[i].entries| && |rows[i]| > 1 && c == rows[i][j]
      requires p == (if j == 0 then null else rows[i][j - 1]) && prev == (if i == 0 then null else HeadOf(rows, i - 1))
      requires WellFormed(With(view, i, Cut(view[i].entries, j)))
      modifies this, Nodes(rows)
      ensures Valid() && Nodes(rows) <= old(Nodes(rows)) && view == With(old(view), i, Cut(old(view)[i].entries, j))
    {
      hide WellFormed, IdxLinks, OidLinks, Shows, IdxAll, OidAll, ShowsAll, Separate, Headed, HeadOf, After, Cut;
      HeadsExist();
      NodeLinks(i, j);
      NodesCut(rows, i, j);
      AfterIs(rows[i], j);
      var next := c.nextIdx;
      UnspliceEntry(p, prev, c, rows, i, j);
      ShowsCut(rows, view, i, j);
      HeadCut(rows, i, j);
      SeparateCut(rows, i, j);
      if p == null && prev == null { head := next; }
      view := With(view, i, Cut(view[i].entries, j));
      rows := rows[i := Cut(rows[i], j)];
    }

    /** Remove an entry, and its row with it when it was the only one. */
    method Unlink(p: Node?, prev: Node?, c: Node, ghost i: nat, ghost j: nat)
      requires Valid() && i < |rows| == |view| && j < |rows[i]| == |view[i].entries| && c == rows[i][j]
      requires p == (if j == 0 then null else rows[i][j - 1]) && prev == (if i == 0 then null else HeadOf(rows, i - 1))
      requires WellFormed(if |rows[i]| == 1 then Cut(view, i) else With(view, i, Cut(view[i].entries, j)))
      modifies this, Nodes(rows)
      ensures Valid() && Nodes(rows) <= old(Nodes(rows))
      ensures view == if |old(rows)[i]| == 1 then Cut(old(view), i)
              else With(old(view), i, Cut(old(view)[i].entries, j))
    {
      hide WellFormed, Separate, IdxAll, OidAll, ShowsAll, HeadOf, After, Cut;
      NodeLinks(i, j);
      AfterIs(rows[i], j);
      if p == null && c.nextIdx == null {
        UnlinkRow(prev, c, i);
      } else {
        UnlinkEntry(p, prev, c, i, j);
      }
    }

    lemma NodeLinks(i: nat, j: nat)
      requires Valid() && i < |rows| && j < |rows[i]|
      ensures rows[i][j].nextIdx == After(rows[i], j) && rows[i][j].nextOid == HeadOf(rows, i + 1)
      ensures i > 0 ==> HeadOf(rows, i - 1) != null
    {
      hide After;
      HeadsExist();
    }

    /** unregister_index in a master agent. */
    method Unregister(name: Oid, ty: int, value: int, remember: bool, ss: nat) returns (rc: int)
      requires Valid()
      modifies this, Nodes(rows)
      ensures Valid() && Nodes(rows) <= old(Nodes(rows))
      ensures (view, rc) == IndexSpec.Unregister(old(view), name, ty, value, remember, ss)
    {
      hide WellFormed, Separate, IdxLinks, OidLinks, IdxAll, OidAll, ShowsAll, HeadOf, After, Has, Cut;
      hide OctetsAt;
      var prev, cur, res, i := FindRow(name);
      ghost var v := view;
      if res != 0 { return NOT_ALLOCATED; }
      FoundRow(v, name);
      HeadIs(i);
      if ty != cur.ty { return WRONG_TYPE; }
      RowShown(i);
      var p, c, res2 := FindOctets(cur, value, rows[i], v[i].entries);
      ghost var j := OctetsAt(v[i].entries, value);
      if res2 != 0 { return NOT_ALLOCATED; }
      RowValue(rows[i], v[i].entries, j);
      if !c.held { return NOT_ALLOCATED; }
      if ss != c.session { return WRONG_SESSION; }
      UnregisterWellFormed(v, name, ty, value, remember, ss);
      if remember {
        SetEntry(c, 0, false, i, j);
      } else {
        Unlink(p, prev, c, i, j);
      }
      return 0;
    }

    /** unregister_index_by_session. */
    method UnregisterBySession(ss: nat)
      requires Valid()
      modifies this`view, Nodes(rows)
      ensures Valid() && rows == old(rows) && view == ReleaseSession(old(view), ss)
    {
      hide WellFormed, Separate, IdxAll, OidAll, ShowsAll, HeadOf, After;
      ghost var v := view;
      ghost var i, j := 0, 0;
      var row, p := head, head;
      HeadIs(0);
      while row != null
        invariant Valid() && rows == old(rows) && 0 <= i <= |rows| == |v|
        invariant row == HeadOf(rows, i) && (row == null <==> i == |rows|)
        invariant Partly(v, view, i, 0, ss)
        decreases |rows| - i
      {
        HeadIs(i);
        j := 0;
        p := row;
        while p != null
          invariant Valid() && rows == old(rows) && 0 <= i < |rows| == |v| && 0 <= j <= |rows[i]| == |v[i].entries|
          invariant p == (if j < |rows[i]| then rows[i][j] else null) && row == HeadOf(rows, i)
          invariant Partly(v, view, i, j, ss)
          decreases |rows[i]| - j
        {
          RowShown(i);
          NodeLinks(i, j);
          AfterIs(rows[i], j);
          RowValue(rows[i], view[i].entries, j);
          PartlyStep(v, view, i, j, ss);
          if p.session == ss { SetEntry(p, 0, false, i, j); }
          p := p.nextIdx;
          j := j + 1;
        }
        PartlyRow(v, view, i, ss);
        HeadIs(i);
        HeadIs(i + 1);
        row := row.nextOid;
        i := i + 1;
      }
      PartlyAll(v, view, ss);
    }
  }

  lemma HeadRowCut(rows: seq<seq<Node>>, i: nat)
    requires i < |rows| && Headed(rows)
    ensures HeadOf(Cut(rows, i), 0) == if i == 0 then HeadOf(rows, 1) else HeadOf(rows, 0)
  {
    if |rows| > 1 { CutAt(rows, i, 0); }
  }

  lemma HeadCut(rows: seq<seq<Node>>, i: nat, j: nat)
    requires i < |rows| && j < |rows[i]| && |rows[i]| > 1 && Headed(rows)
    ensures HeadOf(rows[i := Cut(rows[i], j)], 0) == if i == 0 && j == 0 then rows[0][1] else HeadOf(rows, 0)
  {
    CutAt(rows[i], j, 0);
  }

  // ----- a release on its way through the registry

  /** Everything before the j-th entry of the i-th row is freed of a session, the rest is as it was. */
  ghost predicate Partly(v: seq<Row>, w: seq<Row>, i: nat, j: nat, ss: nat) {
    |v| == |w| && (forall k | 0 <= k < |v| :: SameKeys(v[k], w[k])) &&
    forall k, l | 0 <= k < |v| && 0 <= l < |w[k].entries| && l < |v[k].entries| ::
      w[k].entries[l] == if k < i || (k == i && l < j) then FreedOf(v[k].entries[l], ss) else v[k].entries[l]
  }

  ghost predicate SameKeys(a: Row, b: Row) {
    a.name == b.name && a.ty == b.ty && |a.entries| == |b.entries|
  }

  lemma PartlyStep(v: seq<Row>, w: seq<Row>, i: nat, j: nat, ss: nat)
    requires Partly(v, w, i, j, ss) && i < |v| && j < |w[i].entries|
    ensures var e := w[i].entries[j];
            if e.session == ss then Partly(v, With(w, i, w[i].entries[j := Entry(e.value, 0, false)]), i, j + 1, ss)
            else Partly(v, w, i, j + 1, ss)
  {
    assert SameKeys(v[i], w[i]);
  }

  lemma PartlyRow(v: seq<Row>, w: seq<Row>, i: nat, ss: nat)
    requires i < |v| == |w| && Partly(v, w, i, |v[i].entries|, ss)
    ensures Partly(v, w, i + 1, 0, ss)
  {
  }

  lemma PartlyAll(v: seq<Row>, w: seq<Row>, ss: nat)
    requires Partly(v, w, |v|, 0, ss)
    ensures w == ReleaseSession(v, ss)
  {
    forall k | 0 <= k < |v| ensures w[k] == FreedRow(v[k], ss) {
      assert SameKeys(v[k], w[k]);
      assert w[k].entries == FreedRow(v[k], ss).entries;
    }
  }

  lemma WrongType(v: seq<Row>, i: nat, q: Request)
    requires i < |v| && |v[i].entries| > 0 && q.ty != v[i].ty
    ensures With(v, i, RegisterInRow(v[i], q).0) == v && RegisterInRow(v[i], q).1 == None
  {
  }

  lemma NewRowGood(v: seq<Row>, q: Request, x: int)
    requires WellFormed(v) && !Found(v, q.name) && Modelled(q.ty)
    ensures WellFormed(Put(v, RowAt(v, q.name), Row(q.name, q.ty, [Entry(x, q.session, true)])))
  {
    OneEntry(x, q.session);
    InsertRow(v, Row(q.name, q.ty, [Entry(x, q.session, true)]));
  }

  /** What the row becomes is well formed. */
  lemma RowResult(v: seq<Row>, i: nat, q: Request)
    requires WellFormed(v) && i < |v|
    ensures |v[i].entries| > 0 && WellFormed(With(v, i, RegisterInRow(v[i], q).0))
  {
    RowIsGood(v, i);
    RowKeepsForm(v[i], q);
    ReplaceRow(v, i, RegisterInRow(v[i], q).0);
  }

  lemma WithSame(v: seq<Row>, i: nat)
    requires i < |v|
    ensures With(v, i, v[i].entries) == v
  {
  }

  lemma RowValue(row: seq<Node>, es: seq<Entry>, j: nat)
    requires RowShows(row, es) && j < |row|
    ensures row[j].Entry() == es[j]
  {
  }

  lemma PutLast(es: seq<Entry>, e: Entry)
    ensures Put(es, |es|, e) == es + [e]
  {
  }

  lemma HeadPut(rows: seq<seq<Node>>, i: nat, j: nat, n: Node)
    requires i < |rows| && j <= |rows[i]| && Headed(rows)
    ensures HeadOf(rows[i := Put(rows[i], j, n)], 0) == if i == 0 && j == 0 then n else HeadOf(rows, 0)
  {
    if i == 0 {
      PutInIs(rows[0], j, n);
      PutInAt(rows[0], j, n, Put(rows[0], j, n), 0);
    }
  }

  lemma HeadRowPut(rows: seq<seq<Node>>, i: nat, n: Node)
    requires i <= |rows| && Headed(rows)
    ensures HeadOf(Put(rows, i, [n]), 0) == if i == 0 then n else HeadOf(rows, 0)
  {
    PutInIs(rows, i, [n]);
    PutInAt(rows, i, [n], Put(rows, i, [n]), 0);
  }

  lemma NodesPut(rows: seq<seq<Node>>, i: nat, j: nat, n: Node)
    requires i < |rows| && j <= |rows[i]|
    ensures Nodes(rows[i := Put(rows[i], j, n)]) == Nodes(rows) + {n}
  {
    var r: seq<seq<Node>> := rows[i := Put(rows[i], j, n)];
    PutInIs(rows[i], j, n);
    forall x: Node ensures x in Nodes(r) <==> x in Nodes(rows) || x == n {
      PutInMembers(rows[i], j, n, r[i], x);
      NodeIn(rows, x);
      NodeIn(r, x);
      if k :| 0 <= k < |rows| && x in rows[k] { assert k != i ==> r[k] == rows[k]; }
      if k :| 0 <= k < |r| && x in r[k] { assert k != i ==> r[k] == rows[k]; }
      assert x == n ==> x in r[i];
    }
  }

  lemma NodeIn(rows: seq<seq<Node>>, x: Node)
    ensures x in Nodes(rows) <==> exists k | 0 <= k < |rows| :: x in rows[k]
  {
    if k :| 0 <= k < |rows| && x in rows[k] {
      var l :| 0 <= l < |rows[k]| && rows[k][l] == x;
    }
  }

  /** The rows after a new one was put in. */
  lemma RowPutAt(rows: seq<seq<Node>>, i: nat, n: Node, k: nat)
    requires i <= |rows| && k <= |rows|
    ensures |Put(rows, i, [n])| == |rows| + 1
    ensures Put(rows, i, [n])[k] == if k < i then rows[k] else if k == i then [n] else rows[k - 1]
  {
    PutInIs(rows, i, [n]);
    PutInAt(rows, i, [n], Put(rows, i, [n]), k);
  }

  lemma IdxRowPut(rows: seq<seq<Node>>, i: nat, n: Node)
    requires i <= |rows| && IdxLinks(rows) && n.nextIdx == null
    ensures IdxLinks(Put(rows, i, [n]))
  {
    hide Put;
    var r: seq<seq<Node>> := Put(rows, i, [n]);
    RowPutAt(rows, i, n, i);
    forall k, l | 0 <= k < |r| && 0 <= l < |r[k]| ensures r[k][l].nextIdx == After(r[k], l) {
      RowPutAt(rows, i, n, k);
    }
  }

  lemma OidRowPut(rows: seq<seq<Node>>, i: nat, n: Node)
    requires i <= |rows| && Headed(rows) && n.nextOid == HeadOf(rows, i)
    requires Bent(rows, i, n)
    ensures OidLinks(Put(rows, i, [n]))
  {
    hide Put;
    var r: seq<seq<Node>> := Put(rows, i, [n]);
    RowPutAt(rows, i, n, i);
    forall k, l | 0 <= k < |r| && 0 <= l < |r[k]| ensures r[k][l].nextOid == HeadOf(r, k + 1) {
      RowPutAt(rows, i, n, k);
      if k + 1 < |r| { RowPutAt(rows, i, n, k + 1); }
    }
  }

  lemma ShowsRowPut(rows: seq<seq<Node>>, view: seq<Row>, i: nat, n: Node)
    requires i <= |rows| && Shows(rows, view)
    ensures Shows(Put(rows, i, [n]), Put(view, i, Row(n.name, n.ty, [n.Entry()])))
  {
    var r: seq<seq<Node>>, x := Put(rows, i, [n]), Row(n.name, n.ty, [n.Entry()]);
    var w := Put(view, i, x);
    PutInIs(view, i, x);
    hide Put;
    RowPutAt(rows, i, n, i);
    forall k | 0 <= k < |r| ensures |r[k]| == |w[k].entries| {
      RowPutAt(rows, i, n, k);
      PutInAt(view, i, x, w, k);
    }
    forall k, l | 0 <= k < |r| && 0 <= l < |r[k]|
      ensures r[k][l].name == w[k].name && r[k][l].ty == w[k].ty && r[k][l].Entry() == w[k].entries[l]
    {
      RowPutAt(rows, i, n, k);
      PutInAt(view, i, x, w, k);
    }
  }

  lemma NodesRowPut(rows: seq<seq<Node>>, i: nat, n: Node)
    requires i <= |rows|
    ensures Nodes(Put(rows, i, [n])) == Nodes(rows) + {n}
  {
    hide Put;
    var r: seq<seq<Node>> := Put(rows, i, [n]);
    RowPutAt(rows, i, n, i);
    assert r[i][0] == n;
    forall x | x in Nodes(r) ensures x in Nodes(rows) + {n} {
      var k, l :| 0 <= k < |r| && 0 <= l < |r[k]| && r[k][l] == x;
      RowPutAt(rows, i, n, k);
    }
    forall x | x in Nodes(rows) ensures x in Nodes(r) {
      var k, l :| 0 <= k < |rows| && 0 <= l < |rows[k]| && rows[k][l] == x;
      var m := if k < i then k else k + 1;
      RowPutAt(rows, i, n, m);
      assert r[m][l] == x;
    }
  }

  lemma EntryKeeps(v: seq<Row>, i: nat, j: nat, e: Entry)
    requires WellFormed(v) && i < |v| && j < |v[i].entries|
    ensures WellFormed(With(v, i, v[i].entries[j := e]))
  {
    RowIsGood(v, i);
    GoodAgain(v[i], v[i].entries[j := e]);
    ReplaceRow(v, i, v[i].entries[j := e]);
  }
}
