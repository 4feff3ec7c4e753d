/** object_monitor.c: watchers of objects, notifications that wait, and callbacks that are ready to run. */
module ObjectMonitor {
  import opened Sequences
  import opened OidOrder

  const SUCCESS: int := 0
  const GENERR: int := -1
  const VALUE: int := -57

  /** monitor_info; subject, priority and data identify a registration. */
  datatype Watcher = Watcher(subject: Oid, priority: int, events: bv32, data: int, cb: int)

  /** What a caller passes to unregister a watcher; events do not count. */
  datatype Key = Key(subject: Oid, priority: int, data: int, cb: int)

  predicate Names(key: Key, w: Watcher) {
    w.subject == key.subject && w.priority == key.priority && w.data == key.data && w.cb == key.cb
  }

  /** netsnmp_monitor_callback_header, without its counter. */
  datatype Note = Note(subject: Oid, event: bv32)

  /** callback_placeholder: a watcher and the number of a notification. */
  datatype Placeholder = Placeholder(mi: Watcher, cbh: nat)

  predicate Wants(w: Watcher, event: bv32) {
    Shares(w.events, event)
  }

  /** Some bit is in both. */
  predicate Shares(events: bv32, event: bv32) {
    events & event != 0
  }

  /** Nothing is shared with no bits; more bits share what either part shares; a mask shares its own bits, unless it
      has none, and never those it lacks. */
  lemma SharesBits(v: bv32, e: bv32, f: bv32)
    ensures !Shares(v, 0) && (Shares(v, e | f) <==> Shares(v, e) || Shares(v, f))
    ensures (Shares(v, v) <==> v != 0) && !Shares(v, !v)
  {
    NoBits(v);
    EitherBits(v, e, f);
  }

  lemma NoBits(v: bv32)
    ensures v & 0 == 0 && v & v == v && v & !v == 0
  {
  }

  lemma EitherBits(v: bv32, e: bv32, f: bv32)
    ensures v & (e | f) != 0 <==> v & e != 0 || v & f != 0
  {
  }

  /** mi->events & event */
  function Masked(events: bv32, event: bv32): bv32 {
    events & event
  }

  lemma MaskedShares(events: bv32, event: bv32)
    ensures Masked(events, event) != 0 <==> Shares(events, event)
  {
  }

  // ----- watchers of one object

  /** Higher priorities first. */
  ghost predicate Ranked(ws: seq<Watcher>) {
    forall i, j | 0 <= i < j < |ws| :: ws[i].priority >= ws[j].priority
  }

  /** No two registrations of one object share priority and data. */
  ghost predicate NoTwins(ws: seq<Watcher>) {
    forall i, j | 0 <= i < j < |ws| :: ws[i].priority != ws[j].priority || ws[i].data != ws[j].data
  }

  ghost predicate GoodList(subject: Oid, ws: seq<Watcher>) {
    ws != [] && Ranked(ws) && NoTwins(ws) && forall w | w in ws :: w.subject == subject
  }

  ghost predicate GoodWatchers(m: map<Oid, seq<Watcher>>) {
    forall o | o in m :: GoodList(o, m[o])
  }

  ghost predicate HasTwin(ws: seq<Watcher>, w: Watcher) {
    exists k | 0 <= k < |ws| :: ws[k].priority == w.priority && ws[k].data == w.data
  }

  lemma PutWatcher(o: Oid, ws: seq<Watcher>, i: nat, w: Watcher)
    requires GoodList(o, ws) && w.subject == o && i <= |ws| && !HasTwin(ws, w)
    requires (forall k | 0 <= k < i :: ws[k].priority >= w.priority)
             && (forall k | i <= k < |ws| :: ws[k].priority <= w.priority)
    ensures GoodList(o, Put(ws, i, w))
  {
    var p := Put(ws, i, w);
    forall a, b | 0 <= a < b < |p| ensures p[a].priority >= p[b].priority {
      PutAt(ws, i, w, a);
      PutAt(ws, i, w, b);
    }
    forall a, b | 0 <= a < b < |p| ensures p[a].priority != p[b].priority || p[a].data != p[b].data {
      PutAt(ws, i, w, a);
      PutAt(ws, i, w, b);
    }
  }

  /** The place insert_watcher finds, or nothing for a duplicate. */
  method WatcherPlace(ws: seq<Watcher>, w: Watcher) returns (found: bool, i: nat)
    requires Ranked(ws)
    ensures found <==> !HasTwin(ws, w)
    ensures found ==> i <= |ws| && (forall k | 0 <= k < i :: ws[k].priority >= w.priority)
                      && (forall k | i <= k < |ws| :: ws[k].priority < w.priority)
  {
    i := 0;
    while i < |ws|
      invariant 0 <= i <= |ws|
      invariant forall k | 0 <= k < i ::
                ws[k].priority > w.priority || (ws[k].priority == w.priority && ws[k].data != w.data)
    {
      if w.priority == ws[i].priority {
        if w.data == ws[i].data { return false, i; }
      } else if w.priority > ws[i].priority {
        break;
      }
      i := i + 1;
    }
    return true, i;
  }

  // ----- the watchers an event concerns

  /** Those who want the event, in list order. */
  ghost function Wanting(ws: seq<Watcher>, event: bv32): seq<Watcher> {
    if ws == [] then []
    else Wanting(ws[..|ws| - 1], event) + if Wants(ws[|ws| - 1], event) then [ws[|ws| - 1]] else []
  }

  lemma {:induction false} WantingExact(ws: seq<Watcher>, event: bv32, w: Watcher)
    ensures w in Wanting(ws, event) <==> w in ws && Wants(w, event)
  {
    if ws != [] {
      WantingExact(ws[..|ws| - 1], event, w);
      assert ws == ws[..|ws| - 1] + [ws[|ws| - 1]];
    }
  }

  lemma {:induction false} WantingOnce(ws: seq<Watcher>, event: bv32, w: Watcher)
    requires NoTwins(ws)
    ensures multiset(Wanting(ws, event))[w] == if w in ws && Wants(w, event) then 1 else 0
  {
    if ws != [] {
      var t, x := ws[..|ws| - 1], ws[|ws| - 1];
      assert ws == t + [x];
      WantingOnce(t, event, w);
      if w == x {
        assert w !in t by {
          forall k | 0 <= k < |t| ensures t[k] != w { assert t[k] == ws[k]; }
        }
      }
    }
  }

  lemma {:induction false} WantingNone(ws: seq<Watcher>, k: nat, event: bv32)
    requires k <= |ws| && forall j | 0 <= j < k :: !Wants(ws[j], event)
    ensures Wanting(ws[..k], event) == []
  {
    if k > 0 {
      WantingNone(ws, k - 1, event);
      assert ws[..k][..k - 1] == ws[..k - 1];
    }
  }

  /** check_registered: where the first interested watcher stands, or the length of the list. */
  method FirstWanting(ws: seq<Watcher>, event: bv32) returns (k: nat)
    ensures k <= |ws| && (k < |ws| ==> Wants(ws[k], event)) && forall j | 0 <= j < k :: !Wants(ws[j], event)
  {
    hide Masked, Shares;
    k := 0;
    while k < |ws|
      invariant 0 <= k <= |ws| && forall j | 0 <= j < k :: !Wants(ws[j], event)
    {
      MaskedShares(ws[k].events, event);
      if Masked(ws[k].events, event) != 0 { return; }
      k := k + 1;
    }
  }

  // ----- what actions amount to

  datatype Action = Notify(note: Note) | Register(watcher: Watcher) | Unregister(key: Key)

  /** The watchers of an object, none when it has no list. */
  function ListOf(m: map<Oid, seq<Watcher>>, o: Oid): seq<Watcher> {
    if o in m then m[o] else []
  }

  /** Behind everything of at least the same priority. */
  ghost function PlaceOf(ws: seq<Watcher>, w: Watcher): (i: nat)
    ensures i <= |ws|
  {
    if ws == [] || w.priority > ws[0].priority then 0 else 1 + PlaceOf(ws[1..], w)
  }

  lemma {:induction false} PlaceIs(ws: seq<Watcher>, w: Watcher, i: nat)
    requires i <= |ws| && (forall k | 0 <= k < i :: ws[k].priority >= w.priority)
    requires i < |ws| ==> ws[i].priority < w.priority
    ensures PlaceOf(ws, w) == i
    decreases |ws|
  {
    if i > 0 { PlaceIs(ws[1..], w, i - 1); }
  }

  /** The registry with one more registration, unless it has a twin. */
  ghost function Registered(m: map<Oid, seq<Watcher>>, w: Watcher): map<Oid, seq<Watcher>> {
    var ws := ListOf(m, w.subject);
    if HasTwin(ws, w) then m else m[w.subject := Put(ws, PlaceOf(ws, w), w)]
  }

  lemma RegisteredAt(m: map<Oid, seq<Watcher>>, w: Watcher, ws: seq<Watcher>, i: nat)
    requires ws == ListOf(m, w.subject) && !HasTwin(ws, w) && i == PlaceOf(ws, w)
    ensures Registered(m, w) == m[w.subject := Put(ws, i, w)]
  {
  }

  lemma {:induction false} PlaceSplits(ws: seq<Watcher>, w: Watcher)
    requires Ranked(ws)
    ensures forall k | 0 <= k < PlaceOf(ws, w) :: ws[k].priority >= w.priority
    ensures forall k | PlaceOf(ws, w) <= k < |ws| :: ws[k].priority < w.priority
  {
    if ws != [] && w.priority <= ws[0].priority {
      PlaceSplits(ws[1..], w);
      forall k | 0 < k < |ws| ensures ws[k] == ws[1..][k - 1] {}
    }
  }

  lemma RegisteredGood(m: map<Oid, seq<Watcher>>, w: Watcher)
    requires GoodWatchers(m)
    ensures GoodWatchers(Registered(m, w))
  {
    hide GoodWatchers;
    var ws := ListOf(m, w.subject);
    ListRanked(m, w.subject);
    if !HasTwin(ws, w) {
      PlaceSplits(ws, w);
      StaysGood(m, w, ws, PlaceOf(ws, w));
    }
  }

  /** A list with one watcher more, which stands behind all of at least its priority. */
  ghost predicate BehindEquals(ws: seq<Watcher>, w: Watcher, now: seq<Watcher>) {
    exists i: nat | i <= |ws| ::
      now == Put(ws, i, w) && forall k | 0 <= k < |ws| :: k < i <==> ws[k].priority >= w.priority
  }

  lemma PutBehind(ws: seq<Watcher>, w: Watcher, i: nat)
    requires i <= |ws| && forall k | 0 <= k < |ws| :: k < i <==> ws[k].priority >= w.priority
    ensures BehindEquals(ws, w, Put(ws, i, w))
  {
    hide Put;
  }

  /** A registration adds one watcher to one object, or nothing to none. */
  lemma RegisteredExact(m: map<Oid, seq<Watcher>>, w: Watcher)
    ensures HasTwin(ListOf(m, w.subject), w) ==> Registered(m, w) == m
    ensures !HasTwin(ListOf(m, w.subject), w) ==>
              multiset(ListOf(Registered(m, w), w.subject)) == multiset(ListOf(m, w.subject)) + multiset{w}
    ensures forall o | o != w.subject :: ListOf(Registered(m, w), o) == ListOf(m, o)
  {
    var ws := ListOf(m, w.subject);
    PutMultiset(ws, PlaceOf(ws, w), w);
  }

  /** The first watcher a key names, or the length of the list. */
  ghost function NamedAt(ws: seq<Watcher>, key: Key): (i: nat)
    ensures i <= |ws| && (i < |ws| ==> Names(key, ws[i]))
  {
    if ws == [] || Names(key, ws[0]) then 0 else 1 + NamedAt(ws[1..], key)
  }

  lemma {:induction false} NamedAtIs(ws: seq<Watcher>, key: Key, i: nat)
    requires i <= |ws| && (forall k | 0 <= k < i :: !Names(key, ws[k])) && (i < |ws| ==> Names(key, ws[i]))
    ensures NamedAt(ws, key) == i
    decreases |ws|
  {
    if i > 0 { NamedAtIs(ws[1..], key, i - 1); }
  }

  lemma {:induction false} NamedAtFirst(ws: seq<Watcher>, key: Key)
    ensures forall k | 0 <= k < NamedAt(ws, key) :: !Names(key, ws[k])
  {
    if ws != [] && !Names(key, ws[0]) {
      NamedAtFirst(ws[1..], key);
      forall k | 0 <= k < NamedAt(ws, key) ensures !Names(key, ws[k]) {
        if k > 0 { assert ws[k] == ws[1..][k - 1]; }
      }
    }
  }

  /** The search of netsnmp_monitor_unregister. */
  method NamedPlace(ws: seq<Watcher>, key: Key) returns (i: nat)
    requires forall w | w in ws :: w.subject == key.subject
    ensures i == NamedAt(ws, key) <= |ws| && (i < |ws| <==> exists w | w in ws :: Names(key, w))
  {
    i := 0;
    while i < |ws|
      invariant 0 <= i <= |ws| && forall k | 0 <= k < i :: !Names(key, ws[k])
    {
      if ws[i].cb == key.cb && ws[i].priority == key.priority && ws[i].data == key.data {
        assert ws[i] in ws && Names(key, ws[i]);
        break;
      }
      i := i + 1;
    }
    NamedAtIs(ws, key, i);
  }

  /** The registry without the watcher a key names; an object without watchers has no list. */
  ghost function Unregistered(m: map<Oid, seq<Watcher>>, key: Key): map<Oid, seq<Watcher>> {
    var ws := ListOf(m, key.subject);
    var i := NamedAt(ws, key);
    if i == |ws| then m else if |ws| == 1 then m - {key.subject} else m[key.subject := Cut(ws, i)]
  }

  /** Exactly the watcher named leaves. */
  lemma UnregisteredExact(m: map<Oid, seq<Watcher>>, key: Key, o: Oid, x: Watcher)
    requires GoodWatchers(m)
    ensures x in ListOf(Unregistered(m, key), o) <==> x in ListOf(m, o) && !Names(key, x)
  {
    var ws := ListOf(m, key.subject);
    var i := NamedAt(ws, key);
    NamedAtFirst(ws, key);
    if o == key.subject {
      if i < |ws| { CutNamed(ws, key, i, x); }
    } else if o in m {
      assert GoodList(o, m[o]);
    }
  }

  /** Exactly the watchers a key names are missing from the registry now. */
  ghost predicate Lost(m: map<Oid, seq<Watcher>>, now: map<Oid, seq<Watcher>>, key: Key) {
    forall o: Oid, w: Watcher :: w in ListOf(now, o) <==> w in ListOf(m, o) && !Names(key, w)
  }

  lemma LostExactly(m: map<Oid, seq<Watcher>>, key: Key)
    requires GoodWatchers(m)
    ensures Lost(m, Unregistered(m, key), key)
  {
    forall o: Oid, w: Watcher ensures w in ListOf(Unregistered(m, key), o) <==> w in ListOf(m, o) && !Names(key, w) {
      UnregisteredExact(m, key, o, w);
    }
  }

  lemma CutNamed(ws: seq<Watcher>, key: Key, i: nat, x: Watcher)
    requires NoTwins(ws) && i < |ws| && Names(key, ws[i])
    ensures x in Cut(ws, i) <==> x in ws && !Names(key, x)
  {
    if x in Cut(ws, i) {
      var k :| 0 <= k < |ws| - 1 && Cut(ws, i)[k] == x;
      CutAt(ws, i, k);
    }
    if x in ws && !Names(key, x) {
      var k :| 0 <= k < |ws| && ws[k] == x;
      CutAt(ws, i, if k < i then k else k - 1);
    }
  }

  /** The rest of a list is a good list. */
  lemma CutGood(o: Oid, ws: seq<Watcher>, i: nat)
    requires GoodList(o, ws) && i < |ws| && |ws| > 1
    ensures GoodList(o, Cut(ws, i))
  {
    var c := Cut(ws, i);
    forall a | 0 <= a < |c| ensures c[a] == ws[if a < i then a else a + 1] { CutAt(ws, i, a); }
  }

  lemma UnregisteredGood(m: map<Oid, seq<Watcher>>, key: Key)
    requires GoodWatchers(m)
    ensures GoodWatchers(Unregistered(m, key))
  {
    hide Ranked, NoTwins, Cut;
    var ws := ListOf(m, key.subject);
    var i := NamedAt(ws, key);
    if i < |ws| && |ws| > 1 { CutGood(key.subject, ws, i); }
  }

  ghost function RegistryAfter(m: map<Oid, seq<Watcher>>, acts: seq<Action>): map<Oid, seq<Watcher>> {
    if acts == [] then m
    else
      var before := RegistryAfter(m, acts[..|acts| - 1]);
      match acts[|acts| - 1]
      case Notify(_) => before
      case Register(w) => Registered(before, w)
      case Unregister(key) => Unregistered(before, key)
  }

  ghost function NotesOf(acts: seq<Action>): seq<Note> {
    if acts == [] then []
    else
      var before := NotesOf(acts[..|acts| - 1]);
      match acts[|acts| - 1]
      case Notify(note) => before + [note]
      case _ => before
  }

  /** What one action raises, and what it makes of the registry. */
  ghost function Raises(a: Action): seq<Note> {
    if a.Notify? then [a.note] else []
  }

  ghost function RegistryWith(m: map<Oid, seq<Watcher>>, a: Action): map<Oid, seq<Watcher>> {
    match a
    case Notify(_) => m
    case Register(w) => Registered(m, w)
    case Unregister(key) => Unregistered(m, key)
  }

  /** One action more. */
  lemma OneMore(m: map<Oid, seq<Watcher>>, acts: seq<Action>, k: nat)
    requires k < |acts|
    ensures NotesOf(acts[..k + 1]) == NotesOf(acts[..k]) + Raises(acts[k])
    ensures RegistryAfter(m, acts[..k + 1]) == RegistryWith(RegistryAfter(m, acts[..k]), acts[k])
  {
    assert acts[..k + 1][..k] == acts[..k];
  }

  lemma {:induction false} ActionsConcat(m: map<Oid, seq<Watcher>>, a: seq<Action>, b: seq<Action>)
    ensures NotesOf(a + b) == NotesOf(a) + NotesOf(b)
    ensures RegistryAfter(m, a + b) == RegistryAfter(RegistryAfter(m, a), b)
    decreases |b|
  {
    if b == [] {
      assert a + b == a;
    } else {
      var c := b[..|b| - 1];
      assert (a + b)[..|a + b| - 1] == a + c && (a + b)[|a + b| - 1] == b[|b| - 1];
      ActionsConcat(m, a, c);
    }
  }

  /** What the first k callbacks of a script did. */
  ghost function Acts(script: seq<seq<Action>>, k: nat): seq<Action> {
    if k == 0 then [] else Acts(script, k - 1) + if k - 1 < |script| then script[k - 1] else []
  }

  /** How many notifications there are after k callbacks, n of them from before. */
  ghost function RaisedBy(n: nat, script: seq<seq<Action>>, k: nat): nat {
    n + |NotesOf(Acts(script, k))|
  }

  /** The j-th of n callbacks raised this notification. */
  ghost predicate InStage(before: nat, script: seq<seq<Action>>, j: nat, n: nat, id: nat) {
    0 < j <= n && RaisedBy(before, script, j - 1) <= id < RaisedBy(before, script, j)
  }

  /** A registration stays. */
  lemma RegisteredKeeps(m: map<Oid, seq<Watcher>>, w: Watcher, o: Oid, x: Watcher)
    requires x in ListOf(m, o)
    ensures x in ListOf(Registered(m, w), o)
  {
    var ws := ListOf(m, w.subject);
    if o == w.subject && !HasTwin(ws, w) {
      var i := PlaceOf(ws, w);
      assert x in ws[..i] || x in ws[i..] by { assert ws == ws[..i] + ws[i..]; }
    }
  }

  /** Some action unregisters a watcher. */
  ghost predicate Ends(acts: seq<Action>, w: Watcher) {
    exists a | a in acts :: a.Unregister? && Names(a.key, w)
  }

  /** The registry stays good. */
  lemma {:induction false} RegistryGood(m: map<Oid, seq<Watcher>>, acts: seq<Action>)
    requires GoodWatchers(m)
    ensures GoodWatchers(RegistryAfter(m, acts))
  {
    hide GoodWatchers, Registered, Unregistered;
    if acts != [] {
      var before := RegistryAfter(m, acts[..|acts| - 1]);
      RegistryGood(m, acts[..|acts| - 1]);
      match acts[|acts| - 1]
      case Notify(_) =>
      case Register(w) => RegisteredGood(before, w);
      case Unregister(key) => UnregisteredGood(before, key);
    }
  }

  lemma {:induction false} RegistryKeeps(m: map<Oid, seq<Watcher>>, acts: seq<Action>, o: Oid, x: Watcher)
    requires GoodWatchers(m) && x in ListOf(m, o) && !Ends(acts, x)
    ensures x in ListOf(RegistryAfter(m, acts), o)
  {
    hide GoodWatchers, Registered, Unregistered;
    if acts != [] {
      var before, a := acts[..|acts| - 1], acts[|acts| - 1];
      assert a in acts && forall b | b in before :: b in acts;
      RegistryKeeps(m, before, o, x);
      match a
      case Notify(_) =>
      case Register(w) => RegisteredKeeps(RegistryAfter(m, before), w, o, x);
      case Unregister(key) =>
        RegistryGood(m, before);
        UnregisteredExact(RegistryAfter(m, before), key, o, x);
    }
  }

  /** A notification went to exactly the watchers registered now that want it. */
  ghost predicate WentNow(notes: seq<Note>, watchers: map<Oid, seq<Watcher>>, moved: map<nat, seq<Watcher>>, id: nat) {
    id < |notes| && id in moved && moved[id] == Wanting(ListOf(watchers, notes[id].subject), notes[id].event)
  }

  /** A notification went to exactly the watchers registered after j callbacks that want it. */
  ghost predicate MovedAt(script: seq<seq<Action>>, j: nat, m: map<Oid, seq<Watcher>>, notes: seq<Note>,
                          moved: map<nat, seq<Watcher>>, id: nat)
  {
    WentNow(notes, RegistryAfter(m, Acts(script, j)), moved, id)
  }

  /** Whoever was registered before the run, was not unregistered by then and wants a notification is among those it
      went to; and all of these want it and are registered by then. */
  lemma InterestedAtEntry(script: seq<seq<Action>>, j: nat, m: map<Oid, seq<Watcher>>, notes: seq<Note>,
                          moved: map<nat, seq<Watcher>>, id: nat, w: Watcher)
    requires GoodWatchers(m) && MovedAt(script, j, m, notes, moved, id)
    ensures w in ListOf(m, notes[id].subject) && !Ends(Acts(script, j), w) && Wants(w, notes[id].event) ==>
              w in moved[id]
    ensures w in moved[id] <==>
              Wants(w, notes[id].event) && w in ListOf(RegistryAfter(m, Acts(script, j)), notes[id].subject)
  {
    hide GoodWatchers;
    var ws := ListOf(RegistryAfter(m, Acts(script, j)), notes[id].subject);
    WantingExact(ws, notes[id].event, w);
    if w in ListOf(m, notes[id].subject) && !Ends(Acts(script, j), w) {
      RegistryKeeps(m, Acts(script, j), notes[id].subject, w);
    }
  }

  // ----- the ready list

  ghost predicate Descending(r: seq<Placeholder>) {
    forall i, j | 0 <= i < j < |r| :: r[i].mi.priority >= r[j].mi.priority
  }

  ghost function CountOf(r: seq<Placeholder>, id: nat): nat {
    if r == [] then 0 else CountOf(r[1..], id) + if r[0].cbh == id then 1 else 0
  }

  lemma {:induction false} CountPut(r: seq<Placeholder>, i: nat, x: Placeholder, id: nat)
    requires i <= |r|
    ensures CountOf(Put(r, i, x), id) == CountOf(r, id) + if x.cbh == id then 1 else 0
    decreases i
  {
    var p := Put(r, i, x);
    if i == 0 {
      assert p[1..] == r;
    } else {
      assert p[1..] == Put(r[1..], i - 1, x);
      CountPut(r[1..], i - 1, x, id);
    }
  }

  lemma {:induction false} CountZero(r: seq<Placeholder>, id: nat)
    ensures CountOf(r, id) == 0 <==> forall k | 0 <= k < |r| :: r[k].cbh != id
  {
    if r != [] {
      CountZero(r[1..], id);
      assert forall k | 1 <= k < |r| :: r[k] == r[1..][k - 1];
    }
  }

  lemma PutDescending(r: seq<Placeholder>, i: nat, x: Placeholder)
    requires Descending(r) && i <= |r|
    requires (forall k | 0 <= k < i :: r[k].mi.priority >= x.mi.priority)
             && (forall k | i <= k < |r| :: r[k].mi.priority < x.mi.priority)
    ensures Descending(Put(r, i, x))
  {
    var p := Put(r, i, x);
    forall a, b | 0 <= a < b < |p| ensures p[a].mi.priority >= p[b].mi.priority {
      PutAt(r, i, x, a);
      PutAt(r, i, x, b);
    }
  }

  /** insert_ready: behind everything of at least the same priority. */
  method ReadyPlace(r: seq<Placeholder>, x: Placeholder) returns (i: nat)
    requires Descending(r)
    ensures i <= |r| && Descending(Put(r, i, x))
    ensures forall k | 0 <= k < |r| :: k < i <==> r[k].mi.priority >= x.mi.priority
  {
    i := 0;
    while i < |r|
      invariant 0 <= i <= |r| && forall k | 0 <= k < i :: r[k].mi.priority >= x.mi.priority
    {
      if x.mi.priority > r[i].mi.priority { break; }
      i := i + 1;
    }
    PutDescending(r, i, x);
  }

  // ----- the order among equal priorities

  /** Placeholders of equal priority stand in the order of their arrival. */
  ghost predicate InTurn(s: seq<Placeholder>, trail: seq<Placeholder>) {
    forall a, b | 0 <= a < b < |s| && s[a].mi.priority == s[b].mi.priority ::
      FirstAt(trail, s[a]) < FirstAt(trail, s[b])
  }

  /** The trail has everything delivered or ready, and these stand in turn. */
  ghost predicate Tracked(done: seq<Placeholder>, r: seq<Placeholder>, trail: seq<Placeholder>) {
    InTurn(done + r, trail) && multiset(trail) == multiset(done) + multiset(r)
  }

  /** A new placeholder goes behind all of its priority. */
  lemma TrackedPut(done: seq<Placeholder>, r: seq<Placeholder>, trail: seq<Placeholder>, i: nat, x: Placeholder)
    requires Tracked(done, r, trail) && x !in trail && i <= |r|
    requires forall k | 0 <= k < |r| :: k < i <==> r[k].mi.priority >= x.mi.priority
    ensures Tracked(done, Put(r, i, x), trail + [x])
  {
    hide InTurn;
    var s, m := done + r, |done| + i;
    PutMultiset(r, i, x);
    JoinPut(done, r, i, x);
    forall a | 0 <= a < |s| ensures s[a] in trail {
      assert s[a] in multiset(s);
      assert s[a] in multiset(trail);
    }
    forall a | m <= a < |s| ensures s[a].mi.priority != x.mi.priority { assert s[a] == r[a - |done|]; }
    TurnPut(s, trail, m, x);
  }

  lemma JoinPut<T>(done: seq<T>, r: seq<T>, i: nat, x: T)
    requires i <= |r|
    ensures done + Put(r, i, x) == Put(done + r, |done| + i, x)
  {
  }

  /** A new placeholder with none of its priority behind it keeps the turns. */
  lemma TurnPut(s: seq<Placeholder>, trail: seq<Placeholder>, m: nat, x: Placeholder)
    requires InTurn(s, trail) && m <= |s| && x !in trail && (forall a | 0 <= a < |s| :: s[a] in trail)
    requires forall a | m <= a < |s| :: s[a].mi.priority != x.mi.priority
    ensures InTurn(Put(s, m, x), trail + [x])
  {
    hide FirstAt, Put;
    var t, more := Put(s, m, x), trail + [x];
    PutMultiset(s, m, x);
    FirstAtMore(trail, x, x);
    forall a | 0 <= a < |s| ensures FirstAt(more, s[a]) == FirstAt(trail, s[a]) < |trail| {
      FirstAtMore(trail, x, s[a]);
    }
    forall a, b | 0 <= a < b < |t| && t[a].mi.priority == t[b].mi.priority
      ensures FirstAt(more, t[a]) < FirstAt(more, t[b])
    {
      PutAt(s, m, x, a);
      PutAt(s, m, x, b);
      if a != m && b != m { TurnOf(s, trail, if a < m then a else a - 1, if b < m then b else b - 1); }
    }
  }

  lemma TurnOf(s: seq<Placeholder>, trail: seq<Placeholder>, a: nat, b: nat)
    requires InTurn(s, trail) && a < b < |s| && s[a].mi.priority == s[b].mi.priority
    ensures FirstAt(trail, s[a]) < FirstAt(trail, s[b])
  {
  }

  lemma TrackedPop(done: seq<Placeholder>, r: seq<Placeholder>, trail: seq<Placeholder>)
    requires Tracked(done, r, trail) && r != []
    ensures Tracked(done + [r[0]], r[1..], trail)
  {
    assert (done + [r[0]]) + r[1..] == done + r && r == [r[0]] + r[1..];
  }

  /** The placeholders of some notifications, one after the other. */
  ghost function TrailOf(order: seq<nat>, moved: map<nat, seq<Watcher>>): seq<Placeholder> {
    if order == [] then []
    else
      var id := order[|order| - 1];
      TrailOf(order[..|order| - 1], moved) + Marks(if id in moved then moved[id] else [], id)
  }

  /** The order has each notification moved once, and the trail follows it. */
  ghost predicate TrailGood(trail: seq<Placeholder>, order: seq<nat>, moved: map<nat, seq<Watcher>>) {
    trail == TrailOf(order, moved) && (forall id: nat :: id in order <==> id in moved) &&
    (forall i, j | 0 <= i < j < |order| :: order[i] != order[j])
  }

  ghost predicate Turns(done: seq<Placeholder>, r: seq<Placeholder>, trail: seq<Placeholder>, order: seq<nat>,
                        moved: map<nat, seq<Watcher>>)
  {
    Tracked(done, r, trail) && TrailGood(trail, order, moved)
  }

  lemma {:induction false} TrailMoved(order: seq<nat>, moved: map<nat, seq<Watcher>>, id: nat, ws: seq<Watcher>)
    requires id !in order
    ensures TrailOf(order, moved[id := ws]) == TrailOf(order, moved)
  {
    if order != [] {
      assert order[|order| - 1] in order;
      TrailMoved(order[..|order| - 1], moved, id, ws);
    }
  }

  lemma TrailMore(trail: seq<Placeholder>, order: seq<nat>, moved: map<nat, seq<Watcher>>, id: nat, ws: seq<Watcher>)
    requires TrailGood(trail, order, moved) && id !in moved
    ensures TrailGood(trail + Marks(ws, id), order + [id], moved[id := ws])
  {
    TrailMoved(order, moved, id, ws);
    assert (order + [id])[..|order|] == order;
  }

  lemma {:induction false} TrailIds(order: seq<nat>, moved: map<nat, seq<Watcher>>, p: Placeholder)
    ensures p in TrailOf(order, moved) ==> p.cbh in order
  {
    if order != [] && p in TrailOf(order, moved) {
      TrailIds(order[..|order| - 1], moved, p);
    }
  }

  lemma TrailStep(order: seq<nat>, moved: map<nat, seq<Watcher>>)
    requires order != []
    ensures var n := |order| - 1;
            TrailOf(order, moved) ==
            TrailOf(order[..n], moved) + Marks(if order[n] in moved then moved[order[n]] else [], order[n])
  {
  }

  /** Of two watchers of one notification the earlier one comes first in the trail. */
  lemma {:induction false} TrailSame(order: seq<nat>, moved: map<nat, seq<Watcher>>, id: nat, i: nat, j: nat)
    requires id in order && id in moved && i < j < |moved[id]|
    requires forall a, b | 0 <= a < b < |order| :: order[a] != order[b]
    requires forall a, b | 0 <= a < b < |moved[id]| :: moved[id][a] != moved[id][b]
    ensures var t := TrailOf(order, moved);
            FirstAt(t, Placeholder(moved[id][i], id)) < FirstAt(t, Placeholder(moved[id][j], id)) < |t|
  {
    hide FirstAt, Marks, TrailOf;
    var n := |order| - 1;
    var t, m := TrailOf(order[..n], moved), Marks(if order[n] in moved then moved[order[n]] else [], order[n]);
    TrailStep(order, moved);
    var p, q := Placeholder(moved[id][i], id), Placeholder(moved[id][j], id);
    FirstAtJoin(t, m, p);
    FirstAtJoin(t, m, q);
    TrailIds(order[..n], moved, p);
    TrailIds(order[..n], moved, q);
    if order[n] == id {
      MarkAt(moved[id], id, i);
      MarkAt(moved[id], id, j);
    } else {
      TrailSame(order[..n], moved, id, i, j);
    }
  }

  lemma MarkAt(ws: seq<Watcher>, id: nat, i: nat)
    requires i < |ws| && forall a, b | 0 <= a < b < |ws| :: ws[a] != ws[b]
    ensures FirstAt(Marks(ws, id), Placeholder(ws[i], id)) == i
  {
    FirstAtIs(Marks(ws, id), i);
  }

  /** Of two notifications the one moved earlier comes first in the trail. */
  lemma {:induction false} TrailApart(order: seq<nat>, moved: map<nat, seq<Watcher>>, a: nat, b: nat, p: Placeholder,
                                      q: Placeholder)
    requires a < b < |order| && p.cbh == order[a] && q.cbh == order[b]
    requires p.cbh in moved && p.mi in moved[p.cbh] && q.cbh in moved && q.mi in moved[q.cbh]
    requires forall i, j | 0 <= i < j < |order| :: order[i] != order[j]
    ensures var t := TrailOf(order, moved); FirstAt(t, p) < FirstAt(t, q) < |t|
  {
    hide FirstAt, Marks, TrailOf;
    var n := |order| - 1;
    var t, m := TrailOf(order[..n], moved), Marks(if order[n] in moved then moved[order[n]] else [], order[n]);
    TrailStep(order, moved);
    FirstAtJoin(t, m, p);
    FirstAtJoin(t, m, q);
    TrailHas(order[..n], moved, a, p);
    if b < n {
      TrailApart(order[..n], moved, a, b, p, q);
    } else {
      TrailIds(order[..n], moved, q);
      assert q.cbh !in order[..n];
      MarksHave(moved[q.cbh], q);
    }
  }

  lemma MarksHave(ws: seq<Watcher>, p: Placeholder)
    requires p.mi in ws
    ensures p in Marks(ws, p.cbh)
  {
    var k :| 0 <= k < |ws| && ws[k] == p.mi;
    assert Marks(ws, p.cbh)[k] == p;
  }

  lemma {:induction false} TrailHas(order: seq<nat>, moved: map<nat, seq<Watcher>>, a: nat, p: Placeholder)
    requires a < |order| && p.cbh == order[a] && p.cbh in moved && p.mi in moved[p.cbh]
    ensures p in TrailOf(order, moved)
  {
    var n := |order| - 1;
    if a < n { TrailHas(order[..n], moved, a, p); } else { MarksHave(moved[p.cbh], p); }
  }

  /** What is owed once is owed to different watchers. */
  lemma {:induction false} MovedDistinct(order: seq<nat>, moved: map<nat, seq<Watcher>>, id: nat, p: Placeholder)
    requires id in order && id in moved
    ensures multiset(Marks(moved[id], id))[p] <= multiset(TrailOf(order, moved))[p]
  {
    hide Marks;
    var n := |order| - 1;
    TrailStep(order, moved);
    if order[n] != id {
      assert id in order[..n];
      MovedDistinct(order[..n], moved, id, p);
    }
  }

  lemma MarksTwice(ws: seq<Watcher>, id: nat, a: nat, b: nat)
    requires a < b < |ws| && ws[a] == ws[b]
    ensures multiset(Marks(ws, id))[Placeholder(ws[a], id)] >= 2
  {
    var m, p := Marks(ws, id), Placeholder(ws[a], id);
    assert m == m[..b] + m[b..] && m[..b][a] == p && m[b..][0] == p;
    assert p in multiset(m[..b]) && p in multiset(m[b..]);
  }

  /** When nothing is ready any more: of two watchers of one notification with equal priority the earlier one was called
      earlier. */
  lemma TiesOfOne(s: State, id: nat, i: nat, j: nat)
    requires Sane(s) && s.ready == [] && id in s.moved && i < j < |s.moved[id]|
    requires s.moved[id][i].priority == s.moved[id][j].priority
    ensures var p, q := Placeholder(s.moved[id][i], id), Placeholder(s.moved[id][j], id);
            FirstAt(s.delivered, p) < FirstAt(s.delivered, q) < |s.delivered|
  {
    hide PendingGood, Chosen, Live, FirstAt, TrailOf, Marks;
    var ws := s.moved[id];
    forall a, b | 0 <= a < b < |ws| ensures ws[a] != ws[b] {
      if ws[a] == ws[b] {
        MarksTwice(ws, id, a, b);
        MovedDistinct(s.order, s.moved, id, Placeholder(ws[a], id));
      }
    }
    TrailSame(s.order, s.moved, id, i, j);
    InOrder(s, Placeholder(ws[i], id), Placeholder(ws[j], id));
  }

  /** And of two notifications the watcher of the one moved earlier. */
  lemma TiesOfTwo(s: State, a: nat, b: nat, p: Placeholder, q: Placeholder)
    requires Sane(s) && s.ready == [] && a < b < |s.order| && p.cbh == s.order[a] && q.cbh == s.order[b]
    requires Owed(s.moved, p) && Owed(s.moved, q) && p.mi.priority == q.mi.priority
    ensures FirstAt(s.delivered, p) < FirstAt(s.delivered, q) < |s.delivered|
  {
    hide PendingGood, Chosen, Live, FirstAt, TrailOf;
    TrailApart(s.order, s.moved, a, b, p, q);
    InOrder(s, p, q);
  }

  lemma InOrder(s: State, p: Placeholder, q: Placeholder)
    requires Sane(s) && s.ready == [] && Owed(s.moved, p) && Owed(s.moved, q) && p.mi.priority == q.mi.priority
    requires FirstAt(s.trail, p) < FirstAt(s.trail, q)
    ensures FirstAt(s.delivered, p) < FirstAt(s.delivered, q) < |s.delivered|
  {
    hide PendingGood, Chosen, Live, TrailGood, Ledger;
    LedgerSplits(s.delivered, [], s.moved, p);
    LedgerSplits(s.delivered, [], s.moved, q);
    assert s.delivered + [] == s.delivered;
    EqualInTurn(s.delivered, s.trail, p, q);
    FirstAtHolds(s.delivered, p);
    FirstAtHolds(s.delivered, q);
  }

  /** Deliveries of equal priority come in the order of the trail. */
  lemma EqualInTurn(done: seq<Placeholder>, trail: seq<Placeholder>, p: Placeholder, q: Placeholder)
    requires InTurn(done, trail) && p in done && q in done && p.mi.priority == q.mi.priority
    requires FirstAt(trail, p) < FirstAt(trail, q)
    ensures forall a, b | 0 <= a < |done| && 0 <= b < |done| && done[a] == p && done[b] == q :: a < b
  {
  }

  // ----- who is owed what

  /** Every notification moved is, once for each watcher that wanted it then, delivered or still ready; nothing else
      is. */
  ghost predicate Ledger(done: seq<Placeholder>, ready: seq<Placeholder>, moved: map<nat, seq<Watcher>>) {
    forall p: Placeholder ::
      (multiset(done) + multiset(ready))[p] == if p.cbh in moved && p.mi in moved[p.cbh] then 1 else 0
  }

  ghost predicate RefsMatch(refs: seq<int>, ready: seq<Placeholder>, busy: seq<Placeholder>) {
    forall id | 0 <= id < |refs| :: refs[id] == CountOf(ready, id) + CountOf(busy, id)
  }

  /** Every notification has been moved or waits, never both, and waits at one place. */
  ghost predicate PendingGood(pending: seq<nat>, moved: map<nat, seq<Watcher>>, n: nat) {
    (forall i | 0 <= i < |pending| :: pending[i] < n && pending[i] !in moved) &&
    (forall i, j | 0 <= i < j < |pending| :: pending[i] != pending[j]) &&
    (forall id | id in moved :: id < n) &&
    (forall id: nat | id < n && id !in moved :: id in pending)
  }

  /** A watcher is owed one of the first n notifications. */
  ghost predicate Due(moved: map<nat, seq<Watcher>>, n: nat, p: Placeholder) {
    p.cbh < n && p.cbh in moved && p.mi in moved[p.cbh]
  }

  /** At the k-th delivery n notifications had been raised, all of them moved: what was delivered was due and not yet
      delivered, and nothing else due and undelivered had a higher priority. */
  ghost predicate Best(done: seq<Placeholder>, k: nat, n: nat, moved: map<nat, seq<Watcher>>)
    requires k < |done|
  {
    (forall id: nat | id < n :: id in moved) && Due(moved, n, done[k]) && done[k] !in done[..k] &&
    forall p: Placeholder | Due(moved, n, p) && p !in done[..k] :: p.mi.priority <= done[k].mi.priority
  }

  /** Every delivery was the best one among the notifications raised by then. */
  ghost predicate Chosen(done: seq<Placeholder>, raised: seq<nat>, moved: map<nat, seq<Watcher>>) {
    |done| == |raised| && forall k | 0 <= k < |done| :: Best(done, k, raised[k], moved)
  }

  /** While nothing new is raised, deliveries come in descending priority. */
  lemma QuietDescends(done: seq<Placeholder>, raised: seq<nat>, moved: map<nat, seq<Watcher>>, k: nat)
    requires Chosen(done, raised, moved) && k + 1 < |done| && raised[k] == raised[k + 1]
    ensures done[k].mi.priority >= done[k + 1].mi.priority
  {
    assert Best(done, k, raised[k], moved) && Best(done, k + 1, raised[k + 1], moved);
    assert done[..k + 1] == done[..k] + [done[k]];
  }

  lemma ChosenMore(done: seq<Placeholder>, raised: seq<nat>, r: seq<Placeholder>, moved: map<nat, seq<Watcher>>, n: nat)
    requires Chosen(done, raised, moved) && r != [] && Descending(r) && Known(r, n)
    requires Ledger(done, r, moved) && PendingGood([], moved, n)
    ensures Chosen(done + [r[0]], raised + [n], moved)
  {
    var all := done + [r[0]];
    forall p: Placeholder ensures (p in done <==> multiset(done)[p] > 0) && (p in r <==> multiset(r)[p] > 0) {
      assert p in done <==> p in multiset(done);
      assert p in r <==> p in multiset(r);
    }
    forall k | 0 <= k < |all| ensures Best(all, k, (raised + [n])[k], moved) {
      if k < |done| {
        assert all[..k] == done[..k];
        assert Best(done, k, raised[k], moved);
      } else {
        assert all[..k] == done;
        BestNow(done, r, moved, n);
      }
    }
  }

  lemma BestNow(done: seq<Placeholder>, r: seq<Placeholder>, moved: map<nat, seq<Watcher>>, n: nat)
    requires r != [] && Descending(r) && Known(r, n) && Ledger(done, r, moved) && PendingGood([], moved, n)
    ensures Best(done + [r[0]], |done|, n, moved)
  {
    var all := done + [r[0]];
    assert all[..|done|] == done;
    LedgerSplits(done, r, moved, r[0]);
    forall p: Placeholder | Due(moved, n, p) && p !in done ensures p.mi.priority <= r[0].mi.priority {
      LedgerSplits(done, r, moved, p);
      FirstHighest(r);
    }
  }

  /** What is owed is delivered or ready, not both. */
  lemma LedgerSplits(done: seq<Placeholder>, r: seq<Placeholder>, moved: map<nat, seq<Watcher>>, p: Placeholder)
    requires Ledger(done, r, moved)
    ensures p in done || p in r <==> p.cbh in moved && p.mi in moved[p.cbh]
    ensures !(p in done && p in r)
  {
    assert (multiset(done) + multiset(r))[p] == if p.cbh in moved && p.mi in moved[p.cbh] then 1 else 0;
    assert p in done <==> p in multiset(done);
    assert p in r <==> p in multiset(r);
  }

  /** A notification moved later disturbs no earlier choice. */
  lemma ChosenMoved(done: seq<Placeholder>, raised: seq<nat>, moved: map<nat, seq<Watcher>>, id: nat, ws: seq<Watcher>)
    requires Chosen(done, raised, moved) && id !in moved
    ensures Chosen(done, raised, moved[id := ws])
  {
    forall k | 0 <= k < |done| ensures Best(done, k, raised[k], moved[id := ws]) {
      assert Best(done, k, raised[k], moved);
      assert forall p: Placeholder :: Due(moved[id := ws], raised[k], p) <==> Due(moved, raised[k], p);
    }
  }

  /** A ready placeholder refers to a registered watcher, unless this was unregistered since. */
  ghost predicate Live(ready: seq<Placeholder>, gone: set<Placeholder>, watchers: map<Oid, seq<Watcher>>,
                       moved: map<nat, seq<Watcher>>)
  {
    (forall p | p in ready && p !in gone :: p.mi in ListOf(watchers, p.mi.subject)) &&
    (forall p | p in gone :: p.cbh in moved)
  }

  lemma LiveRegistered(ready: seq<Placeholder>, gone: set<Placeholder>, m: map<Oid, seq<Watcher>>,
                       moved: map<nat, seq<Watcher>>, w: Watcher)
    requires Live(ready, gone, m, moved)
    ensures Live(ready, gone, Registered(m, w), moved)
  {
    hide Registered;
    forall p | p in ready && p !in gone ensures p.mi in ListOf(Registered(m, w), p.mi.subject) {
      RegisteredKeeps(m, w, p.mi.subject, p.mi);
    }
  }

  /** A watcher is unregistered: the placeholders that refer to it are without one. */
  lemma LiveUnregistered(ready: seq<Placeholder>, gone: set<Placeholder>, m: map<Oid, seq<Watcher>>,
                         moved: map<nat, seq<Watcher>>, key: Key)
    requires GoodWatchers(m) && Live(ready, gone, m, moved) && forall p | p in ready :: p.cbh in moved
    ensures Live(ready, gone + Widowed(ready, [Unregister(key)]), Unregistered(m, key), moved)
    ensures NamedAt(ListOf(m, key.subject), key) == |ListOf(m, key.subject)| ==>
              Widowed(ready, [Unregister(key)]) <= gone
  {
    hide GoodWatchers, Unregistered;
    var acts := [Unregister(key)];
    forall p | p in ready ensures Ends(acts, p.mi) <==> Names(key, p.mi) {
      if Names(key, p.mi) { assert acts[0] in acts; }
    }
    forall p | p in ready && p !in gone && !Names(key, p.mi)
      ensures p.mi in ListOf(Unregistered(m, key), p.mi.subject) {
      UnregisteredExact(m, key, p.mi.subject, p.mi);
    }
    NamedAtFirst(ListOf(m, key.subject), key);
  }

  /** Placeholders that are new refer to registered watchers. */
  lemma LiveMoved(r: seq<Placeholder>, now: seq<Placeholder>, gone: set<Placeholder>, m: map<Oid, seq<Watcher>>,
                  moved: map<nat, seq<Watcher>>, id: nat, o: Oid, event: bv32)
    requires Live(r, gone, m, moved) && GoodWatchers(m) && id !in moved
    requires multiset(now) == multiset(r) + multiset(Marks(Wanting(ListOf(m, o), event), id))
    ensures Live(now, gone, m, moved[id := Wanting(ListOf(m, o), event)])
  {
    hide Wanting;
    var ws := Wanting(ListOf(m, o), event);
    forall p | p in now && p !in gone ensures p.mi in ListOf(m, p.mi.subject) {
      assert p in multiset(now);
      if p !in r {
        assert p in multiset(Marks(ws, id));
        assert p in Marks(ws, id);
        WantingExact(ListOf(m, o), event, p.mi);
        if o in m { assert GoodList(o, m[o]); }
      }
    }
  }

  lemma LivePop(ready: seq<Placeholder>, gone: set<Placeholder>, m: map<Oid, seq<Watcher>>,
                moved: map<nat, seq<Watcher>>)
    requires ready != [] && Live(ready, gone, m, moved)
    ensures Live(ready[1..], gone, m, moved)
  {
  }

  /** Everything ready was moved. */
  lemma ReadyMoved(done: seq<Placeholder>, r: seq<Placeholder>, moved: map<nat, seq<Watcher>>)
    requires Ledger(done, r, moved)
    ensures forall p | p in r :: p.cbh in moved
  {
    forall p | p in r ensures p.cbh in moved { LedgerSplits(done, r, moved, p); }
  }

  /** The ready placeholders some actions leave without a watcher. */
  ghost function Widowed(ready: seq<Placeholder>, acts: seq<Action>): set<Placeholder> {
    set p | p in ready && Ends(acts, p.mi)
  }

  /** Placeholders refer to notifications there are. */
  ghost predicate Known(r: seq<Placeholder>, n: nat) {
    forall k | 0 <= k < |r| :: r[k].cbh < n
  }

  lemma NobodyYet(r: seq<Placeholder>, n: nat)
    requires Known(r, n)
    ensures CountOf(r, n) == 0 && Known(r, n + 1)
  {
    CountZero(r, n);
  }

  /** The placeholders a moved notification brings. */
  ghost function Marks(ws: seq<Watcher>, id: nat): (r: seq<Placeholder>)
    ensures |r| == |ws| && forall k | 0 <= k < |ws| :: r[k] == Placeholder(ws[k], id)
  {
    seq(|ws|, k requires 0 <= k < |ws| => Placeholder(ws[k], id))
  }

  lemma {:induction false} MarksCount(ws: seq<Watcher>, id: nat, p: Placeholder)
    ensures multiset(Marks(ws, id))[p] == if p.cbh == id then multiset(ws)[p.mi] else 0
  {
    if ws != [] {
      var t, x := ws[..|ws| - 1], ws[|ws| - 1];
      MarksCount(t, id, p);
      assert ws == t + [x] && Marks(ws, id) == Marks(t, id) + [Placeholder(x, id)];
    }
  }

  /** Moving one notification keeps the ledger. */
  lemma LedgerMoved(done: seq<Placeholder>, r: seq<Placeholder>, now: seq<Placeholder>, moved: map<nat, seq<Watcher>>,
                    id: nat, ws: seq<Watcher>, event: bv32)
    requires Ledger(done, r, moved) && id !in moved && NoTwins(ws)
    requires multiset(now) == multiset(r) + multiset(Marks(Wanting(ws, event), id))
    ensures Ledger(done, now, moved[id := Wanting(ws, event)])
  {
    hide NoTwins, Wanting, Marks;
    forall p: Placeholder ensures (multiset(done) + multiset(now))[p] ==
        if p.cbh in moved[id := Wanting(ws, event)] && p.mi in moved[id := Wanting(ws, event)][p.cbh] then 1 else 0
    {
      MarksCount(Wanting(ws, event), id, p);
      WantingOnce(ws, event, p.mi);
      WantingExact(ws, event, p.mi);
      assert (multiset(done) + multiset(r))[p] == if p.cbh in moved && p.mi in moved[p.cbh] then 1 else 0;
    }
  }

  /** The first ready placeholder becomes the last delivered one. */
  lemma LedgerDelivered(done: seq<Placeholder>, r: seq<Placeholder>, moved: map<nat, seq<Watcher>>)
    requires Ledger(done, r, moved) && r != []
    ensures Ledger(done + [r[0]], r[1..], moved)
  {
    assert r == [r[0]] + r[1..];
    assert multiset(done + [r[0]]) + multiset(r[1..]) == multiset(done) + multiset(r);
  }

  lemma RefsPut(refs: seq<int>, r: seq<Placeholder>, busy: seq<Placeholder>, i: nat, x: Placeholder)
    requires RefsMatch(refs, r, busy) && i <= |r| && x.cbh < |refs|
    ensures RefsMatch(refs[x.cbh := refs[x.cbh] + 1], Put(r, i, x), busy)
  {
    hide CountOf, Put;
    forall id | 0 <= id < |refs|
      ensures refs[x.cbh := refs[x.cbh] + 1][id] == CountOf(Put(r, i, x), id) + CountOf(busy, id) {
      CountPut(r, i, x, id);
    }
  }

  lemma RefsPop(refs: seq<int>, r: seq<Placeholder>)
    requires RefsMatch(refs, r, []) && r != []
    ensures RefsMatch(refs, r[1..], [r[0]])
  {
    forall id | 0 <= id < |refs| ensures refs[id] == CountOf(r[1..], id) + CountOf([r[0]], id) {
      assert [r[0]][1..] == [];
    }
  }

  lemma RefsDone(refs: seq<int>, r: seq<Placeholder>, x: Placeholder)
    requires RefsMatch(refs, r, [x]) && x.cbh < |refs|
    ensures RefsMatch(refs[x.cbh := refs[x.cbh] - 1], r, [])
    ensures refs[x.cbh] - 1 == 0 <==> forall k | 0 <= k < |r| :: r[k].cbh != x.cbh
  {
    forall id | 0 <= id < |refs| ensures refs[x.cbh := refs[x.cbh] - 1][id] == CountOf(r, id) + CountOf([], id) {
      assert [x][1..] == [];
    }
    assert [x][1..] == [];
    CountZero(r, x.cbh);
  }

  lemma RefsGrow(refs: seq<int>, r: seq<Placeholder>, busy: seq<Placeholder>)
    requires RefsMatch(refs, r, busy) && Known(r, |refs|) && Known(busy, |refs|)
    ensures RefsMatch(refs + [0], r, busy)
  {
    NobodyYet(r, |refs|);
    NobodyYet(busy, |refs|);
  }

  /** A snapshot of the monitor. */
  datatype State = State(notes: seq<Note>, watchers: map<Oid, seq<Watcher>>, pending: seq<nat>,
                         moved: map<nat, seq<Watcher>>, delivered: seq<Placeholder>, raised: seq<nat>,
                         ready: seq<Placeholder>, gone: set<Placeholder>, order: seq<nat>, trail: seq<Placeholder>)

  /** What holds of every snapshot. */
  ghost predicate Sane(s: State) {
    PendingGood(s.pending, s.moved, |s.notes|) && Ledger(s.delivered, s.ready, s.moved) &&
    Chosen(s.delivered, s.raised, s.moved) && Live(s.ready, s.gone, s.watchers, s.moved) &&
    Turns(s.delivered, s.ready, s.trail, s.order, s.moved)
  }

  class Monitor {
    var watchers: map<Oid, seq<Watcher>>
    var notes: seq<Note>
    var refs: seq<int>
    var pending: seq<nat>
    var ready: seq<Placeholder>
    /** The placeholder whose callback is running, if any. */
    var busy: seq<Placeholder>
    ghost var moved: map<nat, seq<Watcher>>
    ghost var delivered: seq<Placeholder>
    /** How many notifications had been raised at each delivery. */
    ghost var raised: seq<nat>
    /** Placeholders whose watcher was unregistered, and so freed, while they were ready. */
    ghost var gone: set<Placeholder>
    /** The notifications in the order in which they were moved, and the placeholders in the order of their arrival. */
    ghost var order: seq<nat>
    ghost var trail: seq<Placeholder>

    /** netsnmp_monitor_init. */
    constructor ()
      ensures Valid() && pending == [] && ready == [] && busy == [] && watchers == map[] && gone == {}
      ensures notes == [] && delivered == [] && order == [] && trail == []
    {
      watchers, notes, refs, pending, ready, busy := map[], [], [], [], [], [];
      moved, delivered, raised, gone, order, trail := map[], [], [], {}, [], [];
    }

    ghost predicate Valid()
      reads this
    {
      GoodWatchers(watchers) && |refs| == |notes| && PendingGood(pending, moved, |notes|) &&
      Descending(ready) && Known(ready, |notes|) && Known(busy, |notes|) &&
      RefsMatch(refs, ready, busy) && Ledger(delivered, ready, moved) && Chosen(delivered, raised, moved) &&
      Live(ready, gone, watchers, moved) && Turns(delivered, ready, trail, order, moved)
    }

    ghost function Now(): State
      reads this
    {
      State(notes, watchers, pending, moved, delivered, raised, ready, gone, order, trail)
    }

    /** insert_watcher: watchers of an object stay ordered by priority; a twin of a registration is refused. */
    method InsertWatcher(w: Watcher) returns (rc: int)
      requires Valid()
      modifies this`watchers
      ensures Valid()
      ensures rc == if HasTwin(ListOf(old(watchers), w.subject), w) then -57 else 0
      ensures watchers == Registered(old(watchers), w)
      ensures rc != 0 ==> watchers == old(watchers)
      ensures rc == 0 ==>
                multiset(ListOf(watchers, w.subject)) == multiset(ListOf(old(watchers), w.subject)) + multiset{w}
      ensures rc == 0 ==> BehindEquals(ListOf(old(watchers), w.subject), w, ListOf(watchers, w.subject))
      ensures forall o | o != w.subject :: ListOf(watchers, o) == ListOf(old(watchers), o)
    {
      hide Ledger, RefsMatch, PendingGood, Chosen, Descending, Known, GoodWatchers, Registered, HasTwin, PlaceOf, Put;
      hide Live, Turns, BehindEquals;
      RegisteredExact(watchers, w);
      LiveRegistered(ready, gone, watchers, moved, w);
      var ws := ListOf(watchers, w.subject);
      hide ListOf;
      ListRanked(watchers, w.subject);
      var found, i := WatcherPlace(ws, w);
      if !found { return VALUE; }
      PlaceIs(ws, w, i);
      PutBehind(ws, w, i);
      NowListed(watchers, w.subject, Put(ws, i, w));
      RegisteredAt(watchers, w, ws, i);
      StaysGood(watchers, w, ws, i);
      var now := watchers[w.subject := Put(ws, i, w)];
      watchers := now;
      return SUCCESS;
    }

    /** netsnmp_monitor_unregister: exactly the watcher named leaves, and its memory is freed; placeholders that are
        ready keep pointing to it. */
    method UnregisterWatcher(key: Key) returns (rc: int)
      requires Valid()
      modifies this`watchers, this`gone
      ensures Valid() && watchers == Unregistered(old(watchers), key) && Lost(old(watchers), watchers, key)
      ensures rc == 0 <==> exists w | w in ListOf(old(watchers), key.subject) :: Names(key, w)
      ensures rc == 0 || (rc == -1 && watchers == old(watchers))
      ensures gone == old(gone) + Widowed(ready, [Unregister(key)])
    {
      hide Ledger, RefsMatch, PendingGood, Chosen, Descending, Known, GoodWatchers, Live, Widowed, Cut, Unregistered;
      hide Lost, Turns;
      UnregisteredGood(watchers, key);
      LostExactly(watchers, key);
      ReadyMoved(delivered, ready, moved);
      LiveUnregistered(ready, gone, watchers, moved, key);
      var ws := ListOf(watchers, key.subject);
      ListSubjects(watchers, key.subject);
      var i := NamedPlace(ws, key);
      hide ListOf, Names, NamedAt;
      UnregisteredAt(watchers, key, ws, i);
      if i == |ws| {
        assert gone + Widowed(ready, [Unregister(key)]) == gone;
        return GENERR;
      }
      gone := gone + Widowed(ready, [Unregister(key)]);
      if |ws| == 1 {
        watchers := watchers - {key.subject};
      } else {
        watchers := watchers[key.subject := Cut(ws, i)];
      }
      assert watchers == Unregistered(old(watchers), key);
      return SUCCESS;
    }

    /** netsnmp_notify_monitor: a notification waits in front of those already waiting. */
    method NotifyMonitor(note: Note)
      requires Valid()
      modifies this`notes, this`refs, this`pending
      ensures Valid()
      ensures notes == old(notes) + [note] && pending == [|old(notes)|] + old(pending) && refs == old(refs) + [0]
    {
      hide Ledger, Chosen, GoodWatchers, RefsMatch, Descending, PendingGood, Live, Turns;
      var id := |notes|;
      NobodyYet(ready, id);
      NobodyYet(busy, id);
      RefsGrow(refs, ready, busy);
      PendingMore(pending, moved, id);
      notes, refs, pending := notes + [note], refs + [0], [id] + pending;
    }

    /** One interested watcher gets a placeholder in the ready list, and the notification one more reference. */
    method InsertReady(w: Watcher, id: nat)
      requires Descending(ready) && Known(ready, |notes|) && |refs| == |notes| && RefsMatch(refs, ready, busy)
               && id < |notes|
      requires Tracked(delivered, ready, trail) && Placeholder(w, id) !in trail
      modifies this`ready, this`refs, this`trail
      ensures Descending(ready) && Known(ready, |notes|) && |refs| == |notes| && RefsMatch(refs, ready, busy)
      ensures multiset(ready) == multiset(old(ready)) + multiset{Placeholder(w, id)} && |ready| == |old(ready)| + 1
      ensures Tracked(delivered, ready, trail) && trail == old(trail) + [Placeholder(w, id)]
    {
      hide RefsMatch, Descending, Put, Tracked;
      var x := Placeholder(w, id);
      var i := ReadyPlace(ready, x);
      TrackedPut(delivered, ready, trail, i, x);
      RefsPut(refs, ready, busy, i, x);
      PutMultiset(ready, i, x);
      forall k | 0 <= k <= |ready| ensures Put(ready, i, x)[k].cbh < |notes| { PutAt(ready, i, x, k); }
      refs := refs[id := refs[id] + 1];
      ready := Put(ready, i, x);
      trail := trail + [x];
    }

    /** One turn of move_pending_to_ready: the notification goes to everybody interested now. */
    method MoveOne()
      requires Valid() && pending != []
      modifies this`pending, this`ready, this`refs, this`moved, this`order, this`trail
      ensures Valid() && pending == old(pending)[1..] && order == old(order) + [old(pending)[0]]
      ensures var note := notes[old(pending)[0]];
              moved == old(moved)[old(pending)[0] := Wanting(ListOf(watchers, note.subject), note.event)]
      ensures multiset(ready) >= multiset(old(ready))
    {
      hide GoodWatchers, RefsMatch, Ledger, Chosen, Descending, Wanting, Marks, Known, PendingGood, Live, Tracked;
      hide TrailGood;
      PendingRest(pending, moved, |notes|);
      var id := pending[0];
      var note := notes[id];
      ghost var waiting, r := pending, ready;
      pending := pending[1..];
      var ws := ListOf(watchers, note.subject);
      ListNoTwins(watchers, note.subject);
      TrailMore(trail, order, moved, id, Wanting(ws, note.event));
      NotTrailed(trail, order, moved, id);
      PlaceAll(ws, note.event, id);
      order := order + [id];
      LedgerMoved(delivered, r, ready, moved, id, ws, note.event);
      LiveMoved(r, ready, gone, watchers, moved, id, note.subject, note.event);
      PendingMoved(waiting, moved, |notes|, Wanting(ws, note.event));
      ChosenMoved(delivered, raised, moved, id, Wanting(ws, note.event));
      moved := moved[id := Wanting(ws, note.event)];
    }

    /** Every watcher of a list that wants the event gets its placeholder; the search starts at the first one. */
    method PlaceAll(ws: seq<Watcher>, event: bv32, id: nat)
      requires Descending(ready) && Known(ready, |notes|) && |refs| == |notes| && RefsMatch(refs, ready, busy)
               && id < |notes|
      requires Tracked(delivered, ready, trail) && NoTwins(ws) && forall p | p in trail :: p.cbh != id
      modifies this`ready, this`refs, this`trail
      ensures Descending(ready) && Known(ready, |notes|) && |refs| == |notes| && RefsMatch(refs, ready, busy)
      ensures multiset(ready) == multiset(old(ready)) + multiset(Marks(Wanting(ws, event), id))
      ensures Tracked(delivered, ready, trail) && trail == old(trail) + Marks(Wanting(ws, event), id)
    {
      hide RefsMatch, Descending, Wanting, Marks, Known, Tracked, Masked, Shares;
      var k := FirstWanting(ws, event);
      WantingNone(ws, k, event);
      MarksNone(id);
      while k < |ws|
        invariant 0 <= k <= |ws|
        invariant Descending(ready) && Known(ready, |notes|) && |refs| == |notes| && RefsMatch(refs, ready, busy)
        invariant Tracked(delivered, ready, trail) && trail == old(trail) + Marks(Wanting(ws[..k], event), id)
      {
        NotMarked(ws, k, event, id);
        MaskedShares(ws[k].events, event);
        if Masked(ws[k].events, event) != 0 {
          InsertReady(ws[k], id);
        }
        k := k + 1;
      }
      assert ws[..k] == ws;
      ReadyGrew(delivered, old(ready), old(trail), ready, Marks(Wanting(ws, event), id));
    }

    /** move_pending_to_ready: nothing waits afterwards, and each notification that waited went to exactly the watchers
        interested in it at this moment. */
    method MovePending()
      requires Valid()
      modifies this`pending, this`ready, this`refs, this`moved, this`order, this`trail
      ensures Valid() && pending == [] && order == old(order) + old(pending)
      ensures forall id | id in old(pending) :: WentNow(notes, watchers, moved, id)
      ensures forall id | id in old(moved) :: id in moved && moved[id] == old(moved)[id]
      ensures forall id | id in moved :: id in old(moved) || id in old(pending)
      ensures old(pending) == [] ==> ready == old(ready)
    {
      hide GoodWatchers, RefsMatch, Ledger, Chosen, Descending, Wanting, Known, PendingGood, Live, Turns;
      ghost var i := 0;
      while pending != []
        invariant Valid() && i <= |old(pending)| && pending == old(pending)[i..]
        invariant order == old(order) + old(pending)[..i]
        invariant forall k | 0 <= k < i :: WentNow(notes, watchers, moved, old(pending)[k])
        invariant forall id | id in old(moved) :: id in moved && moved[id] == old(moved)[id]
        invariant forall id | id in moved :: id in old(moved) || id in old(pending)[..i]
        invariant i == 0 ==> ready == old(ready)
        decreases |pending|
      {
        assert pending[0] == old(pending)[i];
        PendingRest(pending, moved, |notes|);
        ghost var was := moved;
        MoveOne();
        assert old(pending)[..i + 1] == old(pending)[..i] + [old(pending)[i]];
        i := i + 1;
      }
    }

    /** What a callback may do: notify again, register a watcher or unregister one. */
    method RunActions(actions: seq<Action>)
      requires Valid()
      modifies this`watchers, this`notes, this`refs, this`pending, this`gone
      ensures Valid() && notes == old(notes) + NotesOf(actions) && watchers == RegistryAfter(old(watchers), actions)
      ensures gone == old(gone) + Widowed(ready, actions)
      ensures pending == Down(|old(notes)|, |notes|) + old(pending)
    {
      hide GoodWatchers, RefsMatch, Ledger, Chosen, Descending, Known, PendingGood, RegistryWith, RegistryAfter,
           NotesOf;
      hide Live, Turns, Widowed, Down, Raises;
      var k := 0;
      DownNone(|notes|, pending);
      NoActions(watchers, actions);
      NoneWidowed(ready, actions);
      while k < |actions|
        invariant Valid() && 0 <= k <= |actions| && pending == Down(|old(notes)|, |notes|) + old(pending)
        invariant notes == old(notes) + NotesOf(actions[..k]) && watchers == RegistryAfter(old(watchers), actions[..k])
        invariant gone == old(gone) + Widowed(ready, actions[..k])
      {
        OneMore(old(watchers), actions, k);
        WidowedMore(ready, actions, k);
        DownMore(|old(notes)|, |notes|, old(pending), actions[k]);
        Act(actions[k]);
        k := k + 1;
      }
      assert actions[..k] == actions;
    }

    /** One of these actions. */
    method Act(a: Action)
      requires Valid()
      modifies this`watchers, this`notes, this`refs, this`pending, this`gone
      ensures Valid() && notes == old(notes) + Raises(a) && watchers == RegistryWith(old(watchers), a)
      ensures gone == old(gone) + Widowed(ready, [a])
      ensures pending == (if a.Notify? then [|old(notes)|] else []) + old(pending)
    {
      hide GoodWatchers, RefsMatch, Ledger, Chosen, Descending, Known, PendingGood, Registered, Unregistered, Lost,
           Live;
      hide Turns, Widowed;
      WidowedMore(ready, [a], 0);
      NoneWidowed(ready, [a]);
      match a {
        case Notify(note) => NotifyMonitor(note);
        case Register(w) => var rc := InsertWatcher(w);
        case Unregister(key) => var rc := UnregisterWatcher(key);
      }
    }

    /** One turn of the loop of netsnmp_monitor_process_callbacks: with nothing waiting, a callback of the highest
        priority among all that are ready is called, and its notification loses a reference. */
    method CallOne(actions: seq<Action>) returns (freed: bool)
      requires Valid() && ready != [] && pending == [] && busy == []
      modifies this
      ensures Valid() && busy == [] && ready == old(ready)[1..] && moved == old(moved)
      ensures delivered == old(delivered) + [old(ready)[0]] && raised == old(raised) + [|old(notes)|]
      ensures forall p | p in old(ready) :: p.mi.priority <= old(ready)[0].mi.priority
      ensures freed <==> forall p | p in ready :: p.cbh != old(ready)[0].cbh
      ensures notes == old(notes) + NotesOf(actions) && watchers == RegistryAfter(old(watchers), actions)
      ensures gone == old(gone) + Widowed(ready, actions) && order == old(order)
      ensures pending == Down(|old(notes)|, |notes|)
    {
      hide GoodWatchers, RefsMatch, Ledger, PendingGood, Chosen, Descending, Known, NotesOf, RegistryAfter, Live, Turns,
           Widowed;
      FirstHighest(ready);
      var cur := Pop();
      RunActions(actions);
      freed := Finish(cur);
    }

    /** The first ready placeholder is taken off and its callback called. */
    method Pop() returns (cur: Placeholder)
      requires Valid() && ready != [] && busy == [] && pending == []
      modifies this`ready, this`busy, this`delivered, this`raised
      ensures Valid() && cur == old(ready)[0] && busy == [cur] && ready == old(ready)[1..]
      ensures delivered == old(delivered) + [cur] && raised == old(raised) + [|notes|]
    {
      hide GoodWatchers, RefsMatch, Ledger, PendingGood, Chosen, Live, Descending, Known, Tracked, TrailGood;
      cur := ready[0];
      TrackedPop(delivered, ready, trail);
      TailGood(ready, |notes|);
      LivePop(ready, gone, watchers, moved);
      RefsPop(refs, ready);
      LedgerDelivered(delivered, ready, moved);
      ChosenMore(delivered, raised, ready, moved, |notes|);
      delivered, raised := delivered + [cur], raised + [|notes|];
      ready, busy := ready[1..], [cur];
    }

    /** The notification loses a reference; with the last one it is freed. */
    method Finish(cur: Placeholder) returns (freed: bool)
      requires Valid() && busy == [cur]
      modifies this`refs, this`busy
      ensures Valid() && busy == [] && (freed <==> forall p | p in ready :: p.cbh != cur.cbh)
    {
      hide GoodWatchers, RefsMatch, Ledger, Wanting, PendingGood, Chosen, Descending, Live, Turns;
      assert busy[0] == cur;
      RefsDone(refs, ready, cur);
      refs := refs[cur.cbh := refs[cur.cbh] - 1];
      freed := refs[cur.cbh] == 0;
      busy := [];
    }

    /** netsnmp_monitor_process_callbacks, for callbacks of which the k-th does what the script says. It ends with
        nothing waiting and nothing ready. Every notification, those raised by the callbacks included, was moved, and
        went once to each watcher that wanted it and was registered when it was moved: at the start, or after the
        callback that raised it. Each callback called had the highest priority of all then due; of equal priorities the
        notification moved earlier goes first, and of one notification the earlier watcher. A call goes through a
        registration already freed exactly when a callback in between unregistered it. */
    method Process(script: seq<seq<Action>>) returns (ghost n: nat)
      requires Valid() && ready == [] && busy == []
      modifies this
      ensures Valid() && pending == [] && ready == [] && busy == []
      ensures |delivered| == |old(delivered)| + n && delivered[..|old(delivered)|] == old(delivered)
      ensures notes == old(notes) + NotesOf(Acts(script, n))
              && watchers == RegistryAfter(old(watchers), Acts(script, n))
      ensures forall id: nat | id < |notes| :: id in moved
      ensures forall id | id in old(moved) :: moved[id] == old(moved)[id]
      ensures forall id | id in old(pending) :: MovedAt(script, 0, old(watchers), notes, moved, id)
      ensures forall j: nat, id: nat | InStage(|old(notes)|, script, j, n, id) ::
                MovedAt(script, j, old(watchers), notes, moved, id)
      ensures forall p: Placeholder :: multiset(delivered)[p] == if p.cbh in moved && p.mi in moved[p.cbh] then 1 else 0
      ensures Chosen(delivered, raised, moved)
      ensures forall k: nat | k < n :: raised[|old(delivered)| + k] == RaisedBy(|old(notes)|, script, k)
      ensures forall id | 0 <= id < |refs| :: refs[id] == 0
      ensures CallsKnown(script, n, old(Now()), Now())
      ensures order == old(order) + old(pending) + Waves(|old(notes)|, script, n)
      ensures TrailGood(trail, order, moved) && InTurn(delivered, trail)
    {
      hide GoodWatchers, RefsMatch, Descending, Known, Going, Turned, WentNow, MovedAt, InStage, CallsKnown, Chosen;
      hide PendingGood, Ledger, Live, Turns, Tracked, TrailGood, InTurn, Waves;
      n := 0;
      MovePending();
      Start(script, old(Now()), Now());
      var k := 0;
      while ready != []
        invariant Valid() && pending == [] && busy == [] && 0 <= k == n && Going(script, n, old(Now()), Now())
        decreases if k < |script| then |script| - k else 0, |ready|
      {
        ghost var s := Now();
        var acts := if k < |script| then script[k] else [];
        Turn(acts);
        GoOn(script, n, old(Now()), s, acts, Now());
        k, n := k + 1, n + 1;
      }
      NoRefs(refs);
      Arrived(script, n, old(Now()), Now());
    }

    /** One callback, and then whatever it raised is moved. */
    method Turn(actions: seq<Action>)
      requires Valid() && ready != [] && pending == [] && busy == []
      modifies this
      ensures Valid() && pending == [] && busy == [] && Turned(old(Now()), actions, Now())
      ensures actions == [] ==> |ready| == |old(ready)| - 1
    {
      hide GoodWatchers, RefsMatch, Ledger, Descending, Known, PendingGood, Chosen, NotesOf, RegistryAfter, Wanting;
      hide Live, Turns, Widowed, WentNow, Down;
      NoneBeyond(pending, moved, |notes|);
      NothingRaised(actions, |notes|);
      var freed := CallOne(actions);
      StillWaits(pending, moved, |notes|);
      MovePending();
    }
  }

  // ----- a run from beginning to end

  /** What one turn does: the first ready placeholder is delivered, its callback acts, and all that it raised goes to
      those interested now. */
  ghost predicate Turned(s: State, acts: seq<Action>, t: State)
    requires s.ready != []
  {
    t.delivered == s.delivered + [s.ready[0]] && t.raised == s.raised + [|s.notes|] &&
    t.notes == s.notes + NotesOf(acts) && t.watchers == RegistryAfter(s.watchers, acts) &&
    t.gone == s.gone + Widowed(s.ready[1..], acts) && t.order == s.order + Down(|s.notes|, |t.notes|) &&
    (forall id | id in s.moved :: id in t.moved && t.moved[id] == s.moved[id]) &&
    (forall id: nat | |s.notes| <= id < |t.notes| :: WentNow(t.notes, t.watchers, t.moved, id))
  }

  /** b-1, b-2, .. a: what waits when these were raised one after the other. */
  ghost function Down(a: nat, b: nat): (r: seq<nat>)
    ensures a <= b ==> |r| == b - a && forall k | 0 <= k < |r| :: r[k] == b - 1 - k
  {
    if a >= b then [] else [b - 1] + Down(a, b - 1)
  }

  /** The notifications of n callbacks in the order in which they are moved: those of one callback last one first. */
  ghost function Waves(before: nat, script: seq<seq<Action>>, n: nat): seq<nat> {
    if n == 0 then []
    else Waves(before, script, n - 1) + Down(RaisedBy(before, script, n - 1), RaisedBy(before, script, n))
  }

  /** Where a run that began in s0 stands after n callbacks. */
  ghost predicate Going(script: seq<seq<Action>>, n: nat, s0: State, s: State) {
    |s.delivered| == |s0.delivered| + n && s.delivered[..|s0.delivered|] == s0.delivered &&
    Moves(script, n, s0, s) &&
    Fates(script, n, |s0.notes|, s0.pending, s.delivered[|s0.delivered|..], s.moved, s.gone)
  }

  ghost predicate Moves(script: seq<seq<Action>>, n: nat, s0: State, s: State) {
    s.notes == s0.notes + NotesOf(Acts(script, n)) && s.watchers == RegistryAfter(s0.watchers, Acts(script, n)) &&
    |s.raised| == |s0.raised| + n && s.order == s0.order + s0.pending + Waves(|s0.notes|, script, n) &&
    (forall k: nat | k < n :: s.raised[|s0.raised| + k] == RaisedBy(|s0.notes|, script, k)) &&
    (forall id | id in s0.moved :: id in s.moved && s.moved[id] == s0.moved[id]) &&
    (forall id | id in s0.pending :: MovedAt(script, 0, s0.watchers, s.notes, s.moved, id)) &&
    (forall j: nat, id: nat | InStage(|s0.notes|, script, j, n, id) ::
       MovedAt(script, j, s0.watchers, s.notes, s.moved, id))
  }

  /** Everything that waited is moved. */
  lemma Start(script: seq<seq<Action>>, s0: State, s: State)
    requires Sane(s0)
    requires s == s0.(pending := s.pending, ready := s.ready, moved := s.moved, order := s.order, trail := s.trail)
    requires s.order == s0.order + s0.pending
    requires forall id | id in s0.moved :: id in s.moved && s.moved[id] == s0.moved[id]
    requires forall id | id in s0.pending :: WentNow(s.notes, s.watchers, s.moved, id)
    ensures Going(script, 0, s0, s)
  {
    hide Turns, Ledger, Live, Chosen, PendingGood, Moves;
    MovesStart(script, s0, s);
    FatesStart(script, s0, s.moved);
    assert s.delivered[|s0.delivered|..] == [];
  }

  lemma MovesStart(script: seq<seq<Action>>, s0: State, s: State)
    requires s.notes == s0.notes && s.watchers == s0.watchers && s.raised == s0.raised
    requires s.order == s0.order + s0.pending
    requires forall id | id in s0.moved :: id in s.moved && s.moved[id] == s0.moved[id]
    requires forall id | id in s0.pending :: WentNow(s.notes, s.watchers, s.moved, id)
    ensures Moves(script, 0, s0, s)
  {
    hide WentNow;
    assert Acts(script, 0) == [] && NotesOf([]) == [] && s.notes + [] == s.notes;
    assert RegistryAfter(s.watchers, []) == s.watchers;
    assert s0.order + s0.pending + [] == s0.order + s0.pending;
    forall id | id in s0.pending ensures MovedAt(script, 0, s0.watchers, s.notes, s.moved, id) {}
  }

  /** One callback more. */
  lemma GoOn(script: seq<seq<Action>>, n: nat, s0: State, s1: State, acts: seq<Action>, s: State)
    requires Sane(s0) && Sane(s1) && s1.pending == [] && s1.ready != [] && Going(script, n, s0, s1)
    requires acts == (if n < |script| then script[n] else []) && Turned(s1, acts, s)
    ensures Going(script, n + 1, s0, s)
  {
    hide Moves, Fates, Turns, Ledger, Live, Chosen, PendingGood;
    MovesOn(script, n, s0, s1, acts, s);
    FatesOn(script, n, s0, s1, acts, s);
    assert s.delivered[..|s0.delivered|] == s1.delivered[..|s0.delivered|];
    assert s.delivered[|s0.delivered|..] == s1.delivered[|s0.delivered|..] + [s1.ready[0]];
  }

  lemma WavesOn(before: nat, script: seq<seq<Action>>, n: nat, first: seq<nat>)
    ensures first + Waves(before, script, n + 1) ==
            (first + Waves(before, script, n)) + Down(RaisedBy(before, script, n), RaisedBy(before, script, n + 1))
  {
    hide Down, RaisedBy;
  }

  lemma MovesOn(script: seq<seq<Action>>, n: nat, s0: State, s1: State, acts: seq<Action>, s: State)
    requires s1.ready != [] && Moves(script, n, s0, s1)
    requires acts == (if n < |script| then script[n] else []) && Turned(s1, acts, s)
    ensures Moves(script, n + 1, s0, s)
  {
    hide NotesOf, RegistryAfter, WentNow, MovedAt, RaisedBy, InStage, Widowed, Down;
    ActionsConcat(s0.watchers, Acts(script, n), acts);
    WavesOn(|s0.notes|, script, n, s0.order + s0.pending);
    assert Acts(script, n + 1) == Acts(script, n) + acts;
    NotesNow(s0.notes, script, n, s1.notes);
    NotesNow(s0.notes, script, n + 1, s.notes);
    hide Waves;
    forall id | id in s0.pending ensures MovedAt(script, 0, s0.watchers, s.notes, s.moved, id) {
      StillMoved(script, 0, s0.watchers, s1.notes, s1.moved, s.notes, s.moved, id);
    }
    forall j: nat, id: nat | InStage(|s0.notes|, script, j, n + 1, id)
      ensures MovedAt(script, j, s0.watchers, s.notes, s.moved, id)
    {
      LastStage(s0.notes, script, n, s1.notes, s.notes, j, id);
      if j <= n {
        StillMoved(script, j, s0.watchers, s1.notes, s1.moved, s.notes, s.moved, id);
      } else {
        JustMoved(script, n + 1, s0.watchers, s.notes, s.moved, id, s.watchers);
      }
    }
  }

  /** What a run promises, read off where it stands when nothing is left. */
  lemma Arrived(script: seq<seq<Action>>, n: nat, s0: State, s: State)
    requires Sane(s0) && s0.ready == [] && Sane(s) && s.pending == [] && s.ready == [] && Going(script, n, s0, s)
    ensures |s.delivered| == |s0.delivered| + n && s.delivered[..|s0.delivered|] == s0.delivered
    ensures s.notes == s0.notes + NotesOf(Acts(script, n)) && s.watchers == RegistryAfter(s0.watchers, Acts(script, n))
    ensures |s.raised| == |s0.delivered| + n
    ensures forall k: nat | k < n :: s.raised[|s0.delivered| + k] == RaisedBy(|s0.notes|, script, k)
    ensures forall id: nat | id < |s.notes| :: id in s.moved
    ensures forall id | id in s0.moved :: id in s.moved && s.moved[id] == s0.moved[id]
    ensures forall id | id in s0.pending :: MovedAt(script, 0, s0.watchers, s.notes, s.moved, id)
    ensures forall j: nat, id: nat | InStage(|s0.notes|, script, j, n, id) ::
              MovedAt(script, j, s0.watchers, s.notes, s.moved, id)
    ensures forall p: Placeholder ::
              multiset(s.delivered)[p] == if p.cbh in s.moved && p.mi in s.moved[p.cbh] then 1 else 0
    ensures Chosen(s.delivered, s.raised, s.moved) && CallsKnown(script, n, s0, s)
    ensures s.order == s0.order + s0.pending + Waves(|s0.notes|, script, n)
    ensures TrailGood(s.trail, s.order, s.moved) && InTurn(s.delivered, s.trail)
  {
    hide Fates, MovedAt, InStage, Chosen, Live, Ledger, CallsKnown, RaisedBy, NotesOf, RegistryAfter, TrailGood, InTurn;
    hide Waves;
    assert s.delivered + [] == s.delivered;
    ChosenSizes(s0.delivered, s0.raised, s0.moved);
    NothingReady(s.delivered, s.moved);
    NoneWaits(s.moved, |s.notes|);
    CallFates(script, n, s0, s);
  }

  // ----- calls to watchers that were unregistered

  /** A notification was moved after j callbacks: it waited at the start, or the j-th one raised it. */
  ghost predicate Stage(before: nat, pending0: seq<nat>, script: seq<seq<Action>>, n: nat, id: nat, j: nat) {
    (j == 0 && id in pending0) || InStage(before, script, j, n, id)
  }

  ghost predicate Staged(before: nat, pending0: seq<nat>, script: seq<seq<Action>>, n: nat, id: nat) {
    exists j: nat :: Stage(before, pending0, script, n, id, j)
  }

  /** One of the callbacks j .. k-1 unregisters a watcher. */
  ghost predicate Ended(script: seq<seq<Action>>, j: nat, k: nat, w: Watcher) {
    exists i: nat | j <= i < k && i < |script| :: Ends(script[i], w)
  }

  /** A placeholder is without its watcher exactly when a callback between the move and its call unregistered that. */
  ghost predicate Fates(script: seq<seq<Action>>, n: nat, before: nat, pending0: seq<nat>, calls: seq<Placeholder>,
                        moved: map<nat, seq<Watcher>>, gone: set<Placeholder>)
  {
    forall p: Placeholder, j: nat | Owed(moved, p) && Stage(before, pending0, script, n, p.cbh, j) ::
      p in gone <==> Ended(script, j, FirstAt(calls, p), p.mi)
  }

  ghost predicate Owed(moved: map<nat, seq<Watcher>>, p: Placeholder) {
    p.cbh in moved && p.mi in moved[p.cbh]
  }

  /** Every call of a run is to a freed registration exactly when a callback after the move and before the call
      unregistered it. */
  ghost predicate CallsKnown(script: seq<seq<Action>>, n: nat, s0: State, s: State)
    requires |s0.delivered| <= |s.delivered|
  {
    var calls := s.delivered[|s0.delivered|..];
    |calls| == n &&
    (forall k: nat | k < n :: Staged(|s0.notes|, s0.pending, script, n, calls[k].cbh)) &&
    (forall k: nat, j: nat | k < n && Stage(|s0.notes|, s0.pending, script, n, calls[k].cbh, j) ::
       calls[k] in s.gone <==> Ended(script, j, k, calls[k].mi))
  }

  /** Before the run nothing that waits has a placeholder. */
  lemma FatesStart(script: seq<seq<Action>>, s0: State, moved: map<nat, seq<Watcher>>)
    requires Sane(s0)
    ensures Fates(script, 0, |s0.notes|, s0.pending, [], moved, s0.gone)
  {
    hide Turns, Ledger, Chosen;
  }

  /** What was delivered before the run was not waiting then. */
  lemma Earlier(s0: State)
    requires Sane(s0)
    ensures forall id | id in s0.pending :: id < |s0.notes|
    ensures forall q | q in s0.delivered :: q.cbh < |s0.notes| && q.cbh !in s0.pending
  {
    hide Ledger, Turns;
    forall q | q in s0.delivered ensures q.cbh < |s0.notes| && q.cbh !in s0.pending {
      LedgerSplits(s0.delivered, s0.ready, s0.moved, q);
    }
  }

  lemma FatesOn(script: seq<seq<Action>>, n: nat, s0: State, s1: State, acts: seq<Action>, s: State)
    requires Sane(s0) && Sane(s1) && s1.pending == [] && s1.ready != [] && Going(script, n, s0, s1)
    requires acts == (if n < |script| then script[n] else []) && Turned(s1, acts, s)
    ensures Fates(script, n + 1, |s0.notes|, s0.pending, s1.delivered[|s0.delivered|..] + [s1.ready[0]], s.moved,
            s.gone)
  {
    hide Fates, Ledger, Chosen, Widowed, WentNow, MovedAt, InStage, Stage, Turns, Down, Waves;
    Earlier(s0);
    NotesNow(s0.notes, script, n, s1.notes);
    hide RaisedBy;
    FatesMore(script, n, |s0.notes|, s0.pending, s1.delivered, |s0.delivered|, s1.ready, s1.moved, s1.gone, acts,
              s.moved, s.gone);
  }

  /** Every notification of a run was raised by some callback. */
  lemma {:induction false} HasStage(before: nat, script: seq<seq<Action>>, n: nat, id: nat)
    requires before <= id < RaisedBy(before, script, n)
    ensures exists j: nat :: InStage(before, script, j, n, id)
  {
    assert RaisedBy(before, script, 0) == before;
    hide RaisedBy;
    if n > 0 && id < RaisedBy(before, script, n - 1) {
      HasStage(before, script, n - 1, id);
      var j: nat :| InStage(before, script, j, n - 1, id);
      assert InStage(before, script, j, n, id);
    } else if n > 0 {
      assert InStage(before, script, n, n, id);
    }
  }

  /** What is called in a run was moved in it. */
  lemma CallStaged(script: seq<seq<Action>>, n: nat, s0: State, s: State, k: nat)
    requires Sane(s0) && s0.ready == [] && Sane(s) && Going(script, n, s0, s) && k < n
    ensures Staged(|s0.notes|, s0.pending, script, n, s.delivered[|s0.delivered| + k].cbh)
  {
    hide Fates, MovedAt, InStage, RaisedBy, Ledger, Live, Turns;
    var at := |s0.delivered| + k;
    var p := s.delivered[at];
    assert Best(s.delivered, at, s.raised[at], s.moved);
    NotesNow(s0.notes, script, n, s.notes);
    if p.cbh < |s0.notes| {
      LedgerSplits(s0.delivered, [], s0.moved, p);
      assert forall q | q in s.delivered[..|s0.delivered|] :: q in s.delivered[..at];
      assert Stage(|s0.notes|, s0.pending, script, n, p.cbh, 0);
    } else {
      HasStage(|s0.notes|, script, n, p.cbh);
      var j: nat :| InStage(|s0.notes|, script, j, n, p.cbh);
      assert Stage(|s0.notes|, s0.pending, script, n, p.cbh, j);
    }
  }

  /** The fate of every call. */
  lemma CallFates(script: seq<seq<Action>>, n: nat, s0: State, s: State)
    requires Sane(s0) && s0.ready == [] && Sane(s) && Going(script, n, s0, s)
    ensures CallsKnown(script, n, s0, s)
  {
    hide Stage, Ended, Moves, Ledger, PendingGood, Live, Turns, Staged;
    var done, base := s.delivered, |s0.delivered|;
    var calls := done[base..];
    forall k: nat | k < n ensures Staged(|s0.notes|, s0.pending, script, n, calls[k].cbh) {
      CallStaged(script, n, s0, s, k);
    }
    forall k: nat, j: nat | k < n && Stage(|s0.notes|, s0.pending, script, n, calls[k].cbh, j)
      ensures calls[k] in s.gone <==> Ended(script, j, k, calls[k].mi)
    {
      assert Best(done, base + k, s.raised[base + k], s.moved);
      assert calls[k] == done[base + k] && forall x | x in calls[..k] :: x in done[..base + k];
      FirstAtIs(calls, k);
    }
  }

  lemma {:induction false} RaisedGrows(before: nat, script: seq<seq<Action>>, j: nat, k: nat)
    requires j <= k
    ensures before <= RaisedBy(before, script, j) <= RaisedBy(before, script, k)
  {
    hide NotesOf, Acts;
    if j < k {
      RaisedGrows(before, script, j, k - 1);
      RaisedOne(before, script, k - 1);
    }
  }

  lemma RaisedOne(before: nat, script: seq<seq<Action>>, k: nat)
    ensures RaisedBy(before, script, k) <= RaisedBy(before, script, k + 1)
  {
    hide NotesOf, RegistryAfter;
    ActionsConcat(map[], Acts(script, k), if k < |script| then script[k] else []);
  }

  /** One callback and what it raised. */
  lemma FatesMore(script: seq<seq<Action>>, n: nat, before: nat, pending0: seq<nat>, done: seq<Placeholder>, base: nat,
                  ready: seq<Placeholder>, moved1: map<nat, seq<Watcher>>, gone1: set<Placeholder>, acts: seq<Action>,
                  moved: map<nat, seq<Watcher>>, gone: set<Placeholder>)
    requires base + n == |done| && Fates(script, n, before, pending0, done[base..], moved1, gone1)
    requires ready != [] && Ledger(done, ready, moved1) && acts == (if n < |script| then script[n] else [])
    requires gone == gone1 + Widowed(ready[1..], acts) && forall p | p in gone1 :: p.cbh in moved1
    requires forall id: nat :: id in moved1 <==> id < RaisedBy(before, script, n)
    requires forall id | id in moved1 :: id in moved && moved[id] == moved1[id]
    requires forall id | id in pending0 :: id < before
    requires forall q | q in done[..base] :: q.cbh < before && q.cbh !in pending0
    ensures Fates(script, n + 1, before, pending0, done[base..] + [ready[0]], moved, gone)
  {
    hide Fates, Ledger, Stage, Ended, Widowed, RaisedBy;
    var calls, x := done[base..], ready[0];
    forall p: Placeholder, j: nat | Owed(moved, p) && Stage(before, pending0, script, n + 1, p.cbh, j)
      ensures p in gone <==> Ended(script, j, FirstAt(calls + [x], p), p.mi)
    {
      FirstAtMore(calls, x, p);
      if p.cbh < RaisedBy(before, script, n) {
        StageBefore(before, pending0, script, n, p.cbh, j);
        FateOf(script, n, before, pending0, done, base, ready, moved1, gone1, acts, p, j);
      } else {
        LedgerNew(done, ready, moved1, p);
        LastOnly(before, pending0, script, n, p.cbh, j);
        NotWidowed(ready, acts, p);
        assert !Ended(script, n + 1, n + 1, p.mi) by { NoCallback(script, n + 1, p.mi); }
      }
    }
    FatesAll(script, n + 1, before, pending0, calls + [x], moved, gone);
  }

  /** One placeholder that was owed before. */
  lemma FateOf(script: seq<seq<Action>>, n: nat, before: nat, pending0: seq<nat>, done: seq<Placeholder>, base: nat,
               ready: seq<Placeholder>, moved1: map<nat, seq<Watcher>>, gone1: set<Placeholder>, acts: seq<Action>,
               p: Placeholder, j: nat)
    requires base + n == |done| && Fates(script, n, before, pending0, done[base..], moved1, gone1)
    requires ready != [] && Ledger(done, ready, moved1) && acts == (if n < |script| then script[n] else [])
    requires Owed(moved1, p) && Stage(before, pending0, script, n, p.cbh, j) && j <= n
    requires forall q | q in done[..base] :: q.cbh < before && q.cbh !in pending0
    ensures p in gone1 + Widowed(ready[1..], acts) <==>
            Ended(script, j, FirstAt(done[base..] + [ready[0]], p), p.mi)
  {
    hide Ledger;
    var calls, x := done[base..], ready[0];
    assert p in gone1 <==> Ended(script, j, FirstAt(calls, p), p.mi);
    FirstAtMore(calls, x, p);
    LedgerSplits(done, ready, moved1, p);
    assert done == done[..base] + calls;
    RaisedGrows(before, script, if j == 0 then 0 else j - 1, n);
    assert p !in done[..base];
    if p !in calls {
      if p == x { OnceReady(done, ready, moved1, p); }
      EndedMore(script, j, n, p.mi);
      assert ready == [x] + ready[1..];
    }
  }

  lemma StageBefore(before: nat, pending0: seq<nat>, script: seq<seq<Action>>, n: nat, id: nat, j: nat)
    requires Stage(before, pending0, script, n + 1, id, j) && id < RaisedBy(before, script, n)
    ensures Stage(before, pending0, script, n, id, j) && j <= n
  {
    hide RaisedBy;
  }

  lemma LastOnly(before: nat, pending0: seq<nat>, script: seq<seq<Action>>, n: nat, id: nat, j: nat)
    requires Stage(before, pending0, script, n + 1, id, j) && id >= RaisedBy(before, script, n)
    requires forall i | i in pending0 :: i < before
    ensures j == n + 1
  {
    hide RaisedBy;
    RaisedGrows(before, script, 0, n);
    if j <= n { RaisedGrows(before, script, j, n); }
  }

  lemma LedgerNew(done: seq<Placeholder>, ready: seq<Placeholder>, moved: map<nat, seq<Watcher>>, p: Placeholder)
    requires Ledger(done, ready, moved) && p.cbh !in moved
    ensures p !in done && p !in ready
  {
    hide Ledger;
    LedgerSplits(done, ready, moved, p);
  }

  lemma NotWidowed(ready: seq<Placeholder>, acts: seq<Action>, p: Placeholder)
    requires ready != [] && p !in ready
    ensures p !in Widowed(ready[1..], acts)
  {
  }

  lemma NoCallback(script: seq<seq<Action>>, k: nat, w: Watcher)
    ensures !Ended(script, k, k, w)
  {
  }

  lemma EndedMore(script: seq<seq<Action>>, j: nat, n: nat, w: Watcher)
    requires j <= n
    ensures Ended(script, j, n + 1, w) <==> Ended(script, j, n, w) || Ends(if n < |script| then script[n] else [], w)
  {
    if Ended(script, j, n, w) {
      var i: nat :| j <= i < n && i < |script| && Ends(script[i], w);
      assert j <= i < n + 1;
    }
  }

  /** What is owed is ready at one place. */
  lemma OnceReady(done: seq<Placeholder>, ready: seq<Placeholder>, moved: map<nat, seq<Watcher>>, p: Placeholder)
    requires Ledger(done, ready, moved) && ready != [] && p == ready[0]
    ensures p !in ready[1..]
  {
    assert ready == [p] + ready[1..];
    assert (multiset(done) + multiset(ready))[p] <= 1;
    assert multiset(ready) == multiset{p} + multiset(ready[1..]);
  }

  lemma FatesAll(script: seq<seq<Action>>, n: nat, before: nat, pending0: seq<nat>, calls: seq<Placeholder>,
                 moved: map<nat, seq<Watcher>>, gone: set<Placeholder>)
    requires forall p: Placeholder, j: nat | Owed(moved, p) && Stage(before, pending0, script, n, p.cbh, j) ::
               p in gone <==> Ended(script, j, FirstAt(calls, p), p.mi)
    ensures Fates(script, n, before, pending0, calls, moved, gone)
  {
    hide Stage, Ended;
  }

  lemma LastStage(notes0: seq<Note>, script: seq<seq<Action>>, n: nat, notes1: seq<Note>, notes: seq<Note>, j: nat,
                  id: nat)
    requires notes1 == notes0 + NotesOf(Acts(script, n)) && notes == notes0 + NotesOf(Acts(script, n + 1))
    requires InStage(|notes0|, script, j, n + 1, id)
    ensures if j <= n then InStage(|notes0|, script, j, n, id) else j == n + 1 && |notes1| <= id < |notes|
  {
    NotesNow(notes0, script, n, notes1);
    NotesNow(notes0, script, n + 1, notes);
  }

  lemma NotesNow(notes0: seq<Note>, script: seq<seq<Action>>, n: nat, notes: seq<Note>)
    requires notes == notes0 + NotesOf(Acts(script, n))
    ensures RaisedBy(|notes0|, script, n) == |notes|
  {
  }

  lemma StillMoved(script: seq<seq<Action>>, j: nat, m: map<Oid, seq<Watcher>>, notes1: seq<Note>,
                   moved1: map<nat, seq<Watcher>>, notes: seq<Note>, moved: map<nat, seq<Watcher>>, id: nat)
    requires MovedAt(script, j, m, notes1, moved1, id) && |notes1| <= |notes| && notes[..|notes1|] == notes1
    requires forall i | i in moved1 :: i in moved && moved[i] == moved1[i]
    ensures MovedAt(script, j, m, notes, moved, id)
  {
    assert notes[id] == notes[..|notes1|][id];
  }

  lemma JustMoved(script: seq<seq<Action>>, j: nat, m: map<Oid, seq<Watcher>>, notes: seq<Note>,
                  moved: map<nat, seq<Watcher>>, id: nat, watchers: map<Oid, seq<Watcher>>)
    requires watchers == RegistryAfter(m, Acts(script, j)) && WentNow(notes, watchers, moved, id)
    ensures MovedAt(script, j, m, notes, moved, id)
  {
  }

  /** Two watchers of one object; the callback of the first unregisters the second, which is called all the same. */
  method UnregisteredCalled() returns (m: Monitor)
    ensures fresh(m) && m.Valid() && exists p :: p in m.delivered && p in m.gone
  {
    hide GoodWatchers, RefsMatch, Descending, Known, PendingGood, Ledger, Live, Going, Registered, HasTwin, CallsKnown;
    hide Turns, TrailGood, InTurn, Waves;
    hide Chosen, RaisedBy, InStage, Wanting, NotesOf, Acts, RegistryAfter, Wants;
    var a, b := Watcher([], 2, 1, 0, 0), Watcher([], 1, 1, 0, 0);
    m := new Monitor();
    var _ := m.InsertWatcher(a);
    var _ := m.InsertWatcher(b);
    m.NotifyMonitor(Note([], 1));
    ghost var s0 := m.Now();
    var script := [[Unregister(Key([], 1, 0, 0))]];
    ghost var n := m.Process(script);
    TwoWatchers(a, b);
    FirstMoved(script, s0, m.Now(), [a, b]);
    StaleCall(script, n, s0, m.Now(), a, b);
  }

  lemma OneRegistered(a: Watcher)
    ensures Registered(map[], a) == map[a.subject := [a]]
  {
    assert Put([], 0, a) == [a];
  }

  lemma TwoRegistered(a: Watcher, b: Watcher)
    requires a.subject == b.subject && b.priority < a.priority
    ensures Registered(map[a.subject := [a]], b) == map[a.subject := [a, b]]
  {
    PlaceIs([a], b, 1);
    assert Put([a], 1, b) == [a, b];
  }

  lemma BothWant(a: Watcher, b: Watcher, event: bv32)
    requires Wants(a, event) && Wants(b, event)
    ensures Wanting([a, b], event) == [a, b]
  {
    assert [a, b][..1] == [a] && [a][..0] == [];
    assert Wanting([a], event) == [a];
  }

  lemma TwoWatchers(a: Watcher, b: Watcher)
    requires a == Watcher([], 2, 1, 0, 0) && b == Watcher([], 1, 1, 0, 0)
    ensures Wanting(ListOf(Registered(Registered(map[], a), b), []), 1) == [a, b]
  {
    assert Wants(a, 1) && Wants(b, 1);
    hide Registered, Wanting, Wants;
    OneRegistered(a);
    TwoRegistered(a, b);
    BothWant(a, b, 1);
  }

  /** What waited at the start went to those registered then. */
  lemma FirstMoved(script: seq<seq<Action>>, s0: State, s: State, ws: seq<Watcher>)
    requires s0.notes == [Note([], 1)] && s0.notes <= s.notes && Wanting(ListOf(s0.watchers, []), 1) == ws
    requires MovedAt(script, 0, s0.watchers, s.notes, s.moved, 0)
    ensures 0 in s.moved && s.moved[0] == ws
  {
    hide Wanting;
    assert s.notes[0] == s0.notes[0];
    assert Acts(script, 0) == [] && RegistryAfter(s0.watchers, []) == s0.watchers;
  }

  lemma StaleCall(script: seq<seq<Action>>, n: nat, s0: State, s: State, a: Watcher, b: Watcher)
    requires script == [[Unregister(Key([], 1, 0, 0))]] && s0.delivered == [] && s0.pending == [0] && |s0.notes| == 1
    requires a == Watcher([], 2, 1, 0, 0) && b == Watcher([], 1, 1, 0, 0)
    requires |s.delivered| == n && CallsKnown(script, n, s0, s) && Chosen(s.delivered, s.raised, s.moved)
    requires 0 in s.moved && s.moved[0] == [a, b]
    requires forall k: nat | k < n :: s.raised[0 + k] == RaisedBy(1, script, k)
    requires forall p: Placeholder ::
               multiset(s.delivered)[p] == if p.cbh in s.moved && p.mi in s.moved[p.cbh] then 1 else 0
    ensures exists p :: p in s.delivered && p in s.gone
  {
    var p, q := Placeholder(b, 0), Placeholder(a, 0);
    assert multiset(s.delivered)[p] == 1;
    assert p in multiset(s.delivered);
    var k: nat :| k < n && s.delivered[k] == p;
    assert Best(s.delivered, 0, s.raised[0 + 0], s.moved);
    assert Due(s.moved, s.raised[0], q);
    assert k > 0;
    assert s.delivered[0..] == s.delivered;
    assert Stage(|s0.notes|, s0.pending, script, n, p.cbh, 0);
    assert Ends(script[0], b) by { assert script[0][0] in script[0]; }
    assert Ended(script, 0, k, b);
  }

  lemma ChosenSizes(done: seq<Placeholder>, raised: seq<nat>, moved: map<nat, seq<Watcher>>)
    requires Chosen(done, raised, moved)
    ensures |done| == |raised|
  {
  }

  lemma NoneBeyond(pending: seq<nat>, moved: map<nat, seq<Watcher>>, n: nat)
    requires PendingGood(pending, moved, n)
    ensures forall id: nat | id >= n :: id !in moved
  {
  }

  lemma StillWaits(pending: seq<nat>, moved: map<nat, seq<Watcher>>, n: nat)
    requires PendingGood(pending, moved, n)
    ensures forall id: nat | id < n && id !in moved :: id in pending
  {
  }

  lemma DownNone(a: nat, p: seq<nat>)
    ensures Down(a, a) + p == p
  {
  }

  lemma DownMore(a: nat, b: nat, p: seq<nat>, act: Action)
    requires a <= b
    ensures (if act.Notify? then [b] else []) + (Down(a, b) + p) == Down(a, b + |Raises(act)|) + p
  {
    assert Down(a, b + 1) == [b] + Down(a, b);
  }

  lemma NothingRaised(acts: seq<Action>, n: nat)
    ensures acts == [] ==> NotesOf(acts) == [] && Down(n, n) == []
  {
  }

  lemma NoActions(m: map<Oid, seq<Watcher>>, acts: seq<Action>)
    ensures NotesOf(acts[..0]) == [] && RegistryAfter(m, acts[..0]) == m
  {
  }

  lemma NoneWidowed(r: seq<Placeholder>, acts: seq<Action>)
    ensures Widowed(r, acts[..0]) == {}
  {
  }

  /** One action more leaves no placeholder without a watcher but those it unregisters. */
  lemma WidowedMore(r: seq<Placeholder>, acts: seq<Action>, k: nat)
    requires k < |acts|
    ensures Widowed(r, acts[..k + 1]) == Widowed(r, acts[..k]) + Widowed(r, [acts[k]])
    ensures !acts[k].Unregister? ==> Widowed(r, [acts[k]]) == {}
  {
    assert acts[..k + 1] == acts[..k] + [acts[k]];
    forall w ensures Ends(acts[..k + 1], w) <==> Ends(acts[..k], w) || Ends([acts[k]], w) {
      EndsConcat(acts[..k], [acts[k]], w);
    }
  }

  lemma EndsConcat(a: seq<Action>, b: seq<Action>, w: Watcher)
    ensures Ends(a + b, w) <==> Ends(a, w) || Ends(b, w)
  {
    if Ends(a, w) {
      var x :| x in a && x.Unregister? && Names(x.key, w);
      assert x in a + b;
    }
    if Ends(b, w) {
      var x :| x in b && x.Unregister? && Names(x.key, w);
      assert x in a + b;
    }
  }

  lemma ListSubjects(m: map<Oid, seq<Watcher>>, o: Oid)
    requires GoodWatchers(m)
    ensures forall w | w in ListOf(m, o) :: w.subject == o
  {
    if o in m { assert GoodList(o, m[o]); }
  }

  lemma UnregisteredAt(m: map<Oid, seq<Watcher>>, key: Key, ws: seq<Watcher>, i: nat)
    requires ws == ListOf(m, key.subject) && i == NamedAt(ws, key)
    ensures Unregistered(m, key) ==
            if i == |ws| then m else if |ws| == 1 then m - {key.subject} else m[key.subject := Cut(ws, i)]
  {
  }

  lemma TailGood(r: seq<Placeholder>, n: nat)
    requires r != [] && Descending(r) && Known(r, n)
    ensures Descending(r[1..]) && Known(r[1..], n) && Known([r[0]], n)
  {
  }

  lemma FirstHighest(r: seq<Placeholder>)
    requires Descending(r) && r != []
    ensures forall p | p in r :: p.mi.priority <= r[0].mi.priority
  {
  }

  lemma NothingReady(done: seq<Placeholder>, moved: map<nat, seq<Watcher>>)
    requires Ledger(done, [], moved)
    ensures forall p: Placeholder :: multiset(done)[p] == if p.cbh in moved && p.mi in moved[p.cbh] then 1 else 0
  {
    forall p: Placeholder ensures multiset(done)[p] == if p.cbh in moved && p.mi in moved[p.cbh] then 1 else 0 {
      assert (multiset(done) + multiset([]))[p] == multiset(done)[p];
    }
  }

  lemma NoneWaits(moved: map<nat, seq<Watcher>>, n: nat)
    requires PendingGood([], moved, n)
    ensures forall id: nat | id < n :: id in moved
  {
  }

  lemma NoRefs(refs: seq<int>)
    requires RefsMatch(refs, [], [])
    ensures forall id | 0 <= id < |refs| :: refs[id] == 0
  {
  }

  lemma PendingRest(pending: seq<nat>, moved: map<nat, seq<Watcher>>, n: nat)
    requires PendingGood(pending, moved, n) && pending != []
    ensures pending[0] !in pending[1..] && pending[0] !in moved && pending[0] < n
  {
  }

  lemma PendingMoved(pending: seq<nat>, moved: map<nat, seq<Watcher>>, n: nat, ws: seq<Watcher>)
    requires PendingGood(pending, moved, n) && pending != []
    ensures PendingGood(pending[1..], moved[pending[0] := ws], n)
  {
    assert pending == [pending[0]] + pending[1..];
  }

  lemma PendingMore(pending: seq<nat>, moved: map<nat, seq<Watcher>>, n: nat)
    requires PendingGood(pending, moved, n)
    ensures PendingGood([n] + pending, moved, n + 1)
  {
    var p := [n] + pending;
    assert p[0] == n;
    forall id: nat | id < n + 1 && id !in moved ensures id in p {
      if id < n { assert id in pending; }
    }
  }

  lemma NotTrailed(trail: seq<Placeholder>, order: seq<nat>, moved: map<nat, seq<Watcher>>, id: nat)
    requires TrailGood(trail, order, moved) && id !in moved
    ensures forall p | p in trail :: p.cbh != id
  {
    forall p | p in trail ensures p.cbh != id { TrailIds(order, moved, p); }
  }

  lemma NotMarked(ws: seq<Watcher>, k: nat, event: bv32, id: nat)
    requires k < |ws| && NoTwins(ws)
    ensures Placeholder(ws[k], id) !in Marks(Wanting(ws[..k], event), id)
    ensures Marks(Wanting(ws[..k + 1], event), id) == Marks(Wanting(ws[..k], event), id) +
            if Wants(ws[k], event) then [Placeholder(ws[k], id)] else []
  {
    assert ws[..k + 1][..k] == ws[..k];
    WantingExact(ws[..k], event, ws[k]);
  }

  lemma MarksNone(id: nat)
    ensures Marks([], id) == []
  {
  }

  lemma ReadyGrew(done: seq<Placeholder>, r: seq<Placeholder>, trail: seq<Placeholder>, now: seq<Placeholder>,
                  m: seq<Placeholder>)
    requires Tracked(done, r, trail) && Tracked(done, now, trail + m)
    ensures multiset(now) == multiset(r) + multiset(m)
  {
    hide InTurn;
    var d := multiset(done);
    assert d + multiset(now) == d + (multiset(r) + multiset(m));
    forall p ensures multiset(now)[p] == (multiset(r) + multiset(m))[p] {
      assert (d + multiset(now))[p] == (d + (multiset(r) + multiset(m)))[p];
    }
  }

  lemma NowListed(m: map<Oid, seq<Watcher>>, o: Oid, ws: seq<Watcher>)
    ensures ListOf(m[o := ws], o) == ws
  {
  }

  lemma ListNoTwins(m: map<Oid, seq<Watcher>>, o: Oid)
    requires GoodWatchers(m)
    ensures NoTwins(if o in m then m[o] else [])
  {
  }

  lemma ListRanked(m: map<Oid, seq<Watcher>>, o: Oid)
    requires GoodWatchers(m)
    ensures Ranked(ListOf(m, o)) && (o in m ==> GoodList(o, m[o]))
  {
  }

  lemma StaysGood(m: map<Oid, seq<Watcher>>, w: Watcher, ws: seq<Watcher>, i: nat)
    requires GoodWatchers(m) && ws == ListOf(m, w.subject) && i <= |ws| && !HasTwin(ws, w)
    requires forall k | 0 <= k < i :: ws[k].priority >= w.priority
    requires forall k | i <= k < |ws| :: ws[k].priority < w.priority
    ensures GoodWatchers(m[w.subject := Put(ws, i, w)])
  {
    hide Ranked, NoTwins, HasTwin, Put;
    if w.subject in m {
      PutWatcher(w.subject, ws, i, w);
    } else {
      OneWatcher(w);
    }
  }

  lemma OneWatcher(w: Watcher)
    ensures GoodList(w.subject, Put([], 0, w))
  {
    assert Put([], 0, w) == [w];
  }
}
