/** The trap handler registry of snmptrapd_handlers.c. */
module TrapHandlers {
  import opened Sequences
  import opened OidOrder

  /** A handler; authtypes is the set of bit numbers in the C mask, tree and strict are its two flags. */
  datatype Handler = Handler(name: Oid, tree: bool, strict: bool, authtypes: set<nat>, code: nat)

  /** NETSNMPTRAPD_AUTH_HANDLER, PRE, POST and DEFAULT; any other number is refused. */
  datatype Stage = Auth | Pre | Post | Default | Other

  /** When the first handler of a chain takes a trap: exactly its identifier, or anything below, itself excluded if
      strict. */
  ghost predicate Matches(h: Handler, trap: Oid) {
    if !h.tree then h.name == trap else Prefix(h.name, trap) && (h.strict ==> h.name != trap)
  }

  /** Which traps a handler takes: the one named, unless it wants strictly those below it, and those below it, if it
      is for a whole tree. */
  lemma MatchesWhen(h: Handler, rest: Oid)
    ensures Matches(h, h.name + rest) <==> if rest == [] then !(h.tree && h.strict) else h.tree
    ensures forall trap :: Matches(h, trap) ==> h.name <= trap
  {
    assert (h.name + rest)[..|h.name|] == h.name && h.name + [] == h.name;
  }

  /** Some chain takes the trap. */
  ghost predicate Matched(cs: seq<seq<Handler>>, trap: Oid) {
    exists k | 0 <= k < |cs| :: cs[k] != [] && Matches(cs[k][0], trap)
  }

  /** Chains share one identifier each; chain heads strictly descend. */
  ghost predicate GoodChains(cs: seq<seq<Handler>>) {
    (forall i | 0 <= i < |cs| :: GoodChain(cs[i])) &&
    (forall i, j | 0 <= i < j < |cs| && cs[i] != [] && cs[j] != [] :: Less(cs[j][0].name, cs[i][0].name))
  }

  ghost predicate GoodChain(c: seq<Handler>) {
    c != [] && forall k | 0 <= k < |c| :: c[k].name == c[0].name
  }

  /** Handlers registered for exactly this identifier, in order. */
  ghost predicate ChainFor(cs: seq<seq<Handler>>, name: Oid, c: seq<Handler>) {
    if c == [] then forall i | 0 <= i < |cs| :: cs[i] != [] ==> cs[i][0].name != name
    else c in cs && c[0].name == name
  }

  lemma ChainUnique(cs: seq<seq<Handler>>, name: Oid, a: seq<Handler>, b: seq<Handler>)
    requires GoodChains(cs) && ChainFor(cs, name, a) && ChainFor(cs, name, b)
    ensures a == b
  {
    if a != [] && b != [] {
      var i :| 0 <= i < |cs| && cs[i] == a;
      var j :| 0 <= j < |cs| && cs[j] == b;
      LessTotal(a[0].name, b[0].name);
    }
  }

  /** A prefix match can be no longer than any match that comes before it in the registry. */
  lemma FirstIsLongest(cs: seq<seq<Handler>>, trap: Oid, i: nat, k: nat)
    requires GoodChains(cs) && i < |cs| && k < |cs| && cs[i] != [] && cs[k] != []
    requires Matches(cs[i][0], trap) && Matches(cs[k][0], trap) && i <= k
    ensures |cs[k][0].name| <= |cs[i][0].name|
    ensures i < k ==> |cs[k][0].name| < |cs[i][0].name|
  {
    var a, b := cs[k][0].name, cs[i][0].name;
    assert trap[..|trap|] == trap;
    LongerPrefix(a, b, trap);
  }

  /** What the registry answers for a trap: nothing for an empty identifier, the default list when no chain takes it,
      and otherwise the chain that takes it under the longest identifier. */
  ghost predicate Answers(cs: seq<seq<Handler>>, default: seq<Handler>, trap: Oid, list: seq<Handler>) {
    if trap == [] then list == []
    else if !Matched(cs, trap) then list == default
    else
      list in cs && list != [] && Matches(list[0], trap) &&
      forall c: seq<Handler> | c in cs && c != [] && Matches(c[0], trap) :: |c[0].name| <= |list[0].name|
  }

  /** There is one answer only. */
  lemma AnswerUnique(cs: seq<seq<Handler>>, default: seq<Handler>, trap: Oid, a: seq<Handler>, b: seq<Handler>)
    requires GoodChains(cs) && Answers(cs, default, trap, a) && Answers(cs, default, trap, b)
    ensures a == b
  {
    hide Less;
    if trap != [] && Matched(cs, trap) {
      var i :| 0 <= i < |cs| && cs[i] == a;
      var k :| 0 <= k < |cs| && cs[k] == b;
      if i < k { FirstIsLongest(cs, trap, i, k); } else { FirstIsLongest(cs, trap, k, i); }
    }
  }

  class Handlers {
    var auth: seq<Handler>
    var pre: seq<Handler>
    var post: seq<Handler>
    var default: seq<Handler>
    var specific: seq<seq<Handler>>

    constructor ()
      ensures Valid() && auth == [] && pre == [] && post == [] && default == [] && specific == []
    {
      auth, pre, post, default, specific := [], [], [], [], [];
    }

    ghost predicate Valid()
      reads this`specific
    {
      GoodChains(specific)
    }

    /** netsnmp_add_global_traphandler: in front of its list. */
    method AddGlobal(stage: Stage, h: Handler) returns (ok: bool)
      requires Valid()
      modifies this
      ensures Valid() && specific == old(specific) && (ok <==> stage != Other)
      ensures auth == (if stage == Auth then [h] else []) + old(auth)
              && pre == (if stage == Pre then [h] else []) + old(pre)
      ensures post == (if stage == Post then [h] else []) + old(post)
      ensures default == (if stage == Default then [h] else []) + old(default)
    {
      match stage {
        case Auth => auth := [h] + auth;
        case Pre => pre := [h] + pre;
        case Post => post := [h] + post;
        case Default => default := [h] + default;
        case Other => return false;
      }
      return true;
    }

    /** The first chain not above an identifier. */
    method FindPlace(name: Oid) returns (i: nat)
      requires Valid()
      ensures i <= |specific| && (forall k | 0 <= k < i :: Less(name, specific[k][0].name))
      ensures i < |specific| ==> !Less(name, specific[i][0].name)
    {
      i := 0;
      while i < |specific|
        invariant i <= |specific| && forall k | 0 <= k < i :: Less(name, specific[k][0].name)
      {
        var c := Compare(specific[i][0].name, name);
        if c <= 0 {
          LessTotal(specific[i][0].name, name);
          break;
        }
        i := i + 1;
      }
    }

    /** netsnmp_add_traphandler: at the end of the chain for its identifier, or as a new chain in descending order. */
    method Add(h: Handler)
      requires Valid()
      modifies this`specific
      ensures Valid()
      ensures exists c :: ChainFor(old(specific), h.name, c) && ChainFor(specific, h.name, c + [h])
      ensures forall n, c | n != h.name :: ChainFor(specific, n, c) <==> ChainFor(old(specific), n, c)
    {
      hide Less;
      var i := FindPlace(h.name);
      if i < |specific| && specific[i][0].name == h.name {
        AppendGood(specific, i, h);
        specific := specific[i := specific[i] + [h]];
      } else {
        NewGood(specific, i, h);
        specific := Put(specific, i, [h]);
      }
    }

    /** netsnmp_get_traphandler: no list for an empty identifier; otherwise the chain of the longest identifier that
        matches, or the default list when none does. */
    method Get(trap: Oid) returns (list: seq<Handler>)
      requires Valid()
      ensures Answers(specific, default, trap, list)
    {
      hide Less;
      if trap == [] { return []; }
      var i := 0;
      while i < |specific|
        invariant 0 <= i <= |specific| && forall k | 0 <= k < i :: !Matches(specific[k][0], trap)
      {
        var h := specific[i][0];
        var hit := false;
        if !h.tree {
          var c := Compare(h.name, trap);
          hit := c == 0;
        } else {
          var c := CompareSubtree(h.name, trap);
          if c == 0 {
            if h.strict {
              var d := Compare(h.name, trap);
              hit := d != 0;
            } else {
              hit := true;
            }
          }
        }
        if hit {
          forall c: seq<Handler> | c in specific && c != [] && Matches(c[0], trap) ensures |c[0].name| <= |h.name| {
            var k :| 0 <= k < |specific| && specific[k] == c;
            FirstIsLongest(specific, trap, i, k);
          }
          return specific[i];
        }
        i := i + 1;
      }
      return default;
    }
  }

  lemma AppendGood(cs: seq<seq<Handler>>, i: nat, h: Handler)
    requires GoodChains(cs) && i < |cs| && cs[i][0].name == h.name
    ensures var ds := cs[i := cs[i] + [h]];
            GoodChains(ds) && ChainFor(cs, h.name, cs[i]) && ChainFor(ds, h.name, cs[i] + [h]) &&
            forall n, c | n != h.name :: ChainFor(ds, n, c) <==> ChainFor(cs, n, c)
  {
    hide Less;
    var ds := cs[i := cs[i] + [h]];
    assert ds[i] == cs[i] + [h] && ds[i] in ds;
    forall n, c | n != h.name ensures ChainFor(ds, n, c) <==> ChainFor(cs, n, c) {
      SameChains(cs, ds, i, h.name, n, c);
    }
  }

  /** Chains under other names are the same when only the chains at i differ, both under one name. */
  lemma SameChains(cs: seq<seq<Handler>>, ds: seq<seq<Handler>>, i: nat, name: Oid, n: Oid, c: seq<Handler>)
    requires i < |cs| == |ds| && n != name && cs[i] != [] && ds[i] != [] && cs[i][0].name == name == ds[i][0].name
    requires forall k | 0 <= k < |cs| && k != i :: cs[k] == ds[k]
    ensures ChainFor(ds, n, c) <==> ChainFor(cs, n, c)
  {
    if c != [] {
      if c in cs && c[0].name == n {
        var k :| 0 <= k < |cs| && cs[k] == c;
        assert ds[k] == c;
      }
      if c in ds && c[0].name == n {
        var k :| 0 <= k < |ds| && ds[k] == c;
        assert cs[k] == c;
      }
    }
  }

  lemma NewGood(cs: seq<seq<Handler>>, i: nat, h: Handler)
    requires GoodChains(cs) && i <= |cs| && (forall k | 0 <= k < i :: Less(h.name, cs[k][0].name))
    requires i < |cs| ==> !Less(h.name, cs[i][0].name) && cs[i][0].name != h.name
    ensures var ds := Put(cs, i, [h]);
            GoodChains(ds) && ChainFor(cs, h.name, []) && ChainFor(ds, h.name, [] + [h]) &&
            forall n, c | n != h.name :: ChainFor(ds, n, c) <==> ChainFor(cs, n, c)
  {
    hide Less;
    var ds := Put(cs, i, [h]);
    forall k | i <= k < |cs| ensures Less(cs[k][0].name, h.name) {
      LessTotal(cs[i][0].name, h.name);
      if i < k { LessTrans(cs[k][0].name, cs[i][0].name, h.name); }
    }
    forall k | 0 <= k < |cs| ensures cs[k][0].name != h.name { LessTotal(cs[k][0].name, h.name); }
    NewDescends(cs, i, h, ds);
    assert [] + [h] == ds[i];
    forall n, c | n != h.name ensures ChainFor(ds, n, c) <==> ChainFor(cs, n, c) { NewElsewhere(cs, i, h, ds, n, c); }
  }

  lemma NewDescends(cs: seq<seq<Handler>>, i: nat, h: Handler, ds: seq<seq<Handler>>)
    requires GoodChains(cs) && i <= |cs| && ds == Put(cs, i, [h])
    requires (forall k | 0 <= k < i :: Less(h.name, cs[k][0].name))
             && (forall k | i <= k < |cs| :: Less(cs[k][0].name, h.name))
    ensures GoodChains(ds)
  {
    hide Less;
    forall k | 0 <= k < |ds| ensures ds[k] == if k < i then cs[k] else if k == i then [h] else cs[k - 1] {}
  }

  lemma NewElsewhere(cs: seq<seq<Handler>>, i: nat, h: Handler, ds: seq<seq<Handler>>, n: Oid, c: seq<Handler>)
    requires i <= |cs| && ds == Put(cs, i, [h]) && n != h.name
    ensures ChainFor(ds, n, c) <==> ChainFor(cs, n, c)
  {
    assert cs == cs[..i] + cs[i..];
    forall k | 0 <= k < |ds| ensures ds[k] == if k < i then cs[k] else if k == i then [h] else cs[k - 1] {}
    forall k | 0 <= k < |cs| ensures cs[k] == ds[if k < i then k else k + 1] {}
  }
}
