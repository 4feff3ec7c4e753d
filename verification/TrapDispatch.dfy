/** Dispatch of incoming traps with the cached authorization mask (snmptrapd_auth.c and the loop of snmp_input). */
module TrapDispatch {
  import opened OidOrder
  import opened TrapHandlers

  const VACM_MAX_VIEWS: nat := 8

  /** The handler whose code is netsnmp_trapd_auth. */
  const AUTH: nat := 0

  /** What a handler returns. */
  datatype Ret = Ok | Fail | Break | Finish

  /** A notification as the dispatcher sees it: its trap identifier, whether authorization can look at it at all, and
      the answer of the access control for each view. */
  datatype Pdu = Pdu(trap: Oid, legal: bool, converted: bool, identified: bool, grants: nat -> bool)

  /** Whether authorization is turned off, whether access control is configured, and what the other handlers return. */
  datatype Env = Env(disabled: bool, configured: bool, does: (Handler, Pdu) -> Ret)

  /** The views this notification is granted. */
  ghost function Granted(p: Pdu): set<nat> {
    set i: nat | i < VACM_MAX_VIEWS && p.grants(i)
  }

  /** Eight views are looked at, and with them those for logging, executing and forwarding: 3, 4 and 5. */
  lemma GrantedViews(p: Pdu, i: nat)
    ensures i in Granted(p) <==> i < 8 && p.grants(i)
    ensures i in {3, 4, 5} ==> (i in Granted(p) <==> p.grants(i))
  {
  }

  /** netsnmp_trapd_auth grants the notification something. */
  ghost predicate Passes(p: Pdu, env: Env) {
    p.legal && p.converted && env.configured && p.identified && Granted(p) != {}
  }

  // ----- what runs

  /** The handlers that ran, whether one of them ended everything, and the mask they left. */
  datatype Run = Run(ran: seq<Handler>, done: bool, mask: set<nat>)

  ghost predicate Allowed(h: Handler, env: Env, mask: set<nat>) {
    env.disabled || h.authtypes <= mask
  }

  ghost function Result(h: Handler, p: Pdu, env: Env): Ret {
    if h.code != AUTH then env.does(h, p) else if env.disabled || Passes(p, env) then Ok else Finish
  }

  ghost function MaskAfter(h: Handler, p: Pdu, env: Env, mask: set<nat>): set<nat> {
    if h.code == AUTH && !env.disabled && Passes(p, env) then Granted(p) else mask
  }

  ghost function Then(first: seq<Handler>, r: Run): Run {
    r.(ran := first + r.ran)
  }

  /** One list: handlers not allowed are skipped, a break ends the list, a finish everything. */
  ghost function ListRun(list: seq<Handler>, p: Pdu, env: Env, mask: set<nat>): Run {
    if list == [] then Run([], false, mask)
    else if !Allowed(list[0], env, mask) then ListRun(list[1..], p, env, mask)
    else
      var m := MaskAfter(list[0], p, env, mask);
      match Result(list[0], p, env)
      case Finish => Run([list[0]], true, m)
      case Break => Run([list[0]], false, m)
      case _ => Then([list[0]], ListRun(list[1..], p, env, m))
  }

  /** All lists, one after the other. */
  ghost function ListsRun(lists: seq<seq<Handler>>, p: Pdu, env: Env, mask: set<nat>): Run {
    if lists == [] then Run([], false, mask)
    else
      var r := ListRun(lists[0], p, env, mask);
      if r.done then r else Then(r.ran, ListsRun(lists[1..], p, env, r.mask))
  }

  // ----- what the mask guards

  /** Once the mask is what the notification is granted it stays so, and nothing runs that it does not cover. */
  lemma {:induction false} ListRunCovered(list: seq<Handler>, p: Pdu, env: Env)
    requires !env.disabled
    ensures var r := ListRun(list, p, env, Granted(p));
            r.mask == Granted(p) && forall h | h in r.ran :: h in list && h.authtypes <= Granted(p)
  {
    hide Granted;
    if list != [] { ListRunCovered(list[1..], p, env); }
  }

  lemma {:induction false} ListsRunCovered(lists: seq<seq<Handler>>, p: Pdu, env: Env)
    requires !env.disabled
    ensures var r := ListsRun(lists, p, env, Granted(p));
            r.mask == Granted(p) && forall h | h in r.ran :: h.authtypes <= Granted(p)
  {
    hide Granted, ListRun;
    if lists != [] {
      ListRunCovered(lists[0], p, env);
      ListsRunCovered(lists[1..], p, env);
    }
  }

  /** No handler of the list changes the mask: it is what the notification is granted, for one. */
  ghost predicate Steady(list: seq<Handler>, p: Pdu, env: Env, mask: set<nat>) {
    forall h | h in list :: MaskAfter(h, p, env, mask) == mask
  }

  lemma GrantedSteady(list: seq<Handler>, p: Pdu, env: Env)
    ensures Steady(list, p, env, Granted(p))
  {
  }

  /** The allowed handlers of a list, in order. */
  ghost function Kept(list: seq<Handler>, env: Env, mask: set<nat>): seq<Handler> {
    if list == [] then []
    else (if Allowed(list[0], env, mask) then [list[0]] else []) + Kept(list[1..], env, mask)
  }

  ghost predicate GoesOn(h: Handler, p: Pdu, env: Env) {
    Result(h, p, env) in {Ok, Fail}
  }

  /** n is the place of the first allowed handler that does not let the list go on, or its end. */
  ghost predicate StopsAt(list: seq<Handler>, n: nat, p: Pdu, env: Env, mask: set<nat>) {
    n <= |list| && (n < |list| ==> Allowed(list[n], env, mask) && !GoesOn(list[n], p, env)) &&
    forall k | 0 <= k < n && Allowed(list[k], env, mask) :: GoesOn(list[k], p, env)
  }

  /** Exactly the handlers run that are allowed and have none in front of them that ended the list, each once and in
      order; everything is over if and only if the last of them says so. */
  lemma {:induction false} ListRunExact(list: seq<Handler>, p: Pdu, env: Env, mask: set<nat>) returns (n: nat)
    requires Steady(list, p, env, mask)
    ensures StopsAt(list, n, p, env, mask)
    ensures var r := ListRun(list, p, env, mask);
            r.mask == mask && (r.done <==> n < |list| && Result(list[n], p, env) == Finish) &&
            r.ran == Kept(list[..n], env, mask) + if n < |list| then [list[n]] else []
  {
    hide Result, MaskAfter, Allowed;
    if list == [] {
      n := 0;
    } else if Allowed(list[0], env, mask) && !GoesOn(list[0], p, env) {
      n := 0;
    } else {
      var rest := list[1..];
      var m := ListRunExact(rest, p, env, mask);
      n := m + 1;
      RunsOn(list, p, env, mask);
      hide GoesOn, Kept, StopsAt, ListRun;
      StopsLater(list, m, p, env, mask);
      KeptMore(list, m, env, mask);
    }
  }

  lemma RunsOn(list: seq<Handler>, p: Pdu, env: Env, mask: set<nat>)
    requires list != [] && Steady(list, p, env, mask)
    requires Allowed(list[0], env, mask) ==> GoesOn(list[0], p, env)
    ensures var r := ListRun(list[1..], p, env, mask);
            ListRun(list, p, env, mask) == if Allowed(list[0], env, mask) then Then([list[0]], r) else r
  {
    hide Result, MaskAfter, Allowed;
  }

  lemma StopsLater(list: seq<Handler>, m: nat, p: Pdu, env: Env, mask: set<nat>)
    requires list != [] && StopsAt(list[1..], m, p, env, mask)
    requires Allowed(list[0], env, mask) ==> GoesOn(list[0], p, env)
    ensures StopsAt(list, m + 1, p, env, mask)
  {
    hide Allowed, GoesOn;
    forall k | 0 <= k < m + 1 && Allowed(list[k], env, mask) ensures GoesOn(list[k], p, env) {
      assert k > 0 ==> list[k] == list[1..][k - 1];
    }
  }

  lemma KeptMore(list: seq<Handler>, m: nat, env: Env, mask: set<nat>)
    requires m < |list|
    ensures Kept(list[..m + 1], env, mask) ==
            (if Allowed(list[0], env, mask) then [list[0]] else []) + Kept(list[1..][..m], env, mask)
  {
    assert list[..m + 1][1..] == list[1..][..m];
  }

  /** A break ends its own list only, a finish all of them: the lists of b run behind those of a, under the mask these
      left, unless one of a's handlers ended everything. */
  lemma {:induction false} ListsRunJoin(a: seq<seq<Handler>>, b: seq<seq<Handler>>, p: Pdu, env: Env, mask: set<nat>)
    ensures var r := ListsRun(a, p, env, mask);
            ListsRun(a + b, p, env, mask) == if r.done then r else Then(r.ran, ListsRun(b, p, env, r.mask))
    ensures forall list :: ListsRun([list], p, env, mask) == ListRun(list, p, env, mask)
  {
    hide ListRun;
    forall list ensures ListsRun([list], p, env, mask) == ListRun(list, p, env, mask) {
      var r := ListRun(list, p, env, mask);
      assert r.ran + [] == r.ran;
    }
    if a == [] {
      var r := ListsRun(b, p, env, mask);
      assert a + b == b && [] + r.ran == r.ran;
    } else {
      var r := ListRun(a[0], p, env, mask);
      assert (a + b)[1..] == a[1..] + b;
      ListsRunJoin(a[1..], b, p, env, r.mask);
      var s := ListsRun(a[1..], p, env, r.mask);
      var t := ListsRun(b, p, env, s.mask);
      assert r.ran + (s.ran + t.ran) == (r.ran + s.ran) + t.ran;
    }
  }

  /** When no handler stops early, every allowed handler of a list without netsnmp_trapd_auth runs. */
  lemma {:induction false} ListRunAll(list: seq<Handler>, p: Pdu, env: Env, mask: set<nat>)
    requires forall h | h in list :: h.code != AUTH && env.does(h, p) != Finish && env.does(h, p) != Break
    ensures var r := ListRun(list, p, env, mask);
            !r.done && r.mask == mask && forall h | h in list :: h in r.ran <==> Allowed(h, env, mask)
  {
    if list != [] {
      ListRunAll(list[1..], p, env, mask);
      var r := ListRun(list[1..], p, env, mask);
      forall h | h in r.ran ensures Allowed(h, env, mask) { RanAllowed(list[1..], p, env, mask, h); }
    }
  }

  lemma {:induction false} RanAllowed(list: seq<Handler>, p: Pdu, env: Env, mask: set<nat>, h: Handler)
    requires forall x | x in list :: x.code != AUTH
    requires h in ListRun(list, p, env, mask).ran
    ensures h in list && Allowed(h, env, mask)
  {
    if list != [] && h in ListRun(list[1..], p, env, mask).ran {
      RanAllowed(list[1..], p, env, mask, h);
    }
  }

  /** The whole dispatch under the first-stage handler alone: it runs, and the rest runs under what is granted or
      not at all. */
  lemma GuardedRun(a: Handler, lists: seq<seq<Handler>>, p: Pdu, env: Env, mask: set<nat>)
    requires !env.disabled && a.code == AUTH && a.authtypes == {}
    ensures var r := ListsRun([[a]] + lists, p, env, mask);
            if Passes(p, env) then r == Then([a], ListsRun(lists, p, env, Granted(p))) else r == Run([a], true, mask)
    ensures forall h | h in ListsRun([[a]] + lists, p, env, mask).ran :: h.authtypes <= Granted(p)
  {
    hide Granted;
    assert ([[a]] + lists)[1..] == lists && [a][1..] == [];
    assert ListRun([], p, env, Granted(p)) == Run([], false, Granted(p));
    ListsRunCovered(lists, p, env);
  }

  // ----- the daemon

  class Daemon {
    const handlers: Handlers
    const env: Env
    var lastlookup: set<nat>
    /** Every handler run, with the notification it ran on. */
    ghost var log: seq<(Pdu, Handler)>

    constructor (h: Handlers, e: Env)
      ensures handlers == h && env == e && lastlookup == {} && log == []
    {
      handlers, env, lastlookup, log := h, e, {}, [];
    }

    /** netsnmp_trapd_auth: the mask gets bit i exactly when view i is granted. */
    method TrapdAuth(p: Pdu) returns (r: Ret)
      modifies this`lastlookup
      ensures env.disabled ==> r == Ok && lastlookup == old(lastlookup)
      ensures !env.disabled ==>
                r == if p.legal && p.converted && env.configured && p.identified && exists i: nat | i < 8 :: p.grants(i)
                     then Ok else Finish
      ensures !env.disabled && r == Ok ==> forall i :: i in lastlookup <==> i < 8 && p.grants(i)
      ensures r == Finish ==> lastlookup == old(lastlookup)
      ensures r == Ok <==> env.disabled || Passes(p, env)
    {
      if env.disabled { return Ok; }
      if !p.legal { return Finish; }
      if !p.converted { return Finish; }
      if !env.configured { return Finish; }
      if !p.identified { return Finish; }
      var mask: set<nat>, i := {}, 0;
      while i < VACM_MAX_VIEWS
        invariant 0 <= i <= VACM_MAX_VIEWS && mask == set k: nat | k < i && p.grants(k)
        invariant lastlookup == old(lastlookup)
      {
        if p.grants(i) { mask := mask + {i}; }
        i := i + 1;
      }
      assert mask == Granted(p);
      assert forall k: nat | k < VACM_MAX_VIEWS && p.grants(k) :: k in mask;
      if mask != {} {
        lastlookup := mask;
        return Ok;
      }
      return Finish;
    }

    /** netsnmp_trapd_check_auth. */
    method CheckAuth(authtypes: set<nat>) returns (ok: bool)
      ensures ok <==> env.disabled || authtypes <= lastlookup
    {
      if env.disabled { return true; }
      return authtypes * lastlookup == authtypes;
    }

    /** One handler is called. */
    method Call(h: Handler, p: Pdu) returns (r: Ret)
      modifies this`lastlookup, this`log
      ensures r == Result(h, p, env) && lastlookup == MaskAfter(h, p, env, old(lastlookup))
              && log == old(log) + [(p, h)]
    {
      log := log + [(p, h)];
      if h.code == AUTH {
        r := TrapdAuth(p);
      } else {
        r := env.does(h, p);
      }
    }

    /** One list of handlers. */
    method RunList(list: seq<Handler>, p: Pdu) returns (done: bool, ghost ran: seq<Handler>)
      modifies this`lastlookup, this`log
      ensures Run(ran, done, lastlookup) == ListRun(list, p, env, old(lastlookup))
      ensures log == old(log) + Tagged(p, ran)
    {
      hide Result, MaskAfter, Tagged;
      ran, done := [], false;
      var i := 0;
      ListStart(list, p, env, lastlookup);
      while i < |list|
        invariant 0 <= i <= |list| && log == old(log) + Tagged(p, ran)
        invariant ListRun(list, p, env, old(lastlookup)) == Then(ran, ListRun(list[i..], p, env, lastlookup))
      {
        var h := list[i];
        ListStep(list, i, p, env, lastlookup, ran);
        var ok := CheckAuth(h.authtypes);
        if ok {
          var r := Call(h, p);
          TaggedMore(p, ran, h);
          ran := ran + [h];
          if r == Finish { return true, ran; }
          if r == Break { return false, ran; }
        }
        i := i + 1;
      }
      ListEnd(list, p, env, lastlookup, ran);
    }

    /** The stages of snmp_input for one notification: authentication, before, specific to the trap, after. The specific
        list is looked up here before the stages begin; the lookup depends on nothing they change. */
    method Dispatch(p: Pdu) returns (ghost specific: seq<Handler>, ghost ran: seq<Handler>)
      requires handlers.Valid()
      modifies this`lastlookup, this`log
      ensures var r := ListsRun([handlers.auth, handlers.pre, specific, handlers.post], p, env, old(lastlookup));
              ran == r.ran && lastlookup == r.mask
      ensures log == old(log) + Tagged(p, ran)
      ensures Answers(handlers.specific, handlers.default, p.trap, specific)
    {
      hide GoodChains, Answers, ListRun, ListsRun;
      var list := handlers.Get(p.trap);
      specific := list;
      ran := RunLists([handlers.auth, handlers.pre, list, handlers.post], p);
    }

    /** Lists one after the other, until a handler ends everything. */
    method RunLists(lists: seq<seq<Handler>>, p: Pdu) returns (ghost ran: seq<Handler>)
      modifies this`lastlookup, this`log
      ensures var r := ListsRun(lists, p, env, old(lastlookup)); ran == r.ran && lastlookup == r.mask
      ensures log == old(log) + Tagged(p, ran)
    {
      hide ListRun, ListsRun, Tagged;
      var idx := 0;
      ran := [];
      ListsStart(lists, p, env, lastlookup);
      while idx < |lists|
        invariant 0 <= idx <= |lists| && log == old(log) + Tagged(p, ran)
        invariant ListsRun(lists, p, env, old(lastlookup)) == Then(ran, ListsRun(lists[idx..], p, env, lastlookup))
      {
        var done; ghost var now;
        ListsStep(lists, idx, p, env, lastlookup, ran);
        done, now := RunList(lists[idx], p);
        TaggedJoin(p, ran, now);
        ran := ran + now;
        if done { return; }
        idx := idx + 1;
      }
      ListsEnd(lists, p, env, lastlookup, ran);
    }

    /** Authorization is on and netsnmp_trapd_auth is the only handler of the first stage. */
    ghost predicate Guarded()
      reads handlers
    {
      !env.disabled && handlers.Valid() && |handlers.auth| == 1 && handlers.auth[0].code == AUTH &&
      handlers.auth[0].authtypes == {}
    }

    /** Any sequence of notifications. What runs on each of them depends on that notification, the registered handlers
        and nothing else: no mask that an earlier one left behind has any influence. Every handler that runs has all it
        asks for granted for the very notification it runs on. */
    method DispatchAll(pdus: seq<Pdu>) returns (ghost chains: seq<seq<Handler>>)
      requires Guarded()
      modifies this`lastlookup, this`log
      ensures Guarded() && |chains| == |pdus|
      ensures forall i | 0 <= i < |pdus| ::
                Answers(handlers.specific, handlers.default, pdus[i].trap, chains[i])
      ensures log == old(log) + Logged(handlers.auth[0], handlers.pre, handlers.post, pdus, chains, env)
      ensures forall k | |old(log)| <= k < |log| :: log[k].1.authtypes <= Granted(log[k].0)
      ensures lastlookup == MaskLeft(pdus, env, old(lastlookup))
    {
      hide Granted, ListsRun, Passes, Answers, Logged, MaskLeft, Tagged;
      ghost var a, pre, post := handlers.auth[0], handlers.pre, handlers.post;
      var i := 0;
      chains := [];
      LoggedNone(a, pre, post, pdus, env, lastlookup);
      while i < |pdus|
        invariant 0 <= i <= |pdus| && Guarded() && |chains| == i
        invariant forall k | 0 <= k < i :: Answers(handlers.specific, handlers.default, pdus[k].trap, chains[k])
        invariant log == old(log) + Logged(a, pre, post, pdus[..i], chains, env)
        invariant lastlookup == MaskLeft(pdus[..i], env, old(lastlookup))
      {
        ghost var mask := lastlookup;
        ghost var chain, ran := Dispatch(pdus[i]);
        OneRun(a, pre, chain, post, pdus[i], env, mask);
        assert handlers.auth == [a];
        LoggedMore(a, pre, post, pdus, chains, chain, env, i, old(lastlookup));
        assert (old(log) + Logged(a, pre, post, pdus[..i], chains, env)) + Tagged(pdus[i], ran)
            == old(log) + (Logged(a, pre, post, pdus[..i], chains, env) + Tagged(pdus[i], ran));
        chains := chains + [chain];
        i := i + 1;
      }
      assert pdus[..i] == pdus;
      LoggedGranted(a, pre, post, pdus, chains, env);
    }
  }

  // ----- a run over many notifications

  /** What runs on one notification behind the authorization handler a. */
  ghost function RanOn(a: Handler, pre: seq<Handler>, chain: seq<Handler>, post: seq<Handler>, p: Pdu, env: Env)
    : seq<Handler>
  {
    [a] + if Passes(p, env) then ListsRun([pre, chain, post], p, env, Granted(p)).ran else []
  }

  /** What a run logs, notification by notification. */
  ghost function Logged(a: Handler, pre: seq<Handler>, post: seq<Handler>, pdus: seq<Pdu>, chains: seq<seq<Handler>>,
                        env: Env): seq<(Pdu, Handler)>
    requires |chains| == |pdus|
  {
    if pdus == [] then []
    else
      var n := |pdus| - 1;
      Logged(a, pre, post, pdus[..n], chains[..n], env) + Tagged(pdus[n], RanOn(a, pre, chains[n], post, pdus[n], env))
  }

  /** The mask after a run: what the last authorized notification was granted. */
  ghost function MaskLeft(pdus: seq<Pdu>, env: Env, mask: set<nat>): set<nat> {
    if pdus == [] then mask
    else
      var n := |pdus| - 1;
      if Passes(pdus[n], env) then Granted(pdus[n]) else MaskLeft(pdus[..n], env, mask)
  }

  lemma LoggedNone(a: Handler, pre: seq<Handler>, post: seq<Handler>, pdus: seq<Pdu>, env: Env, mask: set<nat>)
    ensures Logged(a, pre, post, pdus[..0], [], env) == [] && MaskLeft(pdus[..0], env, mask) == mask
  {
  }

  lemma LoggedMore(a: Handler, pre: seq<Handler>, post: seq<Handler>, pdus: seq<Pdu>, chains: seq<seq<Handler>>,
                   chain: seq<Handler>, env: Env, i: nat, mask: set<nat>)
    requires i < |pdus| && |chains| == i
    ensures Logged(a, pre, post, pdus[..i + 1], chains + [chain], env) ==
            Logged(a, pre, post, pdus[..i], chains, env) + Tagged(pdus[i], RanOn(a, pre, chain, post, pdus[i], env))
    ensures MaskLeft(pdus[..i + 1], env, mask) ==
            if Passes(pdus[i], env) then Granted(pdus[i]) else MaskLeft(pdus[..i], env, mask)
  {
    hide RanOn, Tagged;
    assert pdus[..i + 1][..i] == pdus[..i] && (chains + [chain])[..i] == chains;
  }

  /** The four stages of one notification, whatever the mask was. */
  lemma OneRun(a: Handler, pre: seq<Handler>, chain: seq<Handler>, post: seq<Handler>, p: Pdu, env: Env, mask: set<nat>)
    requires !env.disabled && a.code == AUTH && a.authtypes == {}
    ensures var r := ListsRun([[a], pre, chain, post], p, env, mask);
            r.ran == RanOn(a, pre, chain, post, p, env) && r.mask == if Passes(p, env) then Granted(p) else mask
  {
    hide Granted, Passes, ListsRun;
    assert [[a]] + [pre, chain, post] == [[a], pre, chain, post] && [a] + [] == [a];
    GuardedRun(a, [pre, chain, post], p, env, mask);
    ListsRunCovered([pre, chain, post], p, env);
  }

  lemma {:induction false} LoggedGranted(a: Handler, pre: seq<Handler>, post: seq<Handler>, pdus: seq<Pdu>,
                                         chains: seq<seq<Handler>>, env: Env)
    requires |chains| == |pdus| && !env.disabled && a.authtypes == {}
    ensures forall x | x in Logged(a, pre, post, pdus, chains, env) :: x.1.authtypes <= Granted(x.0)
    decreases |pdus|
  {
    hide Granted, Passes, ListsRun;
    if pdus != [] {
      var n := |pdus| - 1;
      LoggedGranted(a, pre, post, pdus[..n], chains[..n], env);
      ListsRunCovered([pre, chains[n], post], pdus[n], env);
    }
  }

  // ----- the loops, step by step

  lemma ListStart(list: seq<Handler>, p: Pdu, env: Env, mask: set<nat>)
    ensures Then([], ListRun(list[0..], p, env, mask)) == ListRun(list, p, env, mask) && Tagged(p, []) == []
  {
    var r := ListRun(list, p, env, mask);
    assert list[0..] == list && [] + r.ran == r.ran;
  }

  lemma ListStep(list: seq<Handler>, i: nat, p: Pdu, env: Env, mask: set<nat>, ran: seq<Handler>)
    requires i < |list|
    ensures Then(ran, ListRun(list[i..], p, env, mask)) ==
            if !Allowed(list[i], env, mask) then Then(ran, ListRun(list[i + 1..], p, env, mask))
            else
              var m, now := MaskAfter(list[i], p, env, mask), ran + [list[i]];
              match Result(list[i], p, env)
              case Finish => Run(now, true, m)
              case Break => Run(now, false, m)
              case _ => Then(now, ListRun(list[i + 1..], p, env, m))
  {
    hide Result, MaskAfter, Allowed;
    assert list[i..][0] == list[i] && list[i..][1..] == list[i + 1..];
    var later := ListRun(list[i + 1..], p, env, MaskAfter(list[i], p, env, mask));
    assert ran + ([list[i]] + later.ran) == (ran + [list[i]]) + later.ran;
  }

  lemma ListEnd(list: seq<Handler>, p: Pdu, env: Env, mask: set<nat>, ran: seq<Handler>)
    ensures Then(ran, ListRun(list[|list|..], p, env, mask)) == Run(ran, false, mask)
  {
    assert ran + [] == ran;
  }

  lemma ListsStart(lists: seq<seq<Handler>>, p: Pdu, env: Env, mask: set<nat>)
    ensures Then([], ListsRun(lists[0..], p, env, mask)) == ListsRun(lists, p, env, mask) && Tagged(p, []) == []
  {
    var r := ListsRun(lists, p, env, mask);
    assert lists[0..] == lists && [] + r.ran == r.ran;
  }

  lemma ListsStep(lists: seq<seq<Handler>>, idx: nat, p: Pdu, env: Env, mask: set<nat>, ran: seq<Handler>)
    requires idx < |lists|
    ensures var r := ListRun(lists[idx], p, env, mask);
            Then(ran, ListsRun(lists[idx..], p, env, mask)) ==
            if r.done then Run(ran + r.ran, true, r.mask)
              else Then(ran + r.ran, ListsRun(lists[idx + 1..], p, env, r.mask))
  {
    hide ListRun;
    var r := ListRun(lists[idx], p, env, mask);
    assert lists[idx..][0] == lists[idx] && lists[idx..][1..] == lists[idx + 1..];
    var later := ListsRun(lists[idx + 1..], p, env, r.mask);
    assert ran + (r.ran + later.ran) == (ran + r.ran) + later.ran;
  }

  lemma ListsEnd(lists: seq<seq<Handler>>, p: Pdu, env: Env, mask: set<nat>, ran: seq<Handler>)
    ensures Then(ran, ListsRun(lists[|lists|..], p, env, mask)) == Run(ran, false, mask)
  {
    assert ran + [] == ran;
  }

  ghost function Tagged(p: Pdu, ran: seq<Handler>): (r: seq<(Pdu, Handler)>)
    ensures |r| == |ran| && forall k | 0 <= k < |ran| :: r[k] == (p, ran[k])
  {
    seq(|ran|, k requires 0 <= k < |ran| => (p, ran[k]))
  }

  lemma TaggedJoin(p: Pdu, a: seq<Handler>, b: seq<Handler>)
    ensures Tagged(p, a) + Tagged(p, b) == Tagged(p, a + b)
  {
  }

  lemma TaggedMore(p: Pdu, a: seq<Handler>, h: Handler)
    ensures Tagged(p, a) + [(p, h)] == Tagged(p, a + [h])
  {
  }
}
