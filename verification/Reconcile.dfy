/** Applying a configuration snapshot to the database: applySnapshotToDB of main.go and setRouteTargets
    of internal/database/database.go. Whether an address is an HTTP upstream and whether an expression
    compiles are inputs, and so is which statement of the transaction fails. */
module Reconcile {
  import opened Strings

  datatype RouteTarget = RouteTarget(url: string, healthCheck: string)

  datatype RouteData = RouteData(
    routeType: string,
    target: string,
    targets: seq<RouteTarget>,
    certificatePEM: string,
    privateKeyPEM: string)

  datatype RuleData = RuleData(name: string, expression: string, action: string, priority: int)

  datatype Snapshot = Snapshot(
    routes: map<string, RouteData>,
    routesConfigured: bool,
    rules: map<string, RuleData>,
    rulesConfigured: bool,
    // The statements its users, their domains and its zero-trust setting take, all on other tables.
    others: nat)

  /** The unique key of the table of routes. */
  datatype RouteKey = RouteKey(routeType: string, domain: string, pathPrefix: string)

  datatype RouteRow = RouteRow(id: int, targetURL: string, certificatePEM: string, privateKeyPEM: string, active: bool)

  datatype RuleRow = RuleRow(expression: string, action: string, priority: int)

  /** The tables routes, route_targets (by route, in sort order) and waf_rules, and the next row id. */
  datatype Tables = Tables(
    routes: map<RouteKey, RouteRow>,
    targets: map<int, seq<RouteTarget>>,
    rules: map<string, RuleRow>,
    nextId: int)

  datatype Oracle = Oracle(isUpstream: string -> bool, compiles: string -> bool)

  // ----- what a route of the snapshot asks for

  function AllTargets(r: RouteData): seq<RouteTarget> {
    if r.targets != [] then r.targets
    else if r.target != "" then [RouteTarget(r.target, "http")]
    else []
  }

  function CheckOf(t: RouteTarget): string {
    IfEmpty(ToLower(TrimSpace(t.healthCheck)), "http")
  }

  predicate HasURL(ts: seq<RouteTarget>, url: string) {
    exists i :: 0 <= i < |ts| && ts[i].url == url
  }

  /** normalizedRouteTargets before its last check: an error, or each address once. */
  function Normalize(o: Oracle, ts: seq<RouteTarget>): Option<seq<RouteTarget>> {
    if ts == [] then
      Some([])
    else
      var init, t := Normalize(o, ts[..|ts| - 1]), ts[|ts| - 1];
      var url := TrimSpace(t.url);
      if init.None? || url == "" then init
      else if !o.isUpstream(url) then None
      else if HasURL(init.value, url) then init
      else if CheckOf(t) != "http" && CheckOf(t) != "tcp" then None
      else Some(init.value + [RouteTarget(url, CheckOf(t))])
  }

  method NormalizedRouteTargets(o: Oracle, ts: seq<RouteTarget>) returns (r: Option<seq<RouteTarget>>)
    ensures r == if Normalize(o, ts) == Some([]) then None else Normalize(o, ts)
  {
    hide TrimSpace, CheckOf;
    var seen: set<string> := {};
    var normalized: seq<RouteTarget> := [];
    for i := 0 to |ts|
      invariant Normalize(o, ts[..i]) == Some(normalized)
      invariant forall u :: u in seen <==> HasURL(normalized, u)
    {
      assert ts[..i + 1][..i] == ts[..i];
      var url := TrimSpace(ts[i].url);
      if url == "" {
        continue;
      }
      if !o.isUpstream(url) {
        StaysNone(o, ts, i + 1);
        return None;
      }
      if url in seen {
        continue;
      }
      var check := CheckOf(ts[i]);
      if check != "http" && check != "tcp" {
        StaysNone(o, ts, i + 1);
        return None;
      }
      SeenNext(normalized, RouteTarget(url, check));
      seen := seen + {url};
      normalized := normalized + [RouteTarget(url, check)];
    }
    assert ts[..|ts|] == ts;
    r := if normalized == [] then None else Some(normalized);
  }

  lemma SeenNext(ts: seq<RouteTarget>, t: RouteTarget)
    ensures forall u :: HasURL(ts + [t], u) <==> HasURL(ts, u) || u == t.url
  {
    forall u | HasURL(ts, u)
      ensures HasURL(ts + [t], u)
    {
      var i :| 0 <= i < |ts| && ts[i].url == u;
      assert (ts + [t])[i].url == u;
    }
    assert (ts + [t])[|ts|].url == t.url;
  }

  lemma {:induction false} StaysNone(o: Oracle, ts: seq<RouteTarget>, i: nat)
    requires i <= |ts| && Normalize(o, ts[..i]).None?
    ensures Normalize(o, ts).None?
    decreases |ts| - i
  {
    hide TrimSpace, CheckOf, HasURL;
    if i == |ts| {
      assert ts[..i] == ts;
    } else {
      assert ts[..i + 1][..i] == ts[..i];
      StaysNone(o, ts, i + 1);
    }
  }

  /** The trimmed addresses that are not blank, each where it first occurs. */
  function FirstOccurrences(ts: seq<RouteTarget>): seq<string> {
    if ts == [] then
      []
    else
      var init, url := FirstOccurrences(ts[..|ts| - 1]), TrimSpace(ts[|ts| - 1].url);
      if url == "" || url in init then init else init + [url]
  }

  function URLs(ts: seq<RouteTarget>): (urls: seq<string>)
    ensures |urls| == |ts| && forall i :: 0 <= i < |ts| ==> urls[i] == ts[i].url
  {
    if ts == [] then [] else [ts[0].url] + URLs(ts[1..])
  }

  /** Normalising keeps the order, drops repetitions and blanks, and leaves only known checks. */
  lemma {:induction false} NormalizeMeaning(o: Oracle, ts: seq<RouteTarget>)
    requires Normalize(o, ts).Some?
    ensures var r := Normalize(o, ts).value;
            && URLs(r) == FirstOccurrences(ts)
            && (forall i :: 0 <= i < |r| ==> r[i].url != "" && o.isUpstream(r[i].url) && (r[i].healthCheck == "http" || r[i].healthCheck == "tcp"))
            && (forall i, j :: 0 <= i < j < |r| ==> r[i].url != r[j].url)
  {
    hide TrimSpace, CheckOf;
    if ts != [] {
      var init, t := ts[..|ts| - 1], ts[|ts| - 1];
      NormalizeMeaning(o, init);
      var before, r := Normalize(o, init).value, Normalize(o, ts).value;
      UrlIsListed(before, TrimSpace(t.url));
      if r != before {
        assert forall i :: 0 <= i < |before| ==> before[i].url != TrimSpace(t.url);
        assert URLs(r) == URLs(before) + [TrimSpace(t.url)];
      }
    }
  }

  lemma UrlIsListed(ts: seq<RouteTarget>, url: string)
    ensures HasURL(ts, url) <==> url in URLs(ts)
  {
    if url in URLs(ts) {
      var i :| 0 <= i < |ts| && URLs(ts)[i] == url;
      assert ts[i].url == url;
    }
    if HasURL(ts, url) {
      var i :| 0 <= i < |ts| && ts[i].url == url;
      assert URLs(ts)[i] == url;
    }
  }

  /** The i-th target is the first with its address. */
  predicate IsFirst(ts: seq<RouteTarget>, i: nat)
    requires i < |ts|
  {
    TrimSpace(ts[i].url) != "" && forall j :: 0 <= j < i ==> TrimSpace(ts[j].url) != TrimSpace(ts[i].url)
  }

  /** The check that is asked for, in lower case; `http` if none is. */
  predicate AsksFor(t: RouteTarget, check: string) {
    if TrimSpace(t.healthCheck) == "" then check == "http" else check == ToLower(TrimSpace(t.healthCheck))
  }

  lemma CheckMeaning(t: RouteTarget)
    ensures AsksFor(t, CheckOf(t))
  {
    hide TrimSpace;
    assert ToLower("") == "";
  }

  /** Each address comes with the check of the target that names it first. */
  ghost predicate FirstChecks(ts: seq<RouteTarget>, r: seq<RouteTarget>) {
    forall i :: 0 <= i < |r| ==> HasFirstCheck(ts, r[i])
  }

  ghost predicate HasFirstCheck(ts: seq<RouteTarget>, t: RouteTarget) {
    exists j :: 0 <= j < |ts| && FirstCheck(ts, j, t)
  }

  ghost predicate FirstCheck(ts: seq<RouteTarget>, j: nat, t: RouteTarget)
    requires j < |ts|
  {
    TrimSpace(ts[j].url) == t.url && IsFirst(ts, j) && AsksFor(ts[j], t.healthCheck)
  }

  /** Targets are refused exactly for an address that is no upstream, or for an unknown check where an
      address first occurs. */
  ghost predicate Acceptable(o: Oracle, ts: seq<RouteTarget>) {
    && (forall i :: 0 <= i < |ts| && TrimSpace(ts[i].url) != "" ==> o.isUpstream(TrimSpace(ts[i].url)))
    && (forall i :: 0 <= i < |ts| && IsFirst(ts, i) ==> AsksFor(ts[i], "http") || AsksFor(ts[i], "tcp"))
  }

  lemma FirstOnPrefix(ts: seq<RouteTarget>, i: nat)
    requires i < |ts| - 1
    ensures IsFirst(ts, i) <==> IsFirst(ts[..|ts| - 1], i)
  {
    hide TrimSpace;
    var init := ts[..|ts| - 1];
    assert forall j :: 0 <= j <= i ==> init[j] == ts[j];
  }

  lemma LastIsFirst(ts: seq<RouteTarget>)
    requires ts != []
    ensures IsFirst(ts, |ts| - 1) <==>
            TrimSpace(ts[|ts| - 1].url) != "" && TrimSpace(ts[|ts| - 1].url) !in FirstOccurrences(ts[..|ts| - 1])
  {
    hide TrimSpace;
    var init, url := ts[..|ts| - 1], TrimSpace(ts[|ts| - 1].url);
    OccurrencesMembers(init, url);
    assert forall j :: 0 <= j < |init| ==> init[j] == ts[j];
  }

  lemma {:induction false} OccurrencesMembers(ts: seq<RouteTarget>, url: string)
    ensures url in FirstOccurrences(ts) <==> url != "" && exists j :: 0 <= j < |ts| && TrimSpace(ts[j].url) == url
  {
    hide TrimSpace;
    if ts != [] {
      var init, last := ts[..|ts| - 1], |ts| - 1;
      OccurrencesMembers(init, url);
      assert forall j :: 0 <= j < last ==> init[j] == ts[j];
      if TrimSpace(ts[last].url) == url {
        assert 0 <= last < |ts| && TrimSpace(ts[last].url) == url;
      }
    }
  }

  lemma AcceptableNext(o: Oracle, ts: seq<RouteTarget>)
    requires ts != []
    ensures var last := |ts| - 1; var url := TrimSpace(ts[last].url);
            Acceptable(o, ts) <==>
            && Acceptable(o, ts[..last])
            && (url != "" ==> o.isUpstream(url))
            && (IsFirst(ts, last) ==> AsksFor(ts[last], "http") || AsksFor(ts[last], "tcp"))
  {
    hide TrimSpace, IsFirst, AsksFor;
    var last := |ts| - 1;
    var init := ts[..last];
    forall i | 0 <= i < last
      ensures init[i] == ts[i] && (IsFirst(ts, i) <==> IsFirst(init, i))
    {
      FirstOnPrefix(ts, i);
    }
  }

  lemma FirstChecksNext(ts: seq<RouteTarget>, r: seq<RouteTarget>)
    requires ts != [] && FirstChecks(ts[..|ts| - 1], r)
    ensures FirstChecks(ts, r)
  {
    hide TrimSpace, IsFirst, AsksFor;
    var init := ts[..|ts| - 1];
    forall i | 0 <= i < |r|
      ensures HasFirstCheck(ts, r[i])
    {
      assert HasFirstCheck(init, r[i]);
      var j :| 0 <= j < |init| && FirstCheck(init, j, r[i]);
      FirstOnPrefix(ts, j);
      assert init[j] == ts[j] && FirstCheck(ts, j, r[i]);
    }
  }

  lemma FirstChecksAppend(ts: seq<RouteTarget>, r: seq<RouteTarget>, t: RouteTarget, j: nat)
    requires FirstChecks(ts, r) && j < |ts| && FirstCheck(ts, j, t)
    ensures FirstChecks(ts, r + [t])
  {
    hide FirstCheck;
    assert HasFirstCheck(ts, t);
  }

  /** Which targets are accepted, and with which checks. */
  lemma {:induction false} NormalizeExactly(o: Oracle, ts: seq<RouteTarget>)
    ensures Normalize(o, ts).Some? <==> Acceptable(o, ts)
    ensures Normalize(o, ts).Some? ==> FirstChecks(ts, Normalize(o, ts).value)
  {
    hide TrimSpace, CheckOf, IsFirst, FirstChecks, FirstOccurrences, Acceptable;
    if ts == [] {
      NothingToNormalize(o);
    } else {
      var init, t := ts[..|ts| - 1], ts[|ts| - 1];
      NormalizeExactly(o, init);
      AcceptableNext(o, ts);
      LastIsFirst(ts);
      CheckMeaning(t);
      if Normalize(o, init).Some? {
        var before := Normalize(o, init).value;
        NormalizeMeaning(o, init);
        UrlIsListed(before, TrimSpace(t.url));
        FirstChecksNext(ts, before);
        if Normalize(o, ts).Some? && Normalize(o, ts).value != before {
          FirstChecksAppend(ts, before, RouteTarget(TrimSpace(t.url), CheckOf(t)), |ts| - 1);
        }
      }
    }
  }

  lemma NothingToNormalize(o: Oracle)
    ensures Normalize(o, []) == Some([]) && Acceptable(o, []) && FirstChecks([], [])
  {
  }

  /** The row a route asks for. */
  function KeyOf(name: string, r: RouteData): Option<RouteKey> {
    var key, kind := TrimSpace(name), IfEmpty(ToLower(TrimSpace(r.routeType)), "domain");
    if kind == "path" then
      if HasPrefix(key, "/") then Some(RouteKey(kind, "", key)) else None
    else if kind == "domain" || kind == "wildcard" || kind == "regex" then
      if key != "" then Some(RouteKey(kind, key, "")) else None
    else
      None
  }

  datatype Want = Want(key: RouteKey, targets: seq<RouteTarget>, certificatePEM: string, privateKeyPEM: string)

  function WantOf(o: Oracle, name: string, r: RouteData): (w: Option<Want>)
    ensures w.Some? ==> w.value.targets != [] && KeyOf(name, r) == Some(w.value.key)
  {
    var key, targets := KeyOf(name, r), Normalize(o, AllTargets(r));
    if key.None? || targets.None? || targets.value == [] then None
    else Some(Want(key.value, targets.value, r.certificatePEM, r.privateKeyPEM))
  }

  // ----- the tables

  /** Row ids are unique and used up, and targets belong to a route. */
  ghost predicate Sound(t: Tables) {
    && (forall a, b :: a in t.routes && b in t.routes && t.routes[a].id == t.routes[b].id ==> a == b)
    && (forall k :: k in t.routes ==> t.routes[k].id < t.nextId)
    && (forall id :: id in t.targets ==> exists k :: k in t.routes && t.routes[k].id == id)
  }

  /** The route is there, active, exactly as wanted. */
  ghost predicate Holds(t: Tables, w: Want) {
    && w.targets != [] && w.key in t.routes
    && t.routes[w.key] == RouteRow(t.routes[w.key].id, w.targets[0].url, w.certificatePEM, w.privateKeyPEM, true)
    && t.routes[w.key].id in t.targets
    && t.targets[t.routes[w.key].id] == w.targets
  }

  ghost predicate AllWanted(o: Oracle, s: Snapshot) {
    forall name :: name in s.routes ==> WantOf(o, name, s.routes[name]).Some?
  }

  /** Routes of the snapshot that ask for the same row ask for the same content. */
  ghost predicate Agreeing(o: Oracle, s: Snapshot) {
    forall a, b :: a in s.routes && b in s.routes && SameRow(o, s, a, b) ==> WantOf(o, a, s.routes[a]) == WantOf(o, b, s.routes[b])
  }

  ghost predicate SameRow(o: Oracle, s: Snapshot, a: string, b: string)
    requires a in s.routes && b in s.routes
  {
    var v, w := WantOf(o, a, s.routes[a]), WantOf(o, b, s.routes[b]);
    v.Some? && w.Some? && v.value.key == w.value.key
  }

  ghost predicate IsWantedKey(s: Snapshot, k: RouteKey) {
    exists name :: name in s.routes && KeyOf(name, s.routes[name]) == Some(k)
  }

  /** The outcome: exactly the routes of the snapshot, each as it asks for; a route that was there before
      keeps its id, and any other has one that was never used. */
  ghost predicate Reconciled(o: Oracle, before: Tables, s: Snapshot, after: Tables) {
    && Sound(after)
    && (forall k :: k in after.routes <==> IsWantedKey(s, k))
    && (forall name :: name in s.routes ==> WantOf(o, name, s.routes[name]).Some? && Holds(after, WantOf(o, name, s.routes[name]).value))
    && (forall k :: k in after.routes ==>
          if k in before.routes then after.routes[k].id == before.routes[k].id else after.routes[k].id >= before.nextId)
  }

  /** The route that a row of the outcome comes from. */
  lemma Origin(o: Oracle, before: Tables, s: Snapshot, after: Tables, k: RouteKey) returns (name: string)
    requires Reconciled(o, before, s, after) && k in after.routes
    ensures name in s.routes && WantOf(o, name, s.routes[name]).Some?
    ensures var w := WantOf(o, name, s.routes[name]).value; w.key == k && Holds(after, w)
  {
    hide KeyOf, Normalize;
    assert IsWantedKey(s, k);
    name :| name in s.routes && KeyOf(name, s.routes[name]) == Some(k);
  }

  lemma OutcomeHolds(o: Oracle, before: Tables, s: Snapshot, after: Tables, name: string)
    requires Reconciled(o, before, s, after) && name in s.routes
    ensures WantOf(o, name, s.routes[name]).Some? && Holds(after, WantOf(o, name, s.routes[name]).value)
    ensures Sound(after)
  {
    hide WantOf, KeyOf;
  }

  /** There is an outcome only if routes that ask for the same row agree on it. */
  lemma OutcomeNeedsAgreement(o: Oracle, before: Tables, s: Snapshot, after: Tables)
    requires Reconciled(o, before, s, after)
    ensures Agreeing(o, s)
  {
    hide WantOf, KeyOf, Reconciled;
    forall a, b | a in s.routes && b in s.routes && SameRow(o, s, a, b)
      ensures WantOf(o, a, s.routes[a]) == WantOf(o, b, s.routes[b])
    {
      OutcomeHolds(o, before, s, after, a);
      OutcomeHolds(o, before, s, after, b);
    }
  }

  ghost predicate SameButId(a: Tables, b: Tables, k: RouteKey) {
    && k in a.routes && k in b.routes
    && a.routes[k] == b.routes[k].(id := a.routes[k].id)
    && a.routes[k].id in a.targets && b.routes[k].id in b.targets
    && a.targets[a.routes[k].id] == b.targets[b.routes[k].id]
  }

  /** Two outcomes for one snapshot agree on a row up to its id. */
  lemma AgreeAt(o: Oracle, s: Snapshot, before1: Tables, a: Tables, before2: Tables, b: Tables, k: RouteKey)
    requires Reconciled(o, before1, s, a) && Reconciled(o, before2, s, b) && k in a.routes
    ensures SameButId(a, b, k)
  {
    hide WantOf, KeyOf, Reconciled;
    var name := Origin(o, before1, s, a, k);
    OutcomeHolds(o, before2, s, b, name);
  }

  lemma SurvivorsAgree(o: Oracle, before: Tables, s: Snapshot, a: Tables, b: Tables, k: RouteKey)
    requires Reconciled(o, before, s, a) && Reconciled(o, before, s, b) && k in a.routes
    ensures k in b.routes && SameButId(a, b, k) && (k in before.routes ==> a.routes[k] == b.routes[k])
  {
    hide WantOf, KeyOf, Holds, IsWantedKey, Sound;
    AgreeAt(o, s, before, a, before, b, k);
  }

  /** Two outcomes for the same tables and snapshot differ at most in the ids of rows that are new. */
  lemma OrderDoesNotMatter(o: Oracle, before: Tables, s: Snapshot, a: Tables, b: Tables)
    requires Reconciled(o, before, s, a) && Reconciled(o, before, s, b)
    ensures a.routes.Keys == b.routes.Keys
    ensures forall k :: k in a.routes ==> SameButId(a, b, k) && (k in before.routes ==> a.routes[k] == b.routes[k])
  {
    hide Reconciled, SameButId;
    forall k
      ensures k in a.routes ==> k in b.routes && SameButId(a, b, k) && (k in before.routes ==> a.routes[k] == b.routes[k])
      ensures k in b.routes ==> k in a.routes
    {
      if k in a.routes { SurvivorsAgree(o, before, s, a, b, k); }
      if k in b.routes { SurvivorsAgree(o, before, s, b, a, k); }
    }
  }

  /** Applying the snapshot again changes nothing at all. */
  lemma ApplyingTwiceIsApplyingOnce(o: Oracle, before: Tables, s: Snapshot, once: Tables, twice: Tables)
    requires Reconciled(o, before, s, once) && Reconciled(o, once, s, twice)
    ensures twice.routes == once.routes && twice.targets == once.targets
  {
    hide Reconciled, SameButId, Sound;
    forall k
      ensures k in once.routes <==> k in twice.routes
      ensures k in once.routes ==> SameButId(once, twice, k) && once.routes[k] == twice.routes[k]
    {
      TwiceAt(o, before, s, once, twice, k);
    }
    assert twice.routes == once.routes;
    ReconciledSound(o, before, s, once);
    ReconciledSound(o, once, s, twice);
    SameTargets(once, twice);
  }

  lemma ReconciledSound(o: Oracle, before: Tables, s: Snapshot, after: Tables)
    requires Reconciled(o, before, s, after)
    ensures Sound(after)
  {
  }

  lemma TwiceAt(o: Oracle, before: Tables, s: Snapshot, once: Tables, twice: Tables, k: RouteKey)
    requires Reconciled(o, before, s, once) && Reconciled(o, once, s, twice)
    ensures k in once.routes <==> k in twice.routes
    ensures k in once.routes ==> SameButId(once, twice, k) && once.routes[k] == twice.routes[k]
  {
    hide WantOf, KeyOf, Holds, IsWantedKey, Sound;
    if k in once.routes {
      AgreeAt(o, s, before, once, once, twice, k);
    }
  }

  lemma SameTargets(a: Tables, b: Tables)
    requires a.routes == b.routes && Sound(a) && Sound(b) && forall k :: k in a.routes ==> SameButId(a, b, k)
    ensures a.targets == b.targets
  {
    forall id
      ensures id in a.targets <==> id in b.targets
      ensures id in a.targets ==> a.targets[id] == b.targets[id]
    {
      if id in a.targets {
        var k :| k in a.routes && a.routes[k].id == id;
        assert SameButId(a, b, k);
      }
      if id in b.targets {
        var k :| k in b.routes && b.routes[k].id == id;
        assert SameButId(a, b, k);
      }
    }
  }

  // ----- the statements of the transaction

  /** UPDATE routes SET active = 0. */
  function Deactivate(t: Tables): Tables {
    t.(routes := map k | k in t.routes :: t.routes[k].(active := false))
  }

  /** The insert that becomes an update when the row is there. */
  function Upsert(t: Tables, w: Want): Tables
    requires w.targets != []
  {
    if w.key in t.routes then
      t.(routes := t.routes[w.key := RouteRow(t.routes[w.key].id, w.targets[0].url, w.certificatePEM, w.privateKeyPEM, true)])
    else
      t.(routes := t.routes[w.key := RouteRow(t.nextId, w.targets[0].url, w.certificatePEM, w.privateKeyPEM, true)], nextId := t.nextId + 1)
  }

  function PutTargets(t: Tables, id: int, targets: seq<RouteTarget>): Tables {
    t.(targets := t.targets[id := targets])
  }

  function PutRoute(t: Tables, w: Want): Tables
    requires w.targets != []
  {
    var u := Upsert(t, w);
    PutTargets(u, u.routes[w.key].id, w.targets)
  }

  /** The two deletes: the targets of inactive routes go, then the routes. */
  function SweepTargets(t: Tables): Tables {
    t.(targets := t.targets - set k | k in t.routes && !t.routes[k].active :: t.routes[k].id)
  }

  function SweepRoutes(t: Tables): Tables {
    t.(routes := map k | k in t.routes && t.routes[k].active :: t.routes[k])
  }

  function Sweep(t: Tables): Tables {
    SweepRoutes(SweepTargets(t))
  }

  // ----- what holds while the routes are applied one by one

  /** Rows that were there keep their ids, and new ones get unused ones. */
  ghost predicate KeepsIds(before: Tables, t: Tables) {
    && before.nextId <= t.nextId
    && (forall k :: k in before.routes ==> k in t.routes && t.routes[k].id == before.routes[k].id)
    && (forall k :: k in t.routes && k !in before.routes ==> t.routes[k].id >= before.nextId)
  }

  /** The routes named in done have been applied, and only they are active. */
  ghost predicate Applied(o: Oracle, s: Snapshot, done: set<string>, t: Tables) {
    && (forall name :: name in done ==> name in s.routes && WantOf(o, name, s.routes[name]).Some? && Holds(t, WantOf(o, name, s.routes[name]).value))
    && (forall k :: k in t.routes && t.routes[k].active ==> exists name :: name in done && name in s.routes && KeyOf(name, s.routes[name]) == Some(k))
  }

  lemma DeactivateStarts(o: Oracle, s: Snapshot, t: Tables)
    requires Sound(t)
    ensures Sound(Deactivate(t)) && KeepsIds(t, Deactivate(t)) && Applied(o, s, {}, Deactivate(t))
  {
    hide WantOf, KeyOf;
    var u := Deactivate(t);
    forall id | id in u.targets
      ensures exists k :: k in u.routes && u.routes[k].id == id
    {
      var k :| k in t.routes && t.routes[k].id == id;
      assert k in u.routes && u.routes[k].id == id;
    }
  }

  lemma PutRouteSound(t: Tables, w: Want)
    requires Sound(t) && w.targets != []
    ensures Sound(PutRoute(t, w)) && Holds(PutRoute(t, w), w)
  {
    hide PutTargets;
    UpsertSound(t, w);
    PutTargetsSound(Upsert(t, w), w.key, w.targets);
  }

  lemma UpsertSound(t: Tables, w: Want)
    requires Sound(t) && w.targets != []
    ensures var u := Upsert(t, w);
            && Sound(u) && w.key in u.routes
            && u.routes[w.key] == RouteRow(u.routes[w.key].id, w.targets[0].url, w.certificatePEM, w.privateKeyPEM, true)
  {
    if w.key in t.routes {
      SetRowSound(t, w.key, RouteRow(t.routes[w.key].id, w.targets[0].url, w.certificatePEM, w.privateKeyPEM, true));
    } else {
      var row := RouteRow(t.nextId, w.targets[0].url, w.certificatePEM, w.privateKeyPEM, true);
      SetRowSound(t.(nextId := t.nextId + 1), w.key, row);
    }
  }

  /** A row may change but for its id, and a new one may have an id that no row has. */
  lemma SetRowSound(t: Tables, key: RouteKey, row: RouteRow)
    requires Sound(t) && row.id < t.nextId
    requires if key in t.routes then row.id == t.routes[key].id else forall k :: k in t.routes ==> t.routes[k].id != row.id
    ensures Sound(t.(routes := t.routes[key := row]))
  {
    var routes := t.routes[key := row];
    forall id | id in t.targets
      ensures exists k :: k in routes && routes[k].id == id
    {
      var k :| k in t.routes && t.routes[k].id == id;
      assert k in routes && routes[k].id == id;
    }
  }

  lemma PutTargetsSound(t: Tables, key: RouteKey, targets: seq<RouteTarget>)
    requires Sound(t) && key in t.routes
    ensures var u := PutTargets(t, t.routes[key].id, targets);
            && Sound(u) && u.routes == t.routes && t.routes[key].id in u.targets && u.targets[t.routes[key].id] == targets
  {
    var u := PutTargets(t, t.routes[key].id, targets);
    forall id | id in u.targets
      ensures exists k :: k in u.routes && u.routes[k].id == id
    {
      if id == t.routes[key].id {
        assert key in u.routes;
      }
    }
  }

  lemma PutRouteKeepsIds(before: Tables, t: Tables, w: Want)
    requires KeepsIds(before, t) && w.targets != []
    ensures KeepsIds(before, PutRoute(t, w))
  {
  }

  /** Another row keeps its content and its targets. */
  lemma PutRouteElsewhere(t: Tables, w: Want, other: Want)
    requires Sound(t) && w.targets != [] && Holds(t, other) && other.key != w.key
    ensures Holds(PutRoute(t, w), other)
  {
  }

  lemma PutRouteApplied(o: Oracle, s: Snapshot, done: set<string>, t: Tables, name: string)
    requires Sound(t) && Applied(o, s, done, t) && Agreeing(o, s)
    requires name in s.routes && name !in done && WantOf(o, name, s.routes[name]).Some?
    ensures Applied(o, s, done + {name}, PutRoute(t, WantOf(o, name, s.routes[name]).value))
  {
    hide KeyOf, Normalize, WantOf, Holds, Sound, PutRoute;
    var w := WantOf(o, name, s.routes[name]).value;
    var u := PutRoute(t, w);
    PutRouteSound(t, w);
    forall n | n in done + {name}
      ensures n in s.routes && WantOf(o, n, s.routes[n]).Some? && Holds(u, WantOf(o, n, s.routes[n]).value)
    {
      var v := WantOf(o, n, s.routes[n]).value;
      if v.key == w.key {
        assert SameRow(o, s, n, name);
      } else {
        PutRouteElsewhere(t, w, v);
      }
    }
    forall k | k in u.routes && u.routes[k].active
      ensures exists n :: n in done + {name} && n in s.routes && KeyOf(n, s.routes[n]) == Some(k)
    {
      if k == w.key {
        assert KeyOf(name, s.routes[name]) == Some(k);
      } else {
        PutRouteOthers(t, w, k);
        var n :| n in done && n in s.routes && KeyOf(n, s.routes[n]) == Some(k);
        assert n in done + {name};
      }
    }
  }

  lemma PutRouteOthers(t: Tables, w: Want, k: RouteKey)
    requires w.targets != [] && k != w.key
    ensures k in PutRoute(t, w).routes <==> k in t.routes
    ensures k in t.routes ==> PutRoute(t, w).routes[k] == t.routes[k]
  {
  }

  /** Once every route is applied, sweeping leaves the outcome. */
  lemma SweepReconciles(o: Oracle, before: Tables, s: Snapshot, t: Tables)
    requires Sound(t) && KeepsIds(before, t) && Applied(o, s, s.routes.Keys, t)
    ensures Reconciled(o, before, s, Sweep(t))
  {
    hide KeyOf, Normalize, WantOf, Sound, Holds, IsWantedKey;
    SweepSound(t);
    forall name | name in s.routes
      ensures WantOf(o, name, s.routes[name]).Some? && Holds(Sweep(t), WantOf(o, name, s.routes[name]).value)
    {
      SweepHolds(t, WantOf(o, name, s.routes[name]).value);
    }
    SweepKeys(o, s, t);
  }

  lemma SweepKeys(o: Oracle, s: Snapshot, t: Tables)
    requires Applied(o, s, s.routes.Keys, t)
    ensures forall k :: k in Sweep(t).routes <==> IsWantedKey(s, k)
  {
    hide KeyOf, Normalize, WantOf;
    forall k | IsWantedKey(s, k)
      ensures k in t.routes && t.routes[k].active
    {
      var name :| name in s.routes && KeyOf(name, s.routes[name]) == Some(k);
      assert WantOf(o, name, s.routes[name]).value.key == k;
    }
  }

  lemma SweepIsBoth(t: Tables)
    ensures SweepRoutes(SweepTargets(t)) == Sweep(t)
  {
  }

  lemma SweepSound(t: Tables)
    requires Sound(t)
    ensures Sound(Sweep(t))
  {
    var u := Sweep(t);
    forall id | id in u.targets
      ensures exists k :: k in u.routes && u.routes[k].id == id
    {
      var k :| k in t.routes && t.routes[k].id == id;
      assert t.routes[k].active;
      assert k in u.routes && u.routes[k].id == id;
    }
  }

  lemma SweepHolds(t: Tables, w: Want)
    requires Sound(t) && Holds(t, w)
    ensures Holds(Sweep(t), w)
  {
  }

  // ----- storing targets

  function StoredTargets(ts: seq<RouteTarget>): seq<RouteTarget> {
    if ts == [] then
      []
    else
      var init, t := StoredTargets(ts[..|ts| - 1]), ts[|ts| - 1];
      if t.url == "" then init else init + [RouteTarget(t.url, CheckOf(t))]
  }

  lemma PlainCheck(url: string, check: string)
    requires check != "" && forall i :: 0 <= i < |check| ==> 'a' <= check[i] <= 'z'
    ensures CheckOf(RouteTarget(url, check)) == check
  {
    TrimNothing(check, IsSpace);
    assert ToLower(check) == check;
  }

  lemma KnownChecksStay(url: string)
    ensures CheckOf(RouteTarget(url, "http")) == "http" && CheckOf(RouteTarget(url, "tcp")) == "tcp"
  {
    hide CheckOf;
    PlainCheck(url, "http");
    PlainCheck(url, "tcp");
  }

  /** Storing normalised targets stores them as they are. */
  lemma {:induction false} StoredAsGiven(ts: seq<RouteTarget>)
    requires forall i :: 0 <= i < |ts| ==> ts[i].url != "" && (ts[i].healthCheck == "http" || ts[i].healthCheck == "tcp")
    ensures StoredTargets(ts) == ts
  {
    hide CheckOf;
    if ts != [] {
      var init, t := ts[..|ts| - 1], ts[|ts| - 1];
      StoredAsGiven(init);
      KnownChecksStay(t.url);
      assert ts == init + [t];
    }
  }

  // ----- rules

  datatype Rule = Rule(name: string, row: RuleRow)

  function RuleOf(o: Oracle, key: string, r: RuleData): Option<Rule> {
    var name := IfEmpty(TrimSpace(r.name), TrimSpace(key));
    if name == "" || TrimSpace(r.expression) == "" || !o.compiles(r.expression) then
      None
    else
      Some(Rule(name, RuleRow(r.expression, IfEmpty(ToUpper(TrimSpace(r.action)), "BLOCK"), r.priority)))
  }

  /** Exactly the rules of the snapshot. */
  ghost predicate RulesReconciled(o: Oracle, s: Snapshot, rules: map<string, RuleRow>) {
    && (forall key :: key in s.rules ==>
          var r := RuleOf(o, key, s.rules[key]);
          r.Some? && r.value.name in rules && rules[r.value.name] == r.value.row)
    && (forall name :: name in rules ==> FromRule(o, s, s.rules.Keys, name))
  }

  ghost predicate FromRule(o: Oracle, s: Snapshot, keys: set<string>, name: string) {
    exists key :: key in keys && key in s.rules && RuleOf(o, key, s.rules[key]).Some? && RuleOf(o, key, s.rules[key]).value.name == name
  }

  ghost predicate SameRuleName(o: Oracle, s: Snapshot, a: string, b: string)
    requires a in s.rules && b in s.rules
  {
    var x, y := RuleOf(o, a, s.rules[a]), RuleOf(o, b, s.rules[b]);
    x.Some? && y.Some? && x.value.name == y.value.name
  }

  ghost predicate DistinctRules(o: Oracle, s: Snapshot) {
    forall a, b :: a in s.rules && b in s.rules && SameRuleName(o, s, a, b) ==> a == b
  }

  /** There is only one such set of rules, whatever order they were inserted in. */
  lemma RulesAreDetermined(o: Oracle, s: Snapshot, a: map<string, RuleRow>, b: map<string, RuleRow>)
    requires RulesReconciled(o, s, a) && RulesReconciled(o, s, b)
    ensures a == b
  {
    hide RuleOf;
    forall name
      ensures name in a ==> name in b && a[name] == b[name]
      ensures name in b ==> name in a
    {
      if name in a { assert FromRule(o, s, s.rules.Keys, name); }
      if name in b { assert FromRule(o, s, s.rules.Keys, name); }
    }
  }

  // ----- in terms of the snapshot's data alone

  /** The upstreams a route lists, or else its primary one. */
  function Upstreams(r: RouteData): seq<RouteTarget> {
    if |r.targets| > 0 then r.targets else [RouteTarget(r.target, "http")]
  }

  lemma UpstreamsAreTargets(o: Oracle, r: RouteData)
    ensures Normalize(o, Upstreams(r)) == Normalize(o, AllTargets(r))
    ensures r.targets != [] ==> AllTargets(r) == r.targets
  {
    if r.targets == [] && r.target == "" {
      NothingTrims();
      assert Upstreams(r)[..0] == [];
    }
  }

  /** The type of a route, `domain` if it gives none. */
  predicate IsKind(r: RouteData, kind: string) {
    if TrimSpace(r.routeType) == "" then kind == "domain" else kind == ToLower(TrimSpace(r.routeType))
  }

  /** The row that a name stands for: the trimmed name is its path or its domain. */
  ghost predicate IsRow(name: string, r: RouteData, k: RouteKey) {
    && IsKind(r, k.routeType)
    && (if k.routeType == "path" then k.domain == "" && k.pathPrefix == TrimSpace(name)
        else k.domain == TrimSpace(name) && k.pathPrefix == "")
  }

  /** A route that can be applied: its type is known, its name fits the type, and it has upstreams, all of
      which are acceptable. */
  ghost predicate GoodRoute(o: Oracle, name: string, r: RouteData) {
    && (IsKind(r, "path") || IsKind(r, "domain") || IsKind(r, "wildcard") || IsKind(r, "regex"))
    && TrimSpace(name) != "" && (IsKind(r, "path") ==> TrimSpace(name)[0] == '/')
    && Acceptable(o, Upstreams(r)) && FirstOccurrences(Upstreams(r)) != []
  }

  lemma KeyMeaning(name: string, r: RouteData)
    ensures KeyOf(name, r).Some? <==>
              && (IsKind(r, "path") || IsKind(r, "domain") || IsKind(r, "wildcard") || IsKind(r, "regex"))
              && TrimSpace(name) != "" && (IsKind(r, "path") ==> TrimSpace(name)[0] == '/')
    ensures KeyOf(name, r).Some? ==> IsRow(name, r, KeyOf(name, r).value)
  {
    hide TrimSpace, ToLower;
    SlashPrefix(TrimSpace(name));
    LowerOfNothing(TrimSpace(r.routeType));
  }

  lemma SlashPrefix(s: string)
    ensures HasPrefix(s, "/") <==> s != "" && s[0] == '/'
  {
  }

  /** A route is applied exactly if it can be. */
  lemma WantedExactly(o: Oracle, name: string, r: RouteData)
    ensures WantOf(o, name, r).Some? <==> GoodRoute(o, name, r)
  {
    hide KeyOf, Normalize, Acceptable, IsKind, TrimSpace, FirstOccurrences;
    KeyMeaning(name, r);
    UpstreamsAreTargets(o, r);
    NormalizeExactly(o, Upstreams(r));
    if Normalize(o, Upstreams(r)).Some? {
      NormalizeMeaning(o, Upstreams(r));
    }
  }

  /** The tables hold a route of the snapshot: its row is active and has its certificate, its upstreams are
      stored in order without repetition, each with its check, and the first is the primary one. */
  ghost predicate Stores(t: Tables, name: string, r: RouteData) {
    exists k :: k in t.routes && StoresAt(t, name, r, k)
  }

  ghost predicate StoresAt(t: Tables, name: string, r: RouteData, k: RouteKey)
    requires k in t.routes
  {
    var row := t.routes[k];
    && IsRow(name, r, k)
    && row.active && row.certificatePEM == r.certificatePEM && row.privateKeyPEM == r.privateKeyPEM
    && row.id in t.targets
    && var ts := t.targets[row.id];
    && URLs(ts) == FirstOccurrences(Upstreams(r)) && FirstChecks(Upstreams(r), ts)
    && ts != [] && row.targetURL == ts[0].url
  }

  /** After a commit about routes the tables hold every route of the snapshot, and every row is one of them. */
  lemma CommittedRoutes(o: Oracle, before: Tables, s: Snapshot, after: Tables)
    requires Reconciled(o, before, s, after)
    ensures forall name :: name in s.routes ==> GoodRoute(o, name, s.routes[name]) && Stores(after, name, s.routes[name])
    ensures forall k :: k in after.routes ==> exists name :: name in s.routes && IsRow(name, s.routes[name], k)
  {
    hide Reconciled, GoodRoute, Stores, IsRow;
    forall name | name in s.routes
      ensures GoodRoute(o, name, s.routes[name]) && Stores(after, name, s.routes[name])
    {
      CommittedRoute(o, before, s, after, name);
    }
    forall k | k in after.routes
      ensures exists name :: name in s.routes && IsRow(name, s.routes[name], k)
    {
      var name := Origin(o, before, s, after, k);
      KeyMeaning(name, s.routes[name]);
      assert name in s.routes && IsRow(name, s.routes[name], k);
    }
  }

  lemma CommittedRoute(o: Oracle, before: Tables, s: Snapshot, after: Tables, name: string)
    requires Reconciled(o, before, s, after) && name in s.routes
    ensures GoodRoute(o, name, s.routes[name]) && Stores(after, name, s.routes[name])
  {
    hide Reconciled, GoodRoute, IsRow, KeyOf, Normalize, FirstOccurrences, FirstChecks;
    var r := s.routes[name];
    OutcomeHolds(o, before, s, after, name);
    WantedExactly(o, name, r);
    KeyMeaning(name, r);
    UpstreamsAreTargets(o, r);
    NormalizeExactly(o, Upstreams(r));
    NormalizeMeaning(o, Upstreams(r));
    var w := WantOf(o, name, r).value;
    assert StoresAt(after, name, r, w.key);
  }

  /** Routes with different types or names, once trimmed, always agree. */
  lemma DistinctRoutesAgree(o: Oracle, s: Snapshot)
    requires forall a, b, k :: a in s.routes && b in s.routes && IsRow(a, s.routes[a], k) && IsRow(b, s.routes[b], k) ==> a == b
    ensures Agreeing(o, s)
  {
    hide IsRow, KeyOf, Normalize;
    forall a, b | a in s.routes && b in s.routes && SameRow(o, s, a, b)
      ensures a == b
    {
      KeyMeaning(a, s.routes[a]);
      KeyMeaning(b, s.routes[b]);
    }
  }

  /** The tables hold a rule of the snapshot: under its name, or its key if it has none, with its expression
      and priority as they are and its action in upper case, `BLOCK` if it has none. */
  ghost predicate StoresRule(rules: map<string, RuleRow>, key: string, r: RuleData) {
    var name := if TrimSpace(r.name) != "" then TrimSpace(r.name) else TrimSpace(key);
    && name in rules
    && rules[name].expression == r.expression && rules[name].priority == r.priority
    && rules[name].action == if TrimSpace(r.action) == "" then "BLOCK" else ToUpper(TrimSpace(r.action))
  }

  ghost predicate GoodRule(o: Oracle, key: string, r: RuleData) {
    && (TrimSpace(r.name) != "" || TrimSpace(key) != "")
    && TrimSpace(r.expression) != "" && o.compiles(r.expression)
  }

  lemma RuleMeaning(o: Oracle, key: string, r: RuleData)
    ensures RuleOf(o, key, r).Some? <==> GoodRule(o, key, r)
    ensures RuleOf(o, key, r).Some? ==>
              var rule := RuleOf(o, key, r).value;
              && rule.name == (if TrimSpace(r.name) != "" then TrimSpace(r.name) else TrimSpace(key))
              && rule.row.expression == r.expression && rule.row.priority == r.priority
              && rule.row.action == if TrimSpace(r.action) == "" then "BLOCK" else ToUpper(TrimSpace(r.action))
  {
    hide TrimSpace;
    UpperOfNothing(TrimSpace(r.action));
  }

  lemma UpperOfNothing(s: string)
    ensures ToUpper(s) == "" <==> s == ""
  {
  }

  /** After a commit about rules the table holds every rule of the snapshot, and every row is one of them. */
  lemma CommittedRules(o: Oracle, s: Snapshot, rules: map<string, RuleRow>)
    requires RulesReconciled(o, s, rules)
    ensures forall key :: key in s.rules ==> GoodRule(o, key, s.rules[key]) && StoresRule(rules, key, s.rules[key])
    ensures forall name :: name in rules ==>
              exists key :: key in s.rules && name == if TrimSpace(s.rules[key].name) != "" then TrimSpace(s.rules[key].name) else TrimSpace(key)
  {
    hide RuleOf, GoodRule, TrimSpace, ToUpper;
    forall key | key in s.rules
      ensures GoodRule(o, key, s.rules[key]) && StoresRule(rules, key, s.rules[key])
    {
      RuleMeaning(o, key, s.rules[key]);
    }
    forall name | name in rules
      ensures exists key :: key in s.rules && name == if TrimSpace(s.rules[key].name) != "" then TrimSpace(s.rules[key].name) else TrimSpace(key)
    {
      assert FromRule(o, s, s.rules.Keys, name);
      var key :| key in s.rules && RuleOf(o, key, s.rules[key]).Some? && RuleOf(o, key, s.rules[key]).value.name == name;
      RuleMeaning(o, key, s.rules[key]);
    }
  }

  // ----- applying a snapshot

  /** The transaction: its view of the tables, and how many statements it has run. */
  datatype Tx = Tx(t: Tables, statements: nat)

  predicate ReconcilesRoutes(s: Snapshot) {
    s.routesConfigured || |s.routes| > 0
  }

  predicate ReconcilesRules(s: Snapshot) {
    s.rulesConfigured || |s.rules| > 0
  }

  ghost predicate NoFaults(faults: nat -> bool) {
    forall n: nat :: !faults(n)
  }

  ghost predicate AllRules(o: Oracle, s: Snapshot) {
    forall key :: key in s.rules ==> RuleOf(o, key, s.rules[key]).Some?
  }

  /** What applying the routes leaves, on top of the tables base. */
  ghost predicate RoutesOutcome(o: Oracle, base: Tables, s: Snapshot, t: Tables) {
    && Sound(t)
    && t.rules == base.rules
    && (ReconcilesRoutes(s) && Agreeing(o, s) ==> Reconciled(o, base, s, t))
    && (!ReconcilesRoutes(s) ==> t == base)
  }

  /** At least so many statements were run, and none of them failed. */
  ghost predicate Ran(tx: Tx, r: Tx, least: nat, faults: nat -> bool) {
    r.statements >= tx.statements + least && forall k :: tx.statements <= k < r.statements ==> !faults(k)
  }

  lemma RanNothing(tx: Tx, r: Tx, faults: nat -> bool)
    requires r.statements == tx.statements
    ensures Ran(tx, r, 0, faults)
  {
  }

  lemma RanMore(tx: Tx, a: Tx, b: Tx, m: nat, n: nat, faults: nat -> bool)
    requires Ran(tx, a, m, faults) && Ran(a, b, n, faults)
    ensures Ran(tx, b, m + n, faults)
  {
  }

  lemma RanAtLeast(tx: Tx, r: Tx, m: nat, n: nat, faults: nat -> bool)
    requires Ran(tx, r, m, faults) && n <= m
    ensures Ran(tx, r, n, faults)
  {
  }

  lemma NoFaultsAt(faults: nat -> bool, k: nat)
    ensures NoFaults(faults) ==> !faults(k)
  {
  }

  lemma NoFaultsAnywhere(faults: nat -> bool)
    ensures NoFaults(faults) ==> forall k :: !faults(k)
  {
  }

  lemma UpsertHasRow(t: Tables, w: Want)
    requires w.targets != []
    ensures w.key in Upsert(t, w).routes
  {
  }

  lemma RanAll(tx: Tx, r: Tx, least: nat, faults: nat -> bool)
    requires Ran(tx, r, least, faults) && tx.statements == 0
    ensures forall k :: 0 <= k < least ==> !faults(k)
  {
  }

  /** How many statements a snapshot takes at least: for the routes three, and four for each; for the rules
      one, and one for each; the others; and the commit. */
  function Least(s: Snapshot): nat {
    (if ReconcilesRoutes(s) then 3 + 4 * |s.routes| else 0) + (if ReconcilesRules(s) then 1 + |s.rules| else 0) + s.others + 1
  }

  class Database {
    var tables: Tables

    /** One statement, which fails when the oracle says so. */
    method Execute(tx: Tx, t: Tables, faults: nat -> bool) returns (r: Tx, ok: bool)
      ensures ok <==> !faults(tx.statements)
      ensures r == Tx(if ok then t else tx.t, tx.statements + 1)
      ensures ok ==> Ran(tx, r, 1, faults)
    {
      ok := !faults(tx.statements);
      r := Tx(if ok then t else tx.t, tx.statements + 1);
    }

    /** Statements on other tables, the first failure of which ends the transaction. */
    method ExecuteOthers(tx: Tx, n: nat, faults: nat -> bool) returns (r: Tx, ok: bool)
      ensures r.t == tx.t
      ensures ok <==> forall k :: tx.statements <= k < tx.statements + n ==> !faults(k)
      ensures ok ==> Ran(tx, r, n, faults)
    {
      r, ok := tx, true;
      for i := 0 to n
        invariant ok && r == Tx(tx.t, tx.statements + i)
        invariant forall k :: tx.statements <= k < tx.statements + i ==> !faults(k)
      {
        r, ok := Execute(r, r.t, faults);
        if !ok {
          return;
        }
      }
    }

    method SetRouteTargets(tx: Tx, id: int, targets: seq<RouteTarget>, faults: nat -> bool) returns (r: Tx, ok: bool)
      ensures ok ==> Ran(tx, r, 1 + |StoredTargets(targets)|, faults)
      ensures ok ==> r.t == PutTargets(tx.t, id, StoredTargets(targets))
      ensures NoFaults(faults) ==> ok
    {
      hide CheckOf, Ran, NoFaults;
      r, ok := Execute(tx, PutTargets(tx.t, id, []), faults);
      if !ok {
        NoFaultsAt(faults, tx.statements);
        return;
      }
      for i := 0 to |targets|
        invariant r.t == PutTargets(tx.t, id, StoredTargets(targets[..i]))
        invariant Ran(tx, r, 1 + |StoredTargets(targets[..i])|, faults)
      {
        assert targets[..i + 1][..i] == targets[..i];
        if targets[i].url == "" {
          continue;
        }
        ghost var before := r;
        r, ok := Execute(r, PutTargets(r.t, id, r.t.targets[id] + [RouteTarget(targets[i].url, CheckOf(targets[i]))]), faults);
        if !ok {
          NoFaultsAt(faults, before.statements);
          return;
        }
        RanMore(tx, before, r, 1 + |StoredTargets(targets[..i])|, 1, faults);
      }
      assert targets[..|targets|] == targets;
      ok := true;
    }

    /** One turn of the loop over the routes. */
    method ApplyRoute(o: Oracle, name: string, data: RouteData, tx: Tx, faults: nat -> bool) returns (r: Tx, ok: bool)
      ensures ok ==> Ran(tx, r, 4, faults)
      ensures ok ==> WantOf(o, name, data).Some? && r.t == PutRoute(tx.t, WantOf(o, name, data).value)
      ensures NoFaults(faults) && WantOf(o, name, data).Some? ==> ok
    {
      hide Normalize, KeyOf, StoredTargets, Ran, NoFaults, Upsert, PutTargets;
      r, ok := tx, false;
      var key := KeyOf(name, data);
      if key.None? {
        return;
      }
      var targets := NormalizedRouteTargets(o, AllTargets(data));
      if targets.None? {
        return;
      }
      var w := Want(key.value, targets.value, data.certificatePEM, data.privateKeyPEM);
      NormalizeMeaning(o, AllTargets(data));
      StoredAsGiven(targets.value);
      UpsertHasRow(r.t, w);
      r, ok := Execute(r, Upsert(r.t, w), faults);
      if !ok {
        NoFaultsAt(faults, tx.statements);
        return;
      }
      ghost var one := r;
      var row := r.t.routes[w.key];
      r, ok := Execute(r, r.t, faults);
      if !ok {
        NoFaultsAt(faults, one.statements);
        return;
      }
      ghost var two := r;
      RanMore(tx, one, two, 1, 1, faults);
      r, ok := SetRouteTargets(r, row.id, targets.value, faults);
      if ok {
        RanMore(tx, two, r, 2, 1 + |targets.value|, faults);
        RanAtLeast(tx, r, 3 + |targets.value|, 4, faults);
      }
    }

    /** The routes, in whatever order the map yields them. */
    method ApplyRoutes(o: Oracle, s: Snapshot, tx: Tx, ghost base: Tables, faults: nat -> bool) returns (r: Tx, ok: bool)
      requires Sound(tx.t) && KeepsIds(base, tx.t) && Applied(o, s, {}, tx.t)
      ensures ok ==> AllWanted(o, s) && Sound(r.t) && KeepsIds(base, r.t) && r.t.rules == tx.t.rules
      ensures ok && Agreeing(o, s) ==> Applied(o, s, s.routes.Keys, r.t)
      ensures ok && s.routes == map[] ==> r.t == tx.t
      ensures ok ==> Ran(tx, r, 4 * |s.routes|, faults)
      ensures NoFaults(faults) && AllWanted(o, s) ==> ok
    {
      hide WantOf, KeyOf, Sound, KeepsIds, Applied, PutRoute, Agreeing, Wanted, AllWanted, Ran, NoFaults, RoutesLeft;
      r, ok := tx, true;
      var todo := s.routes.Keys;
      NoRouteYet(o, s, tx, base, faults);
      while todo != {}
        invariant todo <= s.routes.Keys
        invariant RoutesLeft(o, s, todo, tx, r, base, faults)
        invariant s.routes == map[] ==> r.t == tx.t
        decreases todo
      {
        var name :| name in todo;
        ghost var sofar := r;
        r, ok := ApplyRoute(o, name, s.routes[name], r, faults);
        if !ok {
          WantedAt(o, s, name);
          return;
        }
        RouteTurn(o, s, todo, name, tx, sofar, r, base, faults);
        todo := todo - {name};
      }
      NoRouteLeft(o, s, tx, r, base, faults);
      ok := true;
    }

    /** Everything about routes: deactivate, apply, sweep. */
    method ReconcileRoutes(o: Oracle, s: Snapshot, tx: Tx, faults: nat -> bool) returns (r: Tx, ok: bool)
      requires Sound(tx.t)
      ensures ok ==> AllWanted(o, s) && RoutesOutcome(o, tx.t, s, r.t)
      ensures ok ==> Ran(tx, r, if ReconcilesRoutes(s) then 3 + 4 * |s.routes| else 0, faults)
      ensures NoFaults(faults) && AllWanted(o, s) ==> ok
    {
      hide Sound, KeepsIds, Applied, Reconciled, Agreeing, Deactivate, Sweep, SweepRoutes, SweepTargets, AllWanted, Ran, NoFaults;
      var reconcile := ReconcilesRoutes(s);
      r, ok := tx, true;
      if !reconcile {
        NothingToApply(o, s);
        RanNothing(tx, r, faults);
        return;
      }
      DeactivateStarts(o, s, tx.t);
      RulesKept(tx.t);
      r, ok := Execute(r, Deactivate(r.t), faults);
      if !ok {
        NoFaultsAt(faults, tx.statements);
        return;
      }
      ghost var one := r;
      r, ok := ApplyRoutes(o, s, r, tx.t, faults);
      if !ok {
        return;
      }
      ghost var two := r;
      RanMore(tx, one, two, 1, 4 * |s.routes|, faults);
      SweepSound(r.t);
      RulesKept(r.t);
      if Agreeing(o, s) {
        SweepReconciles(o, tx.t, s, r.t);
      }
      ghost var applied := r.t;
      r, ok := Execute(r, SweepTargets(r.t), faults);
      if !ok {
        NoFaultsAt(faults, two.statements);
        return;
      }
      ghost var three := r;
      RanMore(tx, two, three, 1 + 4 * |s.routes|, 1, faults);
      r, ok := Execute(r, SweepRoutes(r.t), faults);
      if ok {
        RanMore(tx, three, r, 2 + 4 * |s.routes|, 1, faults);
      } else {
        NoFaultsAt(faults, three.statements);
      }
      assert ok ==> r.t == Sweep(applied) by { SweepIsBoth(applied); }
    }

    /** The rules, in whatever order the map yields them; a name that is taken is an error. */
    method ApplyRules(o: Oracle, s: Snapshot, tx: Tx, faults: nat -> bool) returns (r: Tx, ok: bool)
      ensures ok ==> AllRules(o, s) && r.t == tx.t.(rules := r.t.rules)
      ensures ok ==> if ReconcilesRules(s) then RulesReconciled(o, s, r.t.rules) else r.t == tx.t
      ensures ok ==> Ran(tx, r, if ReconcilesRules(s) then 1 + |s.rules| else 0, faults)
      ensures NoFaults(faults) && AllRules(o, s) && DistinctRules(o, s) ==> ok
    {
      hide RuleOf, FromRule, Ran, NoFaults, DistinctRules, RulesSoFar, RulesReconciled, AllRules, Count;
      r, ok := tx, true;
      if !ReconcilesRules(s) {
        assert s.rules == map[];
        NoRules(o, s);
        RanNothing(tx, r, faults);
        return;
      }
      r, ok := Execute(r, r.t.(rules := map[]), faults);
      if !ok {
        NoFaultsAt(faults, tx.statements);
        return;
      }
      var todo := s.rules.Keys;
      NoRulesYet(o, s);
      NothingDone(s.rules.Keys);
      while todo != {}
        invariant todo <= s.rules.Keys
        invariant r.t == tx.t.(rules := r.t.rules)
        invariant RulesSoFar(o, s, s.rules.Keys - todo, r.t.rules)
        invariant Ran(tx, r, 1 + Count(s.rules.Keys, todo), faults)
        decreases todo
      {
        var key :| key in todo;
        var rule := RuleOf(o, key, s.rules[key]);
        RuleNeeded(o, s, key);
        if rule.None? {
          ok := false;
          return;
        }
        var Rule(name, row) := rule.value;
        if name in r.t.rules {
          NamesAreFrom(o, s, s.rules.Keys - todo, r.t.rules, name);
          TakenName(o, s, s.rules.Keys - todo, key);
          ok := false;
          return;
        }
        ghost var before, done, sofar := r.t.rules, s.rules.Keys - todo, r;
        r, ok := Execute(r, r.t.(rules := r.t.rules[name := row]), faults);
        if !ok {
          NoFaultsAt(faults, sofar.statements);
          return;
        }
        RanMore(tx, sofar, r, 1 + Count(s.rules.Keys, todo), 1, faults);
        OneMoreDone(s.rules.Keys, todo, key);
        RulesNext(o, s, done, before, key);
        todo := todo - {key};
      }
      EverythingDone(s.rules.Keys);
      RulesDone(o, s, r.t.rules);
      ok := true;
    }

    /** The whole transaction: it commits all of the outcome or nothing. */
    method ApplySnapshot(o: Oracle, s: Snapshot, faults: nat -> bool) returns (ok: bool)
      requires Sound(tables)
      modifies this
      ensures Sound(tables)
      ensures !ok ==> tables == old(tables)
      ensures ok ==> AllWanted(o, s) && AllRules(o, s)
      ensures ok && ReconcilesRoutes(s) ==> (Reconciled(o, old(tables), s, tables.(rules := old(tables).rules)) <==> Agreeing(o, s))
      ensures ok && !ReconcilesRoutes(s) ==> tables == old(tables).(rules := tables.rules)
      ensures ok ==> if ReconcilesRules(s) then RulesReconciled(o, s, tables.rules) else tables.rules == old(tables).rules
      ensures NoFaults(faults) && AllWanted(o, s) && AllRules(o, s) && DistinctRules(o, s) ==> ok
      ensures ok ==> forall k :: 0 <= k < Least(s) ==> !faults(k)
      ensures ok && !s.routesConfigured && s.routes == map[] ==> tables.routes == old(tables).routes && tables.targets == old(tables).targets
      ensures ok && !s.rulesConfigured && s.rules == map[] ==> tables.rules == old(tables).rules
      ensures ok ==> forall name :: name in s.routes ==> GoodRoute(o, name, s.routes[name])
      ensures ok ==> forall key :: key in s.rules ==> GoodRule(o, key, s.rules[key])
      ensures ok && (s.routesConfigured || s.routes != map[]) && Agreeing(o, s) ==>
                && (forall name :: name in s.routes ==> Stores(tables, name, s.routes[name]))
                && (forall k :: k in tables.routes ==> exists name :: name in s.routes && IsRow(name, s.routes[name], k))
      ensures ok && (s.rulesConfigured || s.rules != map[]) ==>
                && (forall key :: key in s.rules ==> StoresRule(tables.rules, key, s.rules[key]))
                && RulesReconciled(o, s, tables.rules)
    {
      hide Reconciled, Agreeing, AllWanted, AllRules, RulesReconciled, DistinctRules, Sound, GoodRoute, GoodRule, Stores, StoresRule, IsRow, NoFaults;
      ghost var before := tables;
      ok := Transact(o, s, faults);
      if ok {
        CommitMeaning(o, before, s, tables);
      }
    }

    /** The statements of the transaction, and its commit. */
    method Transact(o: Oracle, s: Snapshot, faults: nat -> bool) returns (ok: bool)
      requires Sound(tables)
      modifies this
      ensures Sound(tables)
      ensures !ok ==> tables == old(tables)
      ensures ok ==> AllWanted(o, s) && AllRules(o, s)
      ensures ok && ReconcilesRoutes(s) ==> (Reconciled(o, old(tables), s, tables.(rules := old(tables).rules)) <==> Agreeing(o, s))
      ensures ok && !ReconcilesRoutes(s) ==> tables == old(tables).(rules := tables.rules)
      ensures ok ==> if ReconcilesRules(s) then RulesReconciled(o, s, tables.rules) else tables.rules == old(tables).rules
      ensures NoFaults(faults) && AllWanted(o, s) && AllRules(o, s) && DistinctRules(o, s) ==> ok
      ensures ok ==> forall k :: 0 <= k < Least(s) ==> !faults(k)
    {
      hide Reconciled, Agreeing, AllWanted, AllRules, RulesReconciled, DistinctRules, Ran, NoFaults;
      var tx := Tx(tables, 0);
      ghost var zero := tx;
      tx, ok := ReconcileRoutes(o, s, tx, faults);
      if !ok {
        return;
      }
      ghost var routed, one := tx.t, tx;
      ghost var m: nat := if ReconcilesRoutes(s) then 3 + 4 * |s.routes| else 0;
      tx, ok := ApplyRules(o, s, tx, faults);
      if !ok {
        return;
      }
      ghost var two, n: nat := tx, if ReconcilesRules(s) then 1 + |s.rules| else 0;
      RanMore(zero, one, two, m, n, faults);
      assert tx.t.(rules := tables.rules) == routed;
      if Reconciled(o, tables, s, routed) {
        OutcomeNeedsAgreement(o, tables, s, routed);
      }
      tx, ok := ExecuteOthers(tx, s.others, faults);
      if !ok {
        NoFaultsAnywhere(faults);
        return;
      }
      ghost var three := tx;
      RanMore(zero, two, three, m + n, s.others, faults);
      tx, ok := Execute(tx, tx.t, faults);
      if ok {
        RanMore(zero, three, tx, m + n + s.others, 1, faults);
        RanAll(zero, tx, m + n + s.others + 1, faults);
        tables := tx.t;
      } else {
        NoFaultsAt(faults, three.statements);
      }
    }
  }

  /** What a commit leaves, in terms of the snapshot's data alone. */
  lemma CommitMeaning(o: Oracle, before: Tables, s: Snapshot, after: Tables)
    requires AllWanted(o, s) && AllRules(o, s)
    requires ReconcilesRoutes(s) ==> (Reconciled(o, before, s, after.(rules := before.rules)) <==> Agreeing(o, s))
    requires ReconcilesRules(s) ==> RulesReconciled(o, s, after.rules)
    ensures forall name :: name in s.routes ==> GoodRoute(o, name, s.routes[name])
    ensures forall key :: key in s.rules ==> GoodRule(o, key, s.rules[key])
    ensures (s.routesConfigured || s.routes != map[]) && Agreeing(o, s) ==>
              && (forall name :: name in s.routes ==> Stores(after, name, s.routes[name]))
              && (forall k :: k in after.routes ==> exists name :: name in s.routes && IsRow(name, s.routes[name], k))
    ensures (s.rulesConfigured || s.rules != map[]) ==>
              && (forall key :: key in s.rules ==> StoresRule(after.rules, key, s.rules[key]))
              && RulesReconciled(o, s, after.rules)
  {
    hide Reconciled, Agreeing, RulesReconciled, GoodRoute, GoodRule, Stores, StoresRule, IsRow, WantOf, RuleOf;
    forall name | name in s.routes
      ensures GoodRoute(o, name, s.routes[name])
    {
      WantedExactly(o, name, s.routes[name]);
    }
    forall key | key in s.rules
      ensures GoodRule(o, key, s.rules[key])
    {
      RuleMeaning(o, key, s.rules[key]);
    }
    if ReconcilesRoutes(s) && Agreeing(o, s) {
      CommittedRoutes(o, before, s, after.(rules := before.rules));
      forall name | name in s.routes
        ensures Stores(after, name, s.routes[name])
      {
        StoresButRules(after.(rules := before.rules), after, name, s.routes[name]);
      }
    }
    if ReconcilesRules(s) {
      CommittedRules(o, s, after.rules);
    }
  }

  lemma StoresButRules(a: Tables, b: Tables, name: string, r: RouteData)
    requires Stores(a, name, r) && a.routes == b.routes && a.targets == b.targets
    ensures Stores(b, name, r)
  {
    hide IsRow, FirstChecks, FirstOccurrences;
    var k :| k in a.routes && StoresAt(a, name, r, k);
    assert StoresAt(b, name, r, k);
  }

  ghost predicate Wanted(o: Oracle, s: Snapshot, done: set<string>) {
    forall name :: name in done ==> name in s.routes && WantOf(o, name, s.routes[name]).Some?
  }

  lemma WantedSome(o: Oracle, s: Snapshot)
    ensures Wanted(o, s, {})
    ensures Wanted(o, s, s.routes.Keys) <==> AllWanted(o, s)
  {
    hide WantOf, KeyOf;
  }

  lemma WantedMore(o: Oracle, s: Snapshot, done: set<string>, name: string)
    requires Wanted(o, s, done) && name in s.routes && WantOf(o, name, s.routes[name]).Some?
    ensures Wanted(o, s, done + {name})
  {
    hide WantOf, KeyOf;
  }

  lemma WantedAt(o: Oracle, s: Snapshot, name: string)
    requires name in s.routes
    ensures AllWanted(o, s) ==> WantOf(o, name, s.routes[name]).Some?
  {
    hide WantOf, KeyOf;
  }

  /** What holds once some of the routes have been applied. */
  ghost predicate RoutesSoFar(o: Oracle, s: Snapshot, done: set<string>, t: Tables, base: Tables, start: Tables) {
    && Sound(t) && KeepsIds(base, t) && t.rules == start.rules
    && (Agreeing(o, s) ==> Applied(o, s, done, t)) && Wanted(o, s, done)
  }

  lemma RoutesBegin(o: Oracle, s: Snapshot, t: Tables, base: Tables)
    requires Sound(t) && KeepsIds(base, t) && Applied(o, s, {}, t) && Wanted(o, s, {})
    ensures RoutesSoFar(o, s, {}, t, base, t)
  {
    hide Sound, KeepsIds, Applied, Agreeing, Wanted;
  }

  lemma RoutesNext(o: Oracle, s: Snapshot, done: set<string>, t: Tables, base: Tables, start: Tables, name: string)
    requires RoutesSoFar(o, s, done, t, base, start)
    requires name in s.routes && name !in done && WantOf(o, name, s.routes[name]).Some?
    ensures RoutesSoFar(o, s, done + {name}, PutRoute(t, WantOf(o, name, s.routes[name]).value), base, start)
  {
    hide Sound, KeepsIds, Applied, Agreeing, Wanted, WantOf, KeyOf, PutRoute;
    RouteStep(o, s, done, t, base, name);
  }

  lemma RoutesDone(o: Oracle, s: Snapshot, t: Tables, base: Tables, start: Tables)
    requires RoutesSoFar(o, s, s.routes.Keys, t, base, start)
    ensures AllWanted(o, s) && Sound(t) && KeepsIds(base, t) && t.rules == start.rules
    ensures Agreeing(o, s) ==> Applied(o, s, s.routes.Keys, t)
  {
    hide Sound, KeepsIds, Applied, Agreeing, Wanted, AllWanted;
    WantedSome(o, s);
  }

  /** The same, while the routes in todo are left to apply, and how many statements that took. */
  ghost predicate RoutesLeft(o: Oracle, s: Snapshot, todo: set<string>, tx: Tx, r: Tx, base: Tables, faults: nat -> bool) {
    RoutesSoFar(o, s, s.routes.Keys - todo, r.t, base, tx.t) && Ran(tx, r, 4 * Count(s.routes.Keys, todo), faults)
  }

  lemma NoRouteYet(o: Oracle, s: Snapshot, tx: Tx, base: Tables, faults: nat -> bool)
    requires Sound(tx.t) && KeepsIds(base, tx.t) && Applied(o, s, {}, tx.t)
    ensures RoutesLeft(o, s, s.routes.Keys, tx, tx, base, faults)
  {
    hide Sound, KeepsIds, Applied, Agreeing, Wanted, RoutesSoFar, Ran, Count;
    RanNothing(tx, tx, faults);
    NothingDone(s.routes.Keys);
    WantedSome(o, s);
    RoutesBegin(o, s, tx.t, base);
  }

  lemma RouteTurn(o: Oracle, s: Snapshot, todo: set<string>, name: string, tx: Tx, a: Tx, b: Tx, base: Tables, faults: nat -> bool)
    requires todo <= s.routes.Keys && name in todo && RoutesLeft(o, s, todo, tx, a, base, faults)
    requires WantOf(o, name, s.routes[name]).Some? && b.t == PutRoute(a.t, WantOf(o, name, s.routes[name]).value)
    requires Ran(a, b, 4, faults)
    ensures RoutesLeft(o, s, todo - {name}, tx, b, base, faults)
  {
    hide Sound, KeepsIds, Applied, Agreeing, Wanted, RoutesSoFar, Ran, Count, WantOf, KeyOf, PutRoute;
    var all := s.routes.Keys;
    var done, left, n := all - todo, todo - {name}, Count(all, todo);
    OneMoreDone(all, todo, name);
    RoutesNext(o, s, done, a.t, base, tx.t, name);
    RanMore(tx, a, b, 4 * n, 4, faults);
    assert all - left == done + {name} && 4 * Count(all, left) == 4 * n + 4;
  }

  lemma NoRouteLeft(o: Oracle, s: Snapshot, tx: Tx, r: Tx, base: Tables, faults: nat -> bool)
    requires RoutesLeft(o, s, {}, tx, r, base, faults)
    ensures AllWanted(o, s) && Sound(r.t) && KeepsIds(base, r.t) && r.t.rules == tx.t.rules
    ensures Agreeing(o, s) ==> Applied(o, s, s.routes.Keys, r.t)
    ensures Ran(tx, r, 4 * |s.routes|, faults)
  {
    hide Sound, KeepsIds, Applied, Agreeing, Wanted, RoutesSoFar, Ran, AllWanted, Count;
    EverythingDone(s.routes.Keys);
    RoutesDone(o, s, r.t, base, tx.t);
  }

  lemma RouteStep(o: Oracle, s: Snapshot, done: set<string>, t: Tables, base: Tables, name: string)
    requires Sound(t) && KeepsIds(base, t) && (Agreeing(o, s) ==> Applied(o, s, done, t)) && Wanted(o, s, done)
    requires name in s.routes && name !in done && WantOf(o, name, s.routes[name]).Some?
    ensures var u := PutRoute(t, WantOf(o, name, s.routes[name]).value);
            Sound(u) && KeepsIds(base, u) && u.rules == t.rules && (Agreeing(o, s) ==> Applied(o, s, done + {name}, u))
    ensures Wanted(o, s, done + {name})
  {
    hide Sound, KeepsIds, Applied, Agreeing, WantOf, KeyOf, Holds, PutRoute, Wanted;
    WantedMore(o, s, done, name);
    var w := WantOf(o, name, s.routes[name]).value;
    PutRouteSound(t, w);
    PutRouteRules(t, w);
    PutRouteKeepsIds(base, t, w);
    if Agreeing(o, s) {
      PutRouteApplied(o, s, done, t, name);
    }
  }

  lemma PutRouteRules(t: Tables, w: Want)
    requires w.targets != []
    ensures PutRoute(t, w).rules == t.rules
  {
  }

  lemma RulesKept(t: Tables)
    ensures Deactivate(t).rules == t.rules && Sweep(t).rules == t.rules
  {
  }

  lemma NothingToApply(o: Oracle, s: Snapshot)
    requires !ReconcilesRoutes(s)
    ensures AllWanted(o, s)
  {
    hide WantOf, KeyOf;
    assert s.routes == map[];
  }

  lemma TakenName(o: Oracle, s: Snapshot, done: set<string>, key: string)
    requires key in s.rules && key !in done && RuleOf(o, key, s.rules[key]).Some?
    requires FromRule(o, s, done, RuleOf(o, key, s.rules[key]).value.name)
    ensures !DistinctRules(o, s)
  {
    hide RuleOf;
    var name := RuleOf(o, key, s.rules[key]).value.name;
    var k :| k in done && k in s.rules && RuleOf(o, k, s.rules[k]).Some? && RuleOf(o, k, s.rules[k]).value.name == name;
    assert SameRuleName(o, s, k, key);
  }

  /** How many are done. */
  ghost function Count<T>(all: set<T>, todo: set<T>): nat {
    |all - todo|
  }

  lemma OneMoreDone<T>(all: set<T>, todo: set<T>, x: T)
    requires todo <= all && x in todo
    ensures all - (todo - {x}) == (all - todo) + {x} && x !in all - todo
    ensures todo - {x} <= all && todo - {x} < todo
    ensures Count(all, todo - {x}) == Count(all, todo) + 1
  {
    assert all - (todo - {x}) == (all - todo) + {x};
    assert |(all - todo) + {x}| == |all - todo| + 1;
  }

  lemma NothingDone<T>(all: set<T>)
    ensures all - all == {} && Count(all, all) == 0
  {
    assert all - all == {};
  }

  lemma EverythingDone<T>(all: set<T>)
    ensures all - {} == all && Count(all, {}) == |all|
  {
    assert all - {} == all;
  }

  /** The rows of the rules that have been inserted, and nothing else. */
  ghost predicate RulesSoFar(o: Oracle, s: Snapshot, done: set<string>, rules: map<string, RuleRow>) {
    && (forall key :: key in done && key in s.rules ==>
          var rule := RuleOf(o, key, s.rules[key]);
          rule.Some? && rule.value.name in rules && rules[rule.value.name] == rule.value.row)
    && (forall name :: name in rules ==> FromRule(o, s, done, name))
  }

  lemma NoRulesYet(o: Oracle, s: Snapshot)
    ensures RulesSoFar(o, s, {}, map[])
  {
  }

  lemma NoRules(o: Oracle, s: Snapshot)
    ensures s.rules == map[] ==> AllRules(o, s)
  {
  }

  lemma RuleNeeded(o: Oracle, s: Snapshot, key: string)
    requires key in s.rules
    ensures AllRules(o, s) ==> RuleOf(o, key, s.rules[key]).Some?
  {
  }

  lemma NamesAreFrom(o: Oracle, s: Snapshot, done: set<string>, rules: map<string, RuleRow>, name: string)
    requires RulesSoFar(o, s, done, rules) && name in rules
    ensures FromRule(o, s, done, name)
  {
  }

  lemma RulesNext(o: Oracle, s: Snapshot, done: set<string>, rules: map<string, RuleRow>, key: string)
    requires RulesSoFar(o, s, done, rules) && key in s.rules && RuleOf(o, key, s.rules[key]).Some?
    requires RuleOf(o, key, s.rules[key]).value.name !in rules
    ensures var rule := RuleOf(o, key, s.rules[key]).value;
            RulesSoFar(o, s, done + {key}, rules[rule.name := rule.row])
  {
    hide RuleOf, FromRule;
    var rule := RuleOf(o, key, s.rules[key]).value;
    forall n | n in rules[rule.name := rule.row]
      ensures FromRule(o, s, done + {key}, n)
    {
      FromMore(o, s, rules, done, key, n);
    }
  }

  lemma RulesDone(o: Oracle, s: Snapshot, rules: map<string, RuleRow>)
    requires RulesSoFar(o, s, s.rules.Keys, rules)
    ensures AllRules(o, s) && RulesReconciled(o, s, rules)
  {
    hide RuleOf, FromRule;
  }

  lemma FromMore(o: Oracle, s: Snapshot, before: map<string, RuleRow>, done: set<string>, key: string, n: string)
    requires key in s.rules && RuleOf(o, key, s.rules[key]).Some?
    requires (n in before ==> FromRule(o, s, done, n)) && (n in before || n == RuleOf(o, key, s.rules[key]).value.name)
    ensures FromRule(o, s, done + {key}, n)
  {
    hide RuleOf;
    if n in before {
      var k :| k in done && k in s.rules && RuleOf(o, k, s.rules[k]).Some? && RuleOf(o, k, s.rules[k]).value.name == n;
      assert k in done + {key};
    } else {
      assert key in done + {key};
    }
  }
}
