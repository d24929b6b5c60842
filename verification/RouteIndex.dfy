/** Loading the route snapshot, and why resolving against it is the lookup by query. */
module RouteIndex {
  import opened Strings
  import opened Listing
  import opened Routing
  import Glob

  // ----- what loading builds

  function CachedOf(re: Regexps, db: Database, row: RouteRow): CachedRoute {
    ReadRow(re, row).(targets := WithFallback(Map(Filter(JoinedTargets(db), OfRoute(row.id)), ToTarget), row.targetURL))
  }

  function Caching(re: Regexps, db: Database): RouteRow -> CachedRoute {
    (row: RouteRow) => CachedOf(re, db, row)
  }

  function ExactDomains(routes: seq<CachedRoute>): map<string, CachedRoute> {
    if routes == [] then map[] else AddExact(ExactDomains(routes[..|routes| - 1]), routes[|routes| - 1])
  }

  function BuildSnapshot(re: Regexps, db: Database): Snapshot {
    var routes := Map(ListedRows(db), Caching(re, db));
    Snapshot(ExactDomains(routes), Sort(Filter(routes, IsPattern), PatternBefore), Sort(Filter(routes, IsPath), PathBefore))
  }

  // ----- the hypotheses

  /** The tables as configuration leaves them: ids are unique, patterns compile, domain rows are written
      the way they are looked up and differ by more than case, and path prefixes differ. */
  ghost predicate WellFormed(re: Regexps, db: Database) {
    && (forall a, b :: a in db.routes && b in db.routes && a.id == b.id ==> a == b)
    && (forall r :: r in db.routes && IsHostRow(r) ==> Compiles(re, r))
    && (forall r :: r in db.routes && IsDomainRow(r) ==> NormalizeResolverDomain(r.domain) == ToLower(r.domain))
    && (forall a, b :: a in db.routes && b in db.routes && IsDomainRow(a) && IsDomainRow(b) && EqualFold(a.domain, b.domain) ==> a == b)
    && (forall a, b :: a in db.routes && b in db.routes && IsPathRow(a) && IsPathRow(b) && a.pathPrefix == b.pathPrefix ==> a == b)
  }

  /** Only a request for the empty host could be for a row without one. */
  ghost predicate NamesHost(db: Database, domain: string) {
    domain != "" || forall r :: r in db.routes && IsHostRow(r) ==> TrimSpace(r.domain) != ""
  }

  /** A host neither lookup has its own reading of: no bare bracket, and no white space around it once
      normalised. */
  ghost predicate PlainHost(db: Database, host: string) {
    && !BareBracket(host)
    && TrimSpace(NormalizeDomain(host)) == NormalizeDomain(host)
    && NamesHost(db, NormalizeDomain(host))
  }

  /** A path for which the query finds only routes whose prefix it has. */
  ghost predicate PlainPath(db: Database, path: string) {
    forall r :: r in db.routes && IsPathRow(r) && Like(path, r.pathPrefix + "%") ==> HasPrefix(path, r.pathPrefix)
  }

  /** An empty host or path is not looked up at all. */
  ghost predicate PlainRequest(db: Database, host: string, path: string) {
    (host != "" ==> PlainHost(db, host)) && (path != "" ==> PlainPath(db, path))
  }

  /** It suffices for the path that no prefix has a wildcard in it or agrees with it but for case. */
  lemma LiteralPrefixesArePlain(db: Database, path: string)
    requires forall r :: r in db.routes && IsPathRow(r) ==>
               && '%' !in r.pathPrefix && '_' !in r.pathPrefix
               && (|r.pathPrefix| <= |path| && EqualFold(path[..|r.pathPrefix|], r.pathPrefix) ==> path[..|r.pathPrefix|] == r.pathPrefix)
    ensures PlainPath(db, path)
  {
    hide Like, EqualFold;
    forall r | r in db.routes && IsPathRow(r) && Like(path, r.pathPrefix + "%")
      ensures HasPrefix(path, r.pathPrefix)
    {
      LikePrefix(path, r.pathPrefix);
    }
  }

  // ----- targets

  lemma OrdersAreWeak()
    ensures WeakOrder(RouteThenTarget) && WeakOrder(LongerDomain) && WeakOrder(LongerPrefix) && WeakOrder(ById)
    ensures WeakOrder(PatternBefore) && WeakOrder(PathBefore)
  {
  }

  lemma {:induction false} FilterJoined(db: Database, targets: seq<TargetRow>, id: int)
    requires exists row :: row in db.routes && row.id == id && IsListed(row)
    ensures Filter(Filter(targets, Joined(db)), OfRoute(id)) == Filter(targets, OfRoute(id))
  {
    if targets != [] {
      FilterJoined(db, targets[1..], id);
      var rest := Filter(targets[1..], Joined(db));
      assert Filter(targets, Joined(db)) == if HasListedRoute(db, targets[0]) then [targets[0]] + rest else rest;
      assert ([targets[0]] + rest)[1..] == rest;
    }
  }

  /** Reading all targets at once and dealing them out gives each route its own, in order. */
  lemma CachedTargets(re: Regexps, db: Database, row: RouteRow)
    requires row in db.routes && IsListed(row)
    ensures CachedOf(re, db, row).targets == UpstreamsOf(db, row)
    ensures CachedOf(re, db, row).row == row
  {
    OrdersAreWeak();
    FilterOfSort(Filter(db.targets, Joined(db)), OfRoute(row.id), RouteThenTarget, TargetBefore);
    FilterJoined(db, db.targets, row.id);
  }

  // ----- membership of the snapshot's lists

  lemma ListedMembers(db: Database)
    ensures forall row :: row in ListedRows(db) <==> row in db.routes && IsListed(row)
  {
    FilterMembers(db.routes, IsListed);
    SortMembers(Filter(db.routes, IsListed), ById);
  }

  lemma MapMembers(re: Regexps, db: Database, rows: seq<RouteRow>)
    ensures forall row :: row in rows ==> CachedOf(re, db, row) in Map(rows, Caching(re, db))
    ensures forall c :: c in Map(rows, Caching(re, db)) ==> c.row in rows && c == CachedOf(re, db, c.row)
  {
    var cached := Map(rows, Caching(re, db));
    forall row | row in rows
      ensures CachedOf(re, db, row) in cached
    {
      var i :| 0 <= i < |rows| && rows[i] == row;
      assert cached[i] == CachedOf(re, db, row);
    }
    forall c | c in cached
      ensures c.row in rows && c == CachedOf(re, db, c.row)
    {
      var i :| 0 <= i < |cached| && cached[i] == c;
      assert c == CachedOf(re, db, rows[i]) && c.row == rows[i];
    }
  }

  /** The cached routes of one kind are exactly the cached forms of the listed rows of that kind. */
  lemma KindMembers(re: Regexps, db: Database, kind: CachedRoute -> bool, c: CachedRoute)
    ensures c in Filter(Map(ListedRows(db), Caching(re, db)), kind) <==>
            c.row in db.routes && IsListed(c.row) && c == CachedOf(re, db, c.row) && kind(c)
  {
    ListedMembers(db);
    MapMembers(re, db, ListedRows(db));
    FilterMembers(Map(ListedRows(db), Caching(re, db)), kind);
  }

  // ----- patterns

  /** On a listed row, the matcher compiled in advance and the test made per request agree. */
  lemma PatternTestsAgree(re: Regexps, db: Database, row: RouteRow, domain: string)
    requires IsListed(row) && (IsHostRow(row) ==> Compiles(re, row) && (domain != "" || TrimSpace(row.domain) != ""))
    ensures var c := CachedOf(re, db, row);
            IsPattern(c) && PatternHit(re, domain)(c) <==> PatternTest(re, domain)(row)
  {
    hide TrimSpace, ToLower, EqualFold, Glob.Accepts, JoinedTargets, Filter, Map, WithFallback, NormalizeResolverDomain, TrimPrefix;
    NothingTrims();
    BlankMatchesBlank(domain);
  }

  /** An empty pattern matches only the empty host. */
  lemma BlankMatchesBlank(domain: string)
    ensures Glob.Accepts("", domain) <==> domain == ""
  {
    Glob.NoStar("");
  }

  lemma PatternChoice(re: Regexps, db: Database, domain: string, pattern: Option<RouteRow>)
    requires WellFormed(re, db) && NamesHost(db, domain)
    requires IsChoice(db.routes, PatternTest(re, domain), LongerDomain, pattern)
    ensures First(BuildSnapshot(re, db).patterns, PatternHit(re, domain)) ==
            if pattern.Some? then Some(CachedOf(re, db, pattern.value)) else None
  {
    hide Filter, Sort, Map, ListedRows, ReadRow, NormalizeResolverDomain, JoinedTargets, EqualFold, TrimSpace, DomainPatternMatches, CompileMatcher, Matches;
    var patterns := Filter(Map(ListedRows(db), Caching(re, db)), IsPattern);
    var hit := First(Sort(patterns, PatternBefore), PatternHit(re, domain));
    OrdersAreWeak();
    FirstIsChoice(patterns, PatternHit(re, domain), PatternBefore);
    if pattern.Some? {
      var row := pattern.value;
      PatternTestsAgree(re, db, row, domain);
      KindMembers(re, db, IsPattern, CachedOf(re, db, row));
    }
    if hit.Some? {
      KindMembers(re, db, IsPattern, hit.value);
      PatternTestsAgree(re, db, hit.value.row, domain);
    }
  }

  // ----- paths

  /** On a listed row the two tests of a path agree exactly when the query does not find it by anything
      but its prefix. */
  lemma PathTestsAgree(re: Regexps, db: Database, row: RouteRow, path: string)
    requires IsListed(row)
    ensures var c := CachedOf(re, db, row);
            (IsPath(c) && PathHit(path)(c) <==> PathTest(path)(row)) <==>
            !(IsPathRow(row) && Like(path, row.pathPrefix + "%") && !HasPrefix(path, row.pathPrefix))
  {
    hide Like, JoinedTargets, Filter, Map, WithFallback, NormalizeResolverDomain, CompileMatcher;
    if IsPathRow(row) && HasPrefix(path, row.pathPrefix) {
      PrefixIsLike(path, row.pathPrefix);
    }
  }

  /** Two prefixes of one path that are equally long are the same prefix. */
  lemma PathChoice(re: Regexps, db: Database, path: string, prefix: Option<RouteRow>)
    requires WellFormed(re, db) && PlainPath(db, path)
    requires IsChoice(db.routes, PathTest(path), LongerPrefix, prefix)
    ensures First(BuildSnapshot(re, db).paths, PathHit(path)) ==
            if prefix.Some? then Some(CachedOf(re, db, prefix.value)) else None
  {
    hide Like, Filter, Sort, Map, ListedRows, ReadRow, NormalizeDomain, NormalizeResolverDomain, JoinedTargets, EqualFold, BareBracket, TrimSpace;
    var paths := Filter(Map(ListedRows(db), Caching(re, db)), IsPath);
    var hit := First(Sort(paths, PathBefore), PathHit(path));
    OrdersAreWeak();
    FirstIsChoice(paths, PathHit(path), PathBefore);
    if prefix.Some? {
      var row := prefix.value;
      PathTestsAgree(re, db, row, path);
      KindMembers(re, db, IsPath, CachedOf(re, db, row));
    }
    if hit.Some? {
      var row := hit.value.row;
      KindMembers(re, db, IsPath, hit.value);
      PathTestsAgree(re, db, row, path);
      if prefix.Some? {
        assert |row.pathPrefix| == |prefix.value.pathPrefix|;
        assert row.pathPrefix == path[..|row.pathPrefix|] == prefix.value.pathPrefix;
      }
    }
  }

  // ----- exact domains

  lemma {:induction false} ExactDomainsMeaning(routes: seq<CachedRoute>, host: string)
    ensures host in ExactDomains(routes) <==>
            exists c :: c in routes && c.row.routeType == DOMAIN && c.normalizedHost == host && host != ""
    ensures host in ExactDomains(routes) ==>
            var c := ExactDomains(routes)[host];
            c in routes && c.row.routeType == DOMAIN && c.normalizedHost == host
  {
    if routes != [] {
      var init, last := routes[..|routes| - 1], routes[|routes| - 1];
      ExactDomainsMeaning(init, host);
      assert forall c :: c in routes <==> c in init || c == last;
    }
  }

  function IsExactly(host: string): CachedRoute -> bool {
    (c: CachedRoute) => c.row.routeType == "domain" && c.normalizedHost == host
  }

  /** If domain rows share a host, the first of them has it. */
  lemma {:induction false} FirstRowHasHost(routes: seq<CachedRoute>, host: string)
    requires host != ""
    ensures First(routes, IsExactly(host)) == if host in ExactDomains(routes) then Some(ExactDomains(routes)[host]) else None
  {
    if routes != [] {
      var init, last := routes[..|routes| - 1], routes[|routes| - 1];
      FirstRowHasHost(init, host);
      FirstOfMore(init, last, IsExactly(host));
      assert routes == init + [last];
    }
  }

  lemma {:induction false} FirstOfMore<T>(s: seq<T>, x: T, p: T -> bool)
    ensures First(s + [x], p) == if First(s, p).Some? then First(s, p) else if p(x) then Some(x) else None
  {
    if s == [] {
      assert s + [x] == [x];
    } else {
      assert (s + [x])[0] == s[0] && (s + [x])[1..] == s[1..] + [x];
      FirstOfMore(s[1..], x, p);
    }
  }

  lemma ExactChoice(re: Regexps, db: Database, domain: string, exact: Option<RouteRow>)
    requires WellFormed(re, db) && ToLower(domain) == domain && NamesHost(db, domain)
    requires IsChoice(db.routes, ExactTest(domain), AnyOrder, exact)
    ensures domain in BuildSnapshot(re, db).exactDomains <==> exact.Some?
    ensures exact.Some? ==> BuildSnapshot(re, db).exactDomains[domain] == CachedOf(re, db, exact.value)
    ensures exact.Some? ==> CachedOf(re, db, exact.value).normalizedHost == domain
  {
    hide ExactDomains, NormalizeResolverDomain, CompileMatcher, JoinedTargets, Filter, Sort, ListedRows, Map, WithFallback, TrimSpace, ToLower, Compiles;
    var routes := Map(ListedRows(db), Caching(re, db));
    ListedMembers(db);
    MapMembers(re, db, ListedRows(db));
    ExactDomainsMeaning(routes, domain);
    if exact.Some? {
      var c := CachedOf(re, db, exact.value);
      assert c in routes && c.row.routeType == DOMAIN && c.normalizedHost == domain;
      NothingTrims();
      assert |ToLower(exact.value.domain)| > 0;
    }
    if domain in ExactDomains(routes) {
      var c := ExactDomains(routes)[domain];
      assert IsDomainRow(c.row) && ToLower(c.row.domain) == domain;
      assert ExactTest(domain)(c.row);
      if exact.Some? {
        assert EqualFold(c.row.domain, exact.value.domain);
        assert c == CachedOf(re, db, c.row) && c.row == exact.value;
      }
    }
  }

  // ----- the main theorem

  /** Whatever the queries answer, resolving against a freshly loaded snapshot gives the same match. */
  lemma IndexRefinesLookup(re: Regexps, db: Database, host: string, path: string, a: Answers)
    requires WellFormed(re, db) && PlainRequest(db, host, path)
    requires MayAnswer(re, db, host, path, a)
    ensures ResolveIn(re, BuildSnapshot(re, db), host, path) == GetRouteTargets(db, host, path, a)
  {
    hide NormalizeDomain, NormalizeResolverDomain, BareBracket, TrimSpace, BuildSnapshot, CachedOf, UpstreamsOf, First, WellFormed;
    var domain := NormalizeDomain(host);
    NormalizersAgree(host);
    NormalizedIsLower(host);
    if host != "" {
      ExactChoice(re, db, domain, a.exact);
      PatternChoice(re, db, domain, a.pattern);
    }
    if path != "" {
      PathChoice(re, db, path, a.path);
    }
    if a.exact.Some? {
      CachedTargets(re, db, a.exact.value);
    }
    if a.pattern.Some? {
      CachedTargets(re, db, a.pattern.value);
    }
    if a.path.Some? {
      CachedTargets(re, db, a.path.value);
    }
  }

  /** The queries always have an answer. */
  lemma AnswersExist(re: Regexps, db: Database, host: string, path: string) returns (a: Answers)
    ensures MayAnswer(re, db, host, path, a)
  {
    var domain := NormalizeDomain(host);
    OrdersAreWeak();
    FirstIsChoice(db.routes, ExactTest(domain), AnyOrder);
    FirstIsChoice(db.routes, PatternTest(re, ToLower(TrimSpace(domain))), LongerDomain);
    FirstIsChoice(db.routes, PathTest(path), LongerPrefix);
    a := Answers(
      First(Sort(db.routes, AnyOrder), ExactTest(domain)),
      First(Sort(db.routes, LongerDomain), PatternTest(re, ToLower(TrimSpace(domain)))),
      First(Sort(db.routes, LongerPrefix), PathTest(path)));
  }

  // ----- loading

  /** The primary key of the table of routes. */
  ghost predicate DistinctIds(rows: seq<RouteRow>) {
    rows == [] || ((forall r :: r in rows[1..] ==> r.id != rows[0].id) && DistinctIds(rows[1..]))
  }

  lemma {:induction false} FilterDistinct(rows: seq<RouteRow>, keep: RouteRow -> bool)
    requires DistinctIds(rows)
    ensures DistinctIds(Filter(rows, keep))
  {
    if rows != [] {
      FilterDistinct(rows[1..], keep);
      FilterMembers(rows[1..], keep);
      assert ([rows[0]] + Filter(rows[1..], keep))[1..] == Filter(rows[1..], keep);
    }
  }

  lemma {:induction false} InsertDistinct(x: RouteRow, rows: seq<RouteRow>, before: (RouteRow, RouteRow) -> bool)
    requires DistinctIds(rows) && forall r :: r in rows ==> r.id != x.id
    ensures DistinctIds(Insert(x, rows, before))
  {
    if rows != [] && before(rows[0], x) {
      InsertDistinct(x, rows[1..], before);
      InsertMembers(x, rows[1..], before);
      assert Insert(x, rows, before)[1..] == Insert(x, rows[1..], before);
    } else {
      assert ([x] + rows)[1..] == rows;
    }
  }

  lemma {:induction false} SortDistinct(rows: seq<RouteRow>, before: (RouteRow, RouteRow) -> bool)
    requires DistinctIds(rows)
    ensures DistinctIds(Sort(rows, before))
  {
    if rows != [] {
      SortDistinct(rows[1..], before);
      SortMembers(rows[1..], before);
      InsertDistinct(rows[0], Sort(rows[1..], before), before);
    }
  }

  lemma {:induction false} DistinctAt(rows: seq<RouteRow>, i: nat, j: nat)
    requires DistinctIds(rows) && i < j < |rows|
    ensures rows[i].id != rows[j].id
  {
    if i > 0 {
      DistinctAt(rows[1..], i - 1, j - 1);
    } else {
      assert rows[j] in rows[1..];
    }
  }

  predicate AllCompile(re: Regexps, rows: seq<RouteRow>) {
    forall i :: 0 <= i < |rows| ==> Compiles(re, rows[i])
  }

  /** The cached form of a row once the first n target rows have been dealt out. */
  ghost function Dealt(re: Regexps, row: RouteRow, targets: seq<TargetRow>): CachedRoute {
    ReadRow(re, row).(targets := Map(Filter(targets, OfRoute(row.id)), ToTarget))
  }

  lemma DealtNothing(re: Regexps, row: RouteRow)
    ensures Dealt(re, row, []) == ReadRow(re, row)
  {
  }

  ghost predicate Positions(rows: seq<RouteRow>, byID: map<int, nat>) {
    && (forall id :: id in byID ==> byID[id] < |rows| && rows[byID[id]].id == id)
    && (forall i :: 0 <= i < |rows| ==> rows[i].id in byID && byID[rows[i].id] == i)
  }

  lemma NothingRead(re: Regexps)
    ensures AllCompile(re, []) && Positions([], map[])
  {
  }

  lemma CompileNext(re: Regexps, rows: seq<RouteRow>, i: nat)
    requires i < |rows| && AllCompile(re, rows[..i])
    ensures AllCompile(re, rows[..i + 1]) <==> Compiles(re, rows[i])
    ensures AllCompile(re, rows) ==> Compiles(re, rows[i])
  {
    hide Compiles;
    assert rows[..i + 1] == rows[..i] + [rows[i]];
    assert rows[..i + 1][i] == rows[i];
  }

  lemma PositionsNext(rows: seq<RouteRow>, i: nat, byID: map<int, nat>)
    requires DistinctIds(rows) && i < |rows| && Positions(rows[..i], byID)
    ensures Positions(rows[..i + 1], byID[rows[i].id := i])
  {
    hide DistinctIds;
    forall k | 0 <= k < i
      ensures rows[k].id != rows[i].id && rows[..i][k] == rows[k] == rows[..i + 1][k]
    {
      DistinctAt(rows, k, i);
    }
  }

  method ReadRoutes(re: Regexps, rows: seq<RouteRow>) returns (order: seq<CachedRoute>, byID: map<int, nat>, ok: bool)
    requires DistinctIds(rows)
    ensures ok <==> AllCompile(re, rows)
    ensures ok ==> Positions(rows, byID)
    ensures ok ==> |order| == |rows| && forall i :: 0 <= i < |rows| ==> order[i] == Dealt(re, rows[i], [])
  {
    hide ReadRow, Compiles, Dealt, DistinctIds, AllCompile, Positions;
    order, byID, ok := [], map[], true;
    assert rows[..0] == [];
    NothingRead(re);
    for i := 0 to |rows|
      invariant AllCompile(re, rows[..i]) && Positions(rows[..i], byID)
      invariant |order| == i && forall k :: 0 <= k < i ==> order[k] == Dealt(re, rows[k], [])
    {
      CompileNext(re, rows, i);
      if !Compiles(re, rows[i]) {
        ok := false;
        return;
      }
      PositionsNext(rows, i, byID);
      DealtNothing(re, rows[i]);
      order := order + [ReadRow(re, rows[i])];
      byID := byID[rows[i].id := i];
    }
    assert rows[..|rows|] == rows;
  }

  method DealTargets(re: Regexps, rows: seq<RouteRow>, read: seq<CachedRoute>, byID: map<int, nat>, targets: seq<TargetRow>)
    returns (order: seq<CachedRoute>)
    requires Positions(rows, byID)
    requires |read| == |rows| && forall i :: 0 <= i < |rows| ==> read[i] == Dealt(re, rows[i], [])
    ensures |order| == |rows| && forall i :: 0 <= i < |rows| ==> order[i] == Dealt(re, rows[i], targets)
  {
    order := read;
    for j := 0 to |targets|
      invariant |order| == |rows| && forall i :: 0 <= i < |rows| ==> order[i] == Dealt(re, rows[i], targets[..j])
    {
      var t := targets[j];
      forall i | 0 <= i < |rows|
        ensures Dealt(re, rows[i], targets[..j + 1]) ==
                if rows[i].id == t.routeID then order[i].(targets := order[i].targets + [ToTarget(t)]) else order[i]
      {
        DealOne(re, rows[i], targets, j);
      }
      if t.routeID in byID {
        var k := byID[t.routeID];
        order := order[k := order[k].(targets := order[k].targets + [ToTarget(t)])];
      }
    }
    assert targets[..|targets|] == targets;
  }

  lemma DealOne(re: Regexps, row: RouteRow, targets: seq<TargetRow>, j: nat)
    requires j < |targets|
    ensures var before := Dealt(re, row, targets[..j]);
            Dealt(re, row, targets[..j + 1]) ==
            if row.id == targets[j].routeID then before.(targets := before.targets + [ToTarget(targets[j])]) else before
  {
    hide ReadRow, ToTarget, Map, Filter;
    FilterLast(targets, j, OfRoute(row.id));
    MapLast(Filter(targets[..j], OfRoute(row.id)), targets[j], ToTarget);
  }

  method FileRoutes(re: Regexps, db: Database, rows: seq<RouteRow>, order: seq<CachedRoute>) returns (snap: Snapshot)
    requires |order| == |rows| && forall i :: 0 <= i < |rows| ==> order[i] == Dealt(re, rows[i], JoinedTargets(db))
    ensures var all := Map(rows, Caching(re, db));
            snap == Snapshot(ExactDomains(all), Filter(all, IsPattern), Filter(all, IsPath))
  {
    hide JoinedTargets, ReadRow, IsPattern, Filter, Map;
    ghost var all := Map(rows, Caching(re, db));
    var exact, patterns, paths := map[], [], [];
    FilterNone(all[..0], IsPattern);
    FilterNone(all[..0], IsPath);
    for i := 0 to |order|
      invariant exact == ExactDomains(all[..i])
      invariant patterns == Filter(all[..i], IsPattern) && paths == Filter(all[..i], IsPath)
    {
      var route := order[i].(targets := WithFallback(order[i].targets, order[i].row.targetURL));
      assert route == all[i];
      assert all[..i + 1][..i] == all[..i];
      FilterLast(all, i, IsPattern);
      FilterLast(all, i, IsPath);
      exact := AddExact(exact, route);
      if IsPattern(route) {
        patterns := patterns + [route];
      }
      if IsPath(route) {
        paths := paths + [route];
      }
    }
    assert all[..|order|] == all;
    snap := Snapshot(exact, patterns, paths);
  }

  /** Loading fails exactly when some expression does not compile. */
  method LoadRouteSnapshot(re: Regexps, db: Database) returns (r: Option<Snapshot>)
    requires DistinctIds(db.routes)
    ensures r == if AllCompile(re, ListedRows(db)) then Some(BuildSnapshot(re, db)) else None
  {
    var rows := ListedRows(db);
    FilterDistinct(db.routes, IsListed);
    SortDistinct(Filter(db.routes, IsListed), ById);
    var read, byID, ok := ReadRoutes(re, rows);
    if !ok {
      return None;
    }
    var order := DealTargets(re, rows, read, byID, JoinedTargets(db));
    var unsorted := FileRoutes(re, db, rows, order);
    r := Some(Snapshot(unsorted.exactDomains, Sort(unsorted.patterns, PatternBefore), Sort(unsorted.paths, PathBefore)));
  }

  // ----- the resolver

  class RouteResolver {
    var snapshot: Snapshot

    constructor ()
      ensures snapshot == Snapshot(map[], [], [])
    {
      snapshot := Snapshot(map[], [], []);
    }

    /** A reload that fails leaves the last good snapshot in place. */
    method Reload(re: Regexps, db: Database) returns (ok: bool)
      requires DistinctIds(db.routes)
      modifies this
      ensures ok <==> AllCompile(re, ListedRows(db))
      ensures snapshot == if ok then BuildSnapshot(re, db) else old(snapshot)
    {
      var r := LoadRouteSnapshot(re, db);
      ok := r.Some?;
      if ok {
        snapshot := r.value;
      }
    }

    method Resolve(re: Regexps, host: string, path: string) returns (r: Option<RouteMatch>)
      ensures r == ResolveIn(re, snapshot, host, path)
    {
      hide NormalizeResolverDomain, EqualFold, Matches;
      if host != "" {
        var domain := NormalizeResolverDomain(host);
        if domain in snapshot.exactDomains {
          var route := snapshot.exactDomains[domain];
          if route.targets != [] {
            return DomainMatch(route, "domain:" + route.normalizedHost);
          }
        }
        var patterns := snapshot.patterns;
        for i := 0 to |patterns|
          invariant First(patterns, PatternHit(re, domain)) == First(patterns[i..], PatternHit(re, domain))
        {
          var route := patterns[i];
          assert patterns[i..][1..] == patterns[i + 1..];
          if EqualFold(route.row.domain, domain) || !Matches(re, route.matcher, domain) {
            continue;
          }
          if route.targets != [] {
            return DomainMatch(route, "domain:" + route.row.domain);
          }
          break;
        }
      }
      r := ResolvePath(path);
    }

    method ResolvePath(path: string) returns (r: Option<RouteMatch>)
      ensures var prefix := First(snapshot.paths, PathHit(path));
              r == if path != "" && prefix.Some? && prefix.value.targets != []
                   then Some(RouteMatch("path:" + prefix.value.row.pathPrefix, prefix.value.targets, "", "")) else None
    {
      if path == "" {
        return None;
      }
      var paths := snapshot.paths;
      for i := 0 to |paths|
        invariant First(paths, PathHit(path)) == First(paths[i..], PathHit(path))
      {
        var route := paths[i];
        assert paths[i..][1..] == paths[i + 1..];
        if !HasPrefix(path, route.row.pathPrefix) {
          continue;
        }
        if route.targets != [] {
          return Some(RouteMatch("path:" + route.row.pathPrefix, route.targets, "", ""));
        }
        break;
      }
      r := None;
    }
  }

  // ----- the targets of a match

  /** rows are the target rows of the route, each as often as the table has it, by sort order and then id. */
  ghost predicate RowsOf(db: Database, id: int, rows: seq<TargetRow>) {
    && (forall t :: multiset(rows)[t] == if t.routeID == id then multiset(db.targets)[t] else 0)
    && (forall i, j :: 0 <= i < j < |rows| ==>
          rows[i].sortOrder < rows[j].sortOrder || (rows[i].sortOrder == rows[j].sortOrder && rows[i].id <= rows[j].id))
  }

  /** The targets are those of the rows, one for each, with their checks, `http` where there is none; the
      route's own address serves only where there are no rows. */
  ghost predicate Serves(targets: seq<RouteTarget>, row: RouteRow, rows: seq<TargetRow>) {
    if rows == [] then
      targets == if row.targetURL == "" then [] else [RouteTarget(row.targetURL, "http")]
    else
      && |targets| == |rows|
      && forall i :: 0 <= i < |rows| ==>
           targets[i].url == rows[i].url && targets[i].healthCheck == if rows[i].healthCheck == "" then "http" else rows[i].healthCheck
  }

  lemma UpstreamsMeaning(db: Database, row: RouteRow) returns (rows: seq<TargetRow>)
    ensures RowsOf(db, row.id, rows) && Serves(UpstreamsOf(db, row), row, rows)
  {
    var own := Filter(db.targets, OfRoute(row.id));
    rows := Sort(own, TargetBefore);
    OrdersAreWeak();
    TargetsAreOrdered();
    SortSorted(own, TargetBefore);
    SortCounts(own, TargetBefore);
    forall t
      ensures multiset(rows)[t] == if t.routeID == row.id then multiset(db.targets)[t] else 0
    {
      FilterCounts(db.targets, OfRoute(row.id), t);
    }
    forall i, j | 0 <= i < j < |rows|
      ensures rows[i].sortOrder < rows[j].sortOrder || (rows[i].sortOrder == rows[j].sortOrder && rows[i].id <= rows[j].id)
    {
      SortedMeaning(rows, TargetBefore, i, j);
    }
  }

  lemma TargetsAreOrdered()
    ensures WeakOrder(TargetBefore)
  {
  }

  /** A match is that of an active row, with the upstreams of that row and, for a host, its certificate; a
      pattern's and a path's key say which. */
  lemma MatchMeaning(re: Regexps, db: Database, host: string, path: string, a: Answers) returns (row: RouteRow, rows: seq<TargetRow>)
    requires MayAnswer(re, db, host, path, a) && GetRouteTargets(db, host, path, a).Some?
    ensures var m := GetRouteTargets(db, host, path, a).value;
            && row in db.routes && row.active && RowsOf(db, row.id, rows) && Serves(m.targets, row, rows) && m.targets != []
            && (if row.routeType == PATH
                then m.routeKey == "path:" + row.pathPrefix && m.certificatePEM == "" && m.privateKeyPEM == ""
                else m.certificatePEM == row.certificatePEM && m.privateKeyPEM == row.privateKeyPEM
                     && (m.routeKey == "domain:" + row.domain || m.routeKey == "domain:" + NormalizeDomain(host)))
  {
    hide UpstreamsOf, RowsOf, Serves, NormalizeDomain, DomainPatternMatches, EqualFold, Like, TrimSpace, ToLower;
    if host != "" && a.exact.Some? && UpstreamsOf(db, a.exact.value) != [] {
      row := a.exact.value;
    } else if host != "" && a.pattern.Some? && UpstreamsOf(db, a.pattern.value) != [] {
      row := a.pattern.value;
    } else {
      row := a.path.value;
    }
    rows := UpstreamsMeaning(db, row);
  }

  // ----- both together

  /** Tables that are well formed can always be loaded. */
  lemma WellFormedLoads(re: Regexps, db: Database)
    requires WellFormed(re, db)
    ensures AllCompile(re, ListedRows(db))
  {
    hide Compiles, NormalizeResolverDomain, ToLower, EqualFold, ListedRows;
    ListedMembers(db);
    forall row | row in ListedRows(db)
      ensures Compiles(re, row)
    {
      assert IsPathRow(row) ==> Compiles(re, row) by { PathsCompile(re, row); }
    }
  }

  lemma PathsCompile(re: Regexps, row: RouteRow)
    ensures IsPathRow(row) ==> Compiles(re, row)
  {
  }

  /** From the tables to the answer: a reload succeeds, and the resolver then gives to a request whatever
      the queries could give. */
  method ReloadAndResolve(resolver: RouteResolver, re: Regexps, db: Database, host: string, path: string)
    returns (ok: bool, r: Option<RouteMatch>)
    requires DistinctIds(db.routes) && WellFormed(re, db)
    modifies resolver
    ensures ok
    ensures PlainRequest(db, host, path) ==> forall a :: MayAnswer(re, db, host, path, a) ==> r == GetRouteTargets(db, host, path, a)
    ensures PlainRequest(db, host, path) && r.Some? ==>
              r.value.targets != [] && exists row, rows :: row in db.routes && row.active && RowsOf(db, row.id, rows) && Serves(r.value.targets, row, rows)
  {
    hide WellFormed, PlainRequest, MayAnswer, ResolveIn, BuildSnapshot, GetRouteTargets, AllCompile, DistinctIds, RowsOf, Serves;
    WellFormedLoads(re, db);
    ok := resolver.Reload(re, db);
    r := resolver.Resolve(re, host, path);
    if PlainRequest(db, host, path) {
      forall a | MayAnswer(re, db, host, path, a)
        ensures r == GetRouteTargets(db, host, path, a)
      {
        IndexRefinesLookup(re, db, host, path, a);
      }
      if r.Some? {
        ghost var a := AnswersExist(re, db, host, path);
        ghost var row, rows := MatchMeaning(re, db, host, path, a);
        assert row in db.routes && row.active && RowsOf(db, row.id, rows) && Serves(r.value.targets, row, rows);
      }
    }
  }
}
