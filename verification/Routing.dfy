/** The two route lookups: GetRouteTargets of internal/database/database.go, which asks the database
    for every request, and the preloaded RouteResolver of internal/database/route_resolver.go. */
module Routing {
  import opened Strings
  import opened Listing
  import Glob

  datatype RouteTarget = RouteTarget(url: string, healthCheck: string)

  datatype RouteRow = RouteRow(
    id: int,
    routeType: string,
    domain: string,
    pathPrefix: string,
    targetURL: string,
    certificatePEM: string,
    privateKeyPEM: string,
    active: bool)

  datatype TargetRow = TargetRow(id: int, routeID: int, url: string, healthCheck: string, sortOrder: int)

  /** The tables routes and route_targets, in any physical order. */
  datatype Database = Database(routes: seq<RouteRow>, targets: seq<TargetRow>)

  datatype RouteMatch = RouteMatch(routeKey: string, targets: seq<RouteTarget>, certificatePEM: string, privateKeyPEM: string)

  /** The regular-expression library: which expressions compile, and what they match. */
  datatype Regexps = Regexps(compiles: string -> bool, matches: (string, string) -> bool)

  const DOMAIN := "domain"
  const WILDCARD := "wildcard"
  const REGEX := "regex"
  const PATH := "path"

  predicate IsHostRow(row: RouteRow) {
    row.active && (row.routeType == DOMAIN || row.routeType == WILDCARD || row.routeType == REGEX)
  }

  predicate IsDomainRow(row: RouteRow) {
    row.active && row.routeType == DOMAIN
  }

  predicate IsPathRow(row: RouteRow) {
    row.active && row.routeType == PATH
  }

  // ----- host names

  function LastIndexOf(s: string, c: char): int {
    if s == "" then -1 else if s[|s| - 1] == c then |s| - 1 else LastIndexOf(s[..|s| - 1], c)
  }

  lemma {:induction false} LastIndexFound(s: string, c: char)
    ensures -1 <= LastIndexOf(s, c) < |s|
    ensures LastIndexOf(s, c) < 0 <==> c !in s
  {
    if s != "" {
      LastIndexFound(s[..|s| - 1], c);
      assert s == s[..|s| - 1] + [s[|s| - 1]];
    }
  }

  /** The host of net.SplitHostPort, or nothing where that reports an error. */
  function SplitHostPort(s: string): Option<string> {
    LastIndexFound(s, ':');
    var i := LastIndexOf(s, ':');
    if i < 0 then
      None
    else if s[0] == '[' then
      var end := Index(s, "]");
      if end < 1 || end + 1 != i || '[' in s[1..] || ']' in s[end + 1..] then None else Some(s[1..end])
    else
      if ':' in s[..i] || '[' in s || ']' in s then None else Some(s[..i])
  }

  function NormalizeDomain(domain: string): string {
    var trimmed := TrimSpace(domain);
    var host := match SplitHostPort(trimmed)
                case Some(host) => host
                case None => TrimPrefix(TrimSuffix(trimmed, "]"), "[");
    ToLower(TrimSuffix(host, "."))
  }

  function NormalizeResolverDomain(domain: string): string {
    var trimmed := TrimSpace(domain);
    if ':' in trimmed || HasPrefix(trimmed, "[") then
      NormalizeDomain(trimmed)
    else
      ToLower(TrimSuffix(trimmed, "."))
  }

  /** A host name that ends in a bracket without being an address literal. */
  predicate BareBracket(domain: string) {
    var trimmed := TrimSpace(domain);
    ':' !in trimmed && !HasPrefix(trimmed, "[") && HasSuffix(trimmed, "]")
  }

  lemma TrimIdempotent(s: string)
    ensures TrimSpace(TrimSpace(s)) == TrimSpace(s)
  {
    var left := TrimLeft(s, IsSpace);
    var t := TrimRight(left, IsSpace);
    if t != "" {
      assert t[0] == left[0];
      TrimNothing(t, IsSpace);
    }
  }

  /** The shortcut of the resolver normalises a host exactly as the lookup does, unless the host ends
      in a bare bracket. */
  lemma NormalizersAgree(domain: string)
    ensures NormalizeResolverDomain(domain) == NormalizeDomain(domain) <==> !BareBracket(domain)
  {
    var trimmed := TrimSpace(domain);
    TrimIdempotent(domain);
    if ':' !in trimmed && !HasPrefix(trimmed, "[") {
      LastIndexFound(trimmed, ':');
      if HasSuffix(trimmed, "]") {
        var rest := TrimSuffix(trimmed, "]");
        assert !HasPrefix(rest, "[");
        assert |ToLower(TrimSuffix(rest, "."))| < |trimmed|;
        assert TrimSuffix(trimmed, ".") == trimmed;
      }
    }
  }

  lemma NormalizedIsLower(domain: string)
    ensures ToLower(NormalizeDomain(domain)) == NormalizeDomain(domain)
    ensures ToLower(NormalizeResolverDomain(domain)) == NormalizeResolverDomain(domain)
  {
    var trimmed := TrimSpace(domain);
    ToLowerIdempotent(TrimSuffix(trimmed, "."));
    LowerOnce(domain);
    LowerOnce(trimmed);
  }

  lemma LowerOnce(domain: string)
    ensures ToLower(NormalizeDomain(domain)) == NormalizeDomain(domain)
  {
    var trimmed := TrimSpace(domain);
    var host := match SplitHostPort(trimmed)
                case Some(host) => host
                case None => TrimPrefix(TrimSuffix(trimmed, "]"), "[");
    ToLowerIdempotent(TrimSuffix(host, "."));
  }

  // ----- what normalising a host does

  predicate IsHostChar(c: char) {
    c != ':' && c != '[' && c != ']' && !IsSpace(c)
  }

  /** A name or a dotted address, without a port. */
  ghost predicate IsHostName(s: string) {
    s != "" && forall i :: 0 <= i < |s| ==> IsHostChar(s[i])
  }

  lemma NameHasNoColon(s: string)
    requires IsHostName(s)
    ensures ':' !in s && '[' !in s && ']' !in s && TrimSpace(s) == s
  {
    assert IsHostChar(s[0]) && IsHostChar(s[|s| - 1]);
    TrimNothing(s, IsSpace);
    forall c | c in s
      ensures IsHostChar(c)
    {
      var i :| 0 <= i < |s| && s[i] == c;
    }
  }

  lemma {:induction false} LastIndexIs(s: string, c: char, t: string)
    requires c !in t
    ensures LastIndexOf(s + [c] + t, c) == |s|
    decreases |t|
  {
    var whole := s + [c] + t;
    if t == "" {
      assert whole[|whole| - 1] == c;
    } else {
      var init := t[..|t| - 1];
      assert whole[|whole| - 1] == t[|t| - 1] && t[|t| - 1] in t;
      assert whole[..|whole| - 1] == s + [c] + init;
      assert forall i :: 0 <= i < |init| ==> init[i] == t[i] && t[i] in t;
      LastIndexIs(s, c, init);
    }
  }

  /** A host name loses its final dot and its upper case, and a port if it has one; nothing is left of a port
      alone. */
  lemma NormalizedName(host: string, port: string)
    requires (host == "" || IsHostName(host)) && (port == "" || IsHostName(port))
    ensures NormalizeDomain(host) == ToLower(TrimSuffix(host, "."))
    ensures NormalizeDomain(host + ":" + port) == ToLower(TrimSuffix(host, "."))
  {
    NormalizedBare(host);
    NormalizedPort(host, port);
  }

  lemma NormalizedBare(host: string)
    requires host == "" || IsHostName(host)
    ensures NormalizeDomain(host) == ToLower(TrimSuffix(host, "."))
  {
    hide ToLower, IsHostName, TrimSpace, LastIndexOf, Index;
    PlainName(host);
    LastIndexFound(host, ':');
    BareName(host);
  }

  lemma PlainName(host: string)
    requires host == "" || IsHostName(host)
    ensures TrimSpace(host) == host && ':' !in host && '[' !in host && ']' !in host
  {
    hide TrimSpace, IsHostName;
    if host == "" {
      NothingTrims();
    } else {
      NameHasNoColon(host);
    }
  }

  lemma NormalizedPort(host: string, port: string)
    requires (host == "" || IsHostName(host)) && (port == "" || IsHostName(port))
    ensures NormalizeDomain(host + ":" + port) == ToLower(TrimSuffix(host, "."))
  {
    hide ToLower, IsHostName, TrimSpace, SplitHostPort, LastIndexOf;
    PlainName(host);
    PlainName(port);
    PortTrims(host, port);
    LastIndexIs(host, ':', port);
    assert host + ":" + port == host + [':'] + port;
    SplitsAtPort(host, port);
  }

  /** An address with several colons is no name with a port, even without brackets. */
  lemma NormalizedColons(a: string, b: string)
    requires IsBracketed(a + ":" + b) && ':' in a && ':' !in b
    ensures NormalizeDomain(a + ":" + b) == ToLower(TrimSuffix(a + ":" + b, "."))
  {
    hide ToLower, LastIndexOf, Index;
    var s := a + ":" + b;
    LastIndexIs(a, ':', b);
    assert s == a + [':'] + b && s[..|a|] == a;
    TrimNothing(s, IsSpace);
    assert s[0] != '[' && s[|s| - 1] != ']';
  }

  lemma BareName(host: string)
    requires host == "" || IsHostName(host)
    ensures TrimPrefix(TrimSuffix(host, "]"), "[") == host
  {
    if host != "" {
      assert IsHostChar(host[0]) && IsHostChar(host[|host| - 1]);
    }
  }

  lemma PortTrims(host: string, port: string)
    requires (host == "" || IsHostName(host)) && (port == "" || IsHostName(port))
    ensures TrimSpace(host + ":" + port) == host + ":" + port
  {
    var whole := host + ":" + port;
    if host != "" {
      assert IsHostChar(host[0]) && whole[0] == host[0];
    }
    if port != "" {
      assert IsHostChar(port[|port| - 1]) && whole[|whole| - 1] == port[|port| - 1];
    }
    TrimNothing(whole, IsSpace);
  }

  lemma SplitsAtPort(host: string, port: string)
    requires (host == "" || IsHostName(host)) && LastIndexOf(host + ":" + port, ':') == |host|
    requires ':' !in host && '[' !in host && ']' !in host && '[' !in port && ']' !in port
    ensures SplitHostPort(host + ":" + port) == Some(host)
  {
    hide LastIndexOf, Index, IsHostName;
    var whole := host + ":" + port;
    assert whole[..|host|] == host;
    forall i | 0 <= i < |whole|
      ensures whole[i] != '[' && whole[i] != ']'
    {
      if i < |host| {
        assert whole[i] == host[i] && host[i] in host;
      } else if i > |host| {
        assert whole[i] == port[i - |host| - 1] && port[i - |host| - 1] in port;
      }
    }
    assert whole[0] != '[';
  }

  /** What may stand in brackets: an address with colons in it. */
  ghost predicate IsBracketed(s: string) {
    forall i :: 0 <= i < |s| ==> s[i] != '[' && s[i] != ']' && !IsSpace(s[i])
  }

  /** An address in brackets loses them, and a port if it has one. */
  lemma NormalizedAddress(address: string, port: string)
    requires IsBracketed(address) && (port == "" || IsHostName(port))
    ensures NormalizeDomain("[" + address + "]:" + port) == ToLower(TrimSuffix(address, "."))
    ensures NormalizeDomain("[" + address + "]") == ToLower(TrimSuffix(address, "."))
  {
    hide ToLower, IsHostName, TrimSpace, SplitHostPort, IsBracketed;
    BracketsTrim(address, port);
    SplitsInBrackets(address, port);
    NoPortInBrackets(address);
    assert ("[" + address + "]")[..|address| + 1] == "[" + address;
    assert ("[" + address)[1..] == address;
  }

  lemma BracketsTrim(address: string, port: string)
    requires port == "" || IsHostName(port)
    ensures TrimSpace("[" + address + "]:" + port) == "[" + address + "]:" + port
    ensures TrimSpace("[" + address + "]") == "[" + address + "]"
  {
    var whole := "[" + address + "]:" + port;
    if port != "" {
      assert IsHostChar(port[|port| - 1]) && whole[|whole| - 1] == port[|port| - 1];
    }
    TrimNothing(whole, IsSpace);
    TrimNothing("[" + address + "]", IsSpace);
  }

  lemma ClosingBracket(address: string, rest: string)
    requires IsBracketed(address)
    ensures Index("[" + address + "]" + rest, "]") == |address| + 1
  {
    hide Index, OccursAt;
    var whole := "[" + address + "]" + rest;
    forall j: nat | j <= |address|
      ensures !OccursAt(whole, [']'], j)
    {
      OccursChar(whole, ']', j);
      assert whole[j] == if j == 0 then '[' else address[j - 1];
    }
    OccursChar(whole, ']', |address| + 1);
    IndexIsFirst(whole, [']'], |address| + 1);
  }

  lemma SplitsInBrackets(address: string, port: string)
    requires IsBracketed(address) && (port == "" || IsHostName(port))
    ensures SplitHostPort("[" + address + "]:" + port) == Some(address)
  {
    hide Index, LastIndexOf;
    var whole := "[" + address + "]:" + port;
    if port != "" {
      NameHasNoColon(port);
    }
    LastIndexIs("[" + address + "]", ':', port);
    assert whole == "[" + address + "]" + [':'] + port;
    ClosingBracket(address, ":" + port);
    assert whole == "[" + address + "]" + (":" + port);
    assert whole[1..|address| + 1] == address;
    forall i | 1 <= i < |whole|
      ensures whole[i] != '[' && (i > |address| + 1 ==> whole[i] != ']')
    {
      if i <= |address| {
        assert whole[i] == address[i - 1];
      } else if i > |address| + 2 {
        assert whole[i] == port[i - |address| - 3] && port[i - |address| - 3] in port;
      }
    }
  }

  lemma NoPortInBrackets(address: string)
    requires IsBracketed(address)
    ensures SplitHostPort("[" + address + "]") == None
  {
    hide Index, LastIndexOf;
    var whole := "[" + address + "]";
    ClosingBracket(address, "");
    assert whole + "" == whole;
    LastIndexFound(whole, ':');
  }

  /** White space around a host does not matter. */
  lemma NormalizedTrims(host: string)
    ensures NormalizeDomain(TrimSpace(host)) == NormalizeDomain(host)
  {
    hide SplitHostPort;
    TrimIdempotent(host);
  }

  // ----- the lookup by query

  /** SQLite's LIKE: `%` is any text, `_` any character, letters match in either case. */
  ghost predicate Like(text: string, pattern: string)
    decreases |pattern|
  {
    if pattern == "" then
      text == ""
    else if pattern[0] == '%' then
      exists k :: 0 <= k <= |text| && Like(text[k..], pattern[1..])
    else
      && text != ""
      && (pattern[0] == '_' || LowerChar(pattern[0]) == LowerChar(text[0]))
      && Like(text[1..], pattern[1..])
  }

  /** A prefix without LIKE's wildcards matches the texts that begin with it in some case. */
  lemma {:induction false} LikePrefix(text: string, prefix: string)
    requires '%' !in prefix && '_' !in prefix
    ensures Like(text, prefix + "%") <==> |prefix| <= |text| && EqualFold(text[..|prefix|], prefix)
    decreases |prefix|
  {
    var pattern := prefix + "%";
    if prefix == "" {
      assert pattern[1..] == "" && Like(text[|text|..], "");
    } else if text != "" {
      assert pattern[1..] == prefix[1..] + "%" && pattern[0] == prefix[0];
      LikePrefix(text[1..], prefix[1..]);
      if |prefix| <= |text| {
        assert text[..|prefix|][1..] == text[1..][..|prefix[1..]|];
      }
    }
  }

  /** The query finds every path route that the resolver finds, whatever its prefix looks like. */
  lemma {:induction false} PrefixIsLike(text: string, prefix: string)
    requires HasPrefix(text, prefix)
    ensures Like(text, prefix + "%")
    decreases |prefix|
  {
    var pattern := prefix + "%";
    if prefix == "" {
      assert pattern[1..] == "" && Like(text[|text|..], "");
    } else {
      assert pattern[0] == prefix[0] == text[0] && pattern[1..] == prefix[1..] + "%";
      PrefixIsLike(text[1..], prefix[1..]);
      if prefix[0] == '%' {
        assert Like(text[1..], pattern[1..]);
      }
    }
  }

  /** What LIKE does not take literally: its wildcards, and letters, whose case it ignores. */
  predicate IsLoose(c: char) {
    c == '%' || c == '_' || LowerChar(c) != c || UpperChar(c) != c
  }

  predicate Stands(c: char, d: char) {
    c == '%' || c == '_' || LowerChar(c) == LowerChar(d)
  }

  /** A loose character may be replaced without LIKE noticing. */
  lemma {:induction false} LikeReplaced(prefix: string, i: nat, d: char)
    requires i < |prefix| && Stands(prefix[i], d)
    ensures Like(prefix[i := d], prefix + "%")
    decreases i
  {
    var text, pattern := prefix[i := d], prefix + "%";
    assert pattern[0] == prefix[0] && pattern[1..] == prefix[1..] + "%";
    assert Like(text[1..], pattern[1..]) by {
      if i == 0 {
        assert text[1..] == prefix[1..];
        PrefixIsLike(text[1..], prefix[1..]);
      } else {
        assert text[1..] == prefix[1..][i - 1 := d];
        LikeReplaced(prefix[1..], i - 1, d);
      }
    }
  }

  function Another(c: char): char {
    if LowerChar(c) != c then LowerChar(c) else if UpperChar(c) != c then UpperChar(c) else 'x'
  }

  lemma AnotherStands(c: char)
    requires IsLoose(c)
    ensures Another(c) != c && Stands(c, Another(c))
  {
  }

  /** A case variant of a text without letters is that text. */
  lemma {:induction false} FoldIsEqual(s: string, t: string)
    requires EqualFold(s, t) && forall i :: 0 <= i < |t| ==> !IsLoose(t[i])
    ensures s == t
  {
    assert |s| == |ToLower(s)| == |t|;
    forall i | 0 <= i < |s|
      ensures s[i] == t[i]
    {
      assert ToLower(s)[i] == LowerChar(s[i]) && ToLower(t)[i] == LowerChar(t[i]);
      assert !IsLoose(t[i]);
    }
  }

  ghost predicate TestsAgree(prefix: string) {
    forall path :: Like(path, prefix + "%") <==> HasPrefix(path, prefix)
  }

  /** The query and the resolver find a path route for the same requests exactly when its prefix has no
      wildcard and no letter in it. */
  lemma TestsAgreeExactly(prefix: string)
    ensures TestsAgree(prefix) <==> forall i :: 0 <= i < |prefix| ==> !IsLoose(prefix[i])
  {
    hide ToLower, Like;
    if i :| 0 <= i < |prefix| && IsLoose(prefix[i]) {
      var text := prefix[i := Another(prefix[i])];
      AnotherStands(prefix[i]);
      LikeReplaced(prefix, i, Another(prefix[i]));
      assert Like(text, prefix + "%") && text[i] != prefix[i];
    } else {
      forall path
        ensures Like(path, prefix + "%") <==> HasPrefix(path, prefix)
      {
        LikePrefix(path, prefix);
        if HasPrefix(path, prefix) {
          PrefixIsLike(path, prefix);
        } else if |prefix| <= |path| && EqualFold(path[..|prefix|], prefix) {
          FoldIsEqual(path[..|prefix|], prefix);
        }
      }
    }
  }

  /** For one request and a prefix without wildcards they differ exactly when the path begins with the
      prefix in another case. */
  lemma TestsAgreeOnPath(path: string, prefix: string)
    requires '%' !in prefix && '_' !in prefix
    ensures (Like(path, prefix + "%") <==> HasPrefix(path, prefix)) <==>
            !(|prefix| <= |path| && EqualFold(path[..|prefix|], prefix) && path[..|prefix|] != prefix)
  {
    hide ToLower, Like;
    LikePrefix(path, prefix);
  }

  /** So `/a` is found by the query for the prefix `/A`, and `/x` for the prefix `/_`. */
  lemma LikeIsWider()
    ensures Like("/a", "/A" + "%") && !HasPrefix("/a", "/A")
    ensures Like("/x", "/_" + "%") && !HasPrefix("/x", "/_")
  {
    hide Like;
    LikeReplaced("/A", 1, 'a');
    LikeReplaced("/_", 1, 'x');
    assert "/A"[1 := 'a'] == "/a" && "/_"[1 := 'x'] == "/x";
  }

  predicate RegexMatch(re: Regexps, pattern: string, domain: string) {
    re.compiles(pattern) && re.matches(pattern, domain)
  }

  predicate DomainPatternMatches(re: Regexps, routeType: string, pattern: string, domain: string) {
    var p := ToLower(TrimSpace(pattern));
    if routeType == REGEX then
      RegexMatch(re, p, domain)
    else if HasPrefix(p, "regex:") then
      RegexMatch(re, TrimPrefix(p, "regex:"), domain)
    else if HasPrefix(p, "~") then
      RegexMatch(re, TrimPrefix(p, "~"), domain)
    else
      (routeType == WILDCARD || '*' in p) && Glob.Accepts(p, domain)
  }

  /** The rows each of the three queries may return, and the order they are returned in. */
  function ExactTest(domain: string): RouteRow -> bool {
    (row: RouteRow) => IsDomainRow(row) && EqualFold(row.domain, domain)
  }

  function PatternTest(re: Regexps, domain: string): RouteRow -> bool {
    (row: RouteRow) =>
      IsHostRow(row) && row.domain != "" && !EqualFold(row.domain, domain) &&
      DomainPatternMatches(re, row.routeType, row.domain, domain)
  }

  ghost function PathTest(path: string): RouteRow -> bool {
    (row: RouteRow) => IsPathRow(row) && Like(path, row.pathPrefix + "%")
  }

  predicate AnyOrder(a: RouteRow, b: RouteRow) {
    false
  }

  predicate LongerDomain(a: RouteRow, b: RouteRow) {
    |a.domain| > |b.domain| || (|a.domain| == |b.domain| && a.id < b.id)
  }

  predicate LongerPrefix(a: RouteRow, b: RouteRow) {
    |a.pathPrefix| > |b.pathPrefix|
  }

  function ToTarget(t: TargetRow): RouteTarget {
    RouteTarget(t.url, if t.healthCheck == "" then "http" else t.healthCheck)
  }

  function OfRoute(id: int): TargetRow -> bool {
    (t: TargetRow) => t.routeID == id
  }

  predicate TargetBefore(a: TargetRow, b: TargetRow) {
    a.sortOrder < b.sortOrder || (a.sortOrder == b.sortOrder && a.id < b.id)
  }

  function WithFallback(targets: seq<RouteTarget>, fallbackURL: string): seq<RouteTarget> {
    if targets == [] && fallbackURL != "" then [RouteTarget(fallbackURL, "http")] else targets
  }

  /** loadRouteTargets, with the route's own URL when it has no target rows. */
  function UpstreamsOf(db: Database, row: RouteRow): seq<RouteTarget> {
    WithFallback(Map(Sort(Filter(db.targets, OfRoute(row.id)), TargetBefore), ToTarget), row.targetURL)
  }

  /** A result each of the queries may give: where the query leaves the order open, any. */
  datatype Answers = Answers(exact: Option<RouteRow>, pattern: Option<RouteRow>, path: Option<RouteRow>)

  ghost predicate MayAnswer(re: Regexps, db: Database, host: string, path: string, a: Answers) {
    var domain := NormalizeDomain(host);
    && IsChoice(db.routes, ExactTest(domain), AnyOrder, a.exact)
    && IsChoice(db.routes, PatternTest(re, ToLower(TrimSpace(domain))), LongerDomain, a.pattern)
    && IsChoice(db.routes, PathTest(path), LongerPrefix, a.path)
  }

  /** GetRouteTargets, given what its queries answered. */
  function GetRouteTargets(db: Database, host: string, path: string, a: Answers): Option<RouteMatch> {
    if host != "" && a.exact.Some? && UpstreamsOf(db, a.exact.value) != [] then
      var row := a.exact.value;
      Some(RouteMatch("domain:" + NormalizeDomain(host), UpstreamsOf(db, row), row.certificatePEM, row.privateKeyPEM))
    else if host != "" && a.pattern.Some? && UpstreamsOf(db, a.pattern.value) != [] then
      var row := a.pattern.value;
      Some(RouteMatch("domain:" + row.domain, UpstreamsOf(db, row), row.certificatePEM, row.privateKeyPEM))
    else if path != "" && a.path.Some? && UpstreamsOf(db, a.path.value) != [] then
      Some(RouteMatch("path:" + a.path.value.pathPrefix, UpstreamsOf(db, a.path.value), "", ""))
    else
      None
  }

  // ----- the preloaded snapshot

  datatype Matcher = NoMatcher | Wildcard(pattern: string) | Regex(pattern: string)

  datatype CachedRoute = CachedRoute(row: RouteRow, normalizedHost: string, matcher: Matcher, targets: seq<RouteTarget>)

  datatype Snapshot = Snapshot(
    exactDomains: map<string, CachedRoute>,
    patterns: seq<CachedRoute>,
    paths: seq<CachedRoute>)

  function CompileMatcher(re: Regexps, routeType: string, domain: string): Option<Matcher> {
    var p := ToLower(TrimSpace(domain));
    if routeType == REGEX then
      CompileRegex(re, p)
    else if HasPrefix(p, "regex:") then
      CompileRegex(re, TrimPrefix(p, "regex:"))
    else if HasPrefix(p, "~") then
      CompileRegex(re, TrimPrefix(p, "~"))
    else if (routeType == WILDCARD || '*' in p) && p != "" then
      Some(Wildcard(p))
    else
      Some(NoMatcher)
  }

  function CompileRegex(re: Regexps, pattern: string): Option<Matcher> {
    if re.compiles(pattern) then Some(Regex(pattern)) else None
  }

  /** A row can be loaded unless it is for an expression, by its type or by how it begins, that does not
      compile. */
  lemma CompilesMeaning(re: Regexps, row: RouteRow)
    requires !IsPathRow(row)
    ensures var p := ToLower(TrimSpace(row.domain));
            Compiles(re, row) <==>
            if row.routeType == "regex" then re.compiles(p)
            else if "regex:" <= p then re.compiles(p[6..])
            else if "~" <= p then re.compiles(p[1..])
            else true
  {
    hide ToLower, TrimSpace;
  }

  predicate Matches(re: Regexps, m: Matcher, domain: string) {
    match m
    case NoMatcher => false
    case Wildcard(p) => Glob.Accepts(p, domain)
    case Regex(p) => re.matches(p, domain)
  }

  predicate ById(a: RouteRow, b: RouteRow) {
    a.id < b.id
  }

  /** The rows that loading asks for. */
  predicate IsListed(row: RouteRow) {
    row.active && row.routeType in {"domain", "wildcard", "regex", "path"}
  }

  function ListedRows(db: Database): seq<RouteRow> {
    Sort(Filter(db.routes, IsListed), ById)
  }

  /** Every listed host row has a matcher. */
  predicate Compiles(re: Regexps, row: RouteRow) {
    IsPathRow(row) || CompileMatcher(re, row.routeType, row.domain).Some?
  }

  /** A row as first read, without its targets. */
  function ReadRow(re: Regexps, row: RouteRow): (c: CachedRoute)
    ensures c.row == row && c.targets == []
  {
    if row.routeType == PATH then
      CachedRoute(row, "", NoMatcher, [])
    else
      var matcher := match CompileMatcher(re, row.routeType, row.domain) case Some(m) => m case None => NoMatcher;
      CachedRoute(row, NormalizeResolverDomain(row.domain), matcher, [])
  }

  predicate RouteThenTarget(a: TargetRow, b: TargetRow) {
    a.routeID < b.routeID || (a.routeID == b.routeID && TargetBefore(a, b))
  }

  predicate HasListedRoute(db: Database, t: TargetRow) {
    exists row :: row in db.routes && row.id == t.routeID && IsListed(row)
  }

  function Joined(db: Database): TargetRow -> bool {
    (t: TargetRow) => HasListedRoute(db, t)
  }

  function JoinedTargets(db: Database): seq<TargetRow> {
    Sort(Filter(db.targets, Joined(db)), RouteThenTarget)
  }

  predicate IsPattern(c: CachedRoute) {
    c.row.routeType != PATH && (c.row.routeType == DOMAIN || c.row.domain != "") && c.matcher != NoMatcher
  }

  predicate IsPath(c: CachedRoute) {
    c.row.routeType == PATH
  }

  function AddExact(m: map<string, CachedRoute>, c: CachedRoute): map<string, CachedRoute> {
    if c.row.routeType == DOMAIN && c.normalizedHost != "" && c.normalizedHost !in m then
      m[c.normalizedHost := c]
    else
      m
  }

  predicate PatternBefore(a: CachedRoute, b: CachedRoute) {
    LongerDomain(a.row, b.row)
  }

  predicate PathBefore(a: CachedRoute, b: CachedRoute) {
    LongerPrefix(a.row, b.row) || (|a.row.pathPrefix| == |b.row.pathPrefix| && a.row.id < b.row.id)
  }

  // ----- resolving against a snapshot

  function PatternHit(re: Regexps, domain: string): CachedRoute -> bool {
    (c: CachedRoute) => !EqualFold(c.row.domain, domain) && Matches(re, c.matcher, domain)
  }

  function PathHit(path: string): CachedRoute -> bool {
    (c: CachedRoute) => HasPrefix(path, c.row.pathPrefix)
  }

  function ResolveIn(re: Regexps, snap: Snapshot, host: string, path: string): Option<RouteMatch> {
    var domain := NormalizeResolverDomain(host);
    var pattern, prefix := First(snap.patterns, PatternHit(re, domain)), First(snap.paths, PathHit(path));
    if host != "" && domain in snap.exactDomains && snap.exactDomains[domain].targets != [] then
      DomainMatch(snap.exactDomains[domain], "domain:" + snap.exactDomains[domain].normalizedHost)
    else if host != "" && pattern.Some? && pattern.value.targets != [] then
      DomainMatch(pattern.value, "domain:" + pattern.value.row.domain)
    else if path != "" && prefix.Some? && prefix.value.targets != [] then
      Some(RouteMatch("path:" + prefix.value.row.pathPrefix, prefix.value.targets, "", ""))
    else
      None
  }

  function DomainMatch(c: CachedRoute, key: string): Option<RouteMatch> {
    Some(RouteMatch(key, c.targets, c.row.certificatePEM, c.row.privateKeyPEM))
  }
}
