/** The proxy handler of internal/balancer/balancer.go: one upstream attempt after another, behind a
    writer that holds an error response back until it is certain that it is the one to send. */
module Failover {
  import opened Strings
  import opened Listing
  import Health

  const MAX_RETRY_RESPONSE_BYTES: nat := 0x10_0000
  const INTERNAL_SERVER_ERROR := 500

  type Header = seq<(string, string)>

  /** What one attempt comes to: the target's address does not parse, the transport or the response
      hook fails before anything is written, or a response arrives in pieces. */
  datatype Outcome =
    | BadAddress
    | TransportError
    | Response(status: int, header: Header, chunks: seq<string>)

  /** The world at one attempt: which targets are healthy then, the route's counter, and the outcome. */
  datatype Attempt = Attempt(healthy: set<string>, counter: nat, outcome: Outcome)

  datatype ServeError = NoHealthyTargets | AttemptFailed(outcome: Outcome)

  datatype Result = Done | Failed(error: ServeError)

  function Concat(chunks: seq<string>): string {
    if chunks == [] then "" else Concat(chunks[..|chunks| - 1]) + chunks[|chunks| - 1]
  }

  lemma ConcatNext(chunks: seq<string>, i: nat)
    requires i < |chunks|
    ensures Concat(chunks[..i + 1]) == Concat(chunks[..i]) + chunks[i]
  {
    assert chunks[..i + 1][..i] == chunks[..i];
  }

  // ----- the client's side

  /** Everything the client is sent, in order. */
  datatype Sent = Sent(header: Header, statuses: seq<int>, body: string)

  class ClientWriter {
    var header: Header
    var statuses: seq<int>
    var body: string

    ghost function Output(): Sent
      reads this
    {
      Sent(header, statuses, body)
    }

    method AddHeader(fields: Header)
      modifies this`header
      ensures header == old(header) + fields
    {
      header := header + fields;
    }

    method WriteHeader(status: int)
      modifies this`statuses
      ensures statuses == old(statuses) + [status]
    {
      statuses := statuses + [status];
    }

    method Write(p: string)
      modifies this`body
      ensures body == old(body) + p
    {
      body := body + p;
    }
  }

  // ----- the writer in between

  /** What the client has been sent once a response with this header, status and body so far has gone
      out, after what was sent before. */
  function Relayed(before: Sent, header: Header, status: int, body: string): Sent {
    Sent(before.header + header, before.statuses + [status], before.body + body)
  }

  /** An error response that is still small enough to be thrown away. */
  predicate HeldBack(status: int, body: string, limit: nat) {
    status >= INTERNAL_SERVER_ERROR && (limit == 0 || |body| <= limit)
  }

  class StreamWriter {
    const w: ClientWriter
    const bufferLimit: nat
    var header: Header
    var status: int
    var wroteHdr: bool
    var retry: bool
    var buf: string

    constructor (w: ClientWriter, bufferLimit: nat)
      ensures this.w == w && this.bufferLimit == bufferLimit
      ensures header == [] && !wroteHdr && !retry && buf == ""
    {
      this.w, this.bufferLimit := w, bufferLimit;
      header, status, wroteHdr, retry, buf := [], 0, false, false, "";
    }

    /** After the header and the bytes body: either the client has them all, or none and they are held. */
    ghost predicate Carries(before: Sent, h: Header, s: int, body: string)
      reads this, w
    {
      && wroteHdr && header == h && status == s
      && retry == HeldBack(s, body, bufferLimit)
      && (if retry then buf == body && w.Output() == before else w.Output() == Relayed(before, h, s, body))
    }

    method WriteHeader(statusCode: int)
      modifies this, w
      ensures header == old(header) && buf == old(buf)
      ensures old(wroteHdr) ==> w.Output() == old(w.Output()) && status == old(status) && retry == old(retry) && wroteHdr
      ensures !old(wroteHdr) && old(buf) == "" && !old(retry) ==> Carries(old(w.Output()), old(header), statusCode, "")
    {
      if wroteHdr {
        return;
      }
      wroteHdr := true;
      status := statusCode;
      if statusCode >= INTERNAL_SERVER_ERROR {
        retry := true;
        return;
      }
      w.AddHeader(header);
      w.WriteHeader(statusCode);
    }

    method Write(p: string, ghost before: Sent, ghost body: string)
      requires wroteHdr && Carries(before, header, status, body)
      modifies this, w
      ensures Carries(before, old(header), old(status), body + p)
    {
      if retry {
        if bufferLimit > 0 && |buf| + |p| > bufferLimit {
          FlushRetryTo(w);
          retry := false;
          w.Write(p);
          return;
        }
        buf := buf + p;
        return;
      }
      w.Write(p);
    }

    method FlushRetryTo(client: ClientWriter)
      modifies client, this`buf
      ensures client.Output() == Relayed(old(client.Output()), header, status, old(buf))
      ensures buf == ""
    {
      client.AddHeader(header);
      client.WriteHeader(status);
      client.Write(buf);
      buf := "";
    }
  }

  /** The reverse proxy: it reports an error without writing, or passes the response on piece by piece. */
  method ServeHTTP(out: StreamWriter, outcome: Outcome) returns (failed: bool)
    requires outcome != BadAddress
    requires out.header == [] && !out.wroteHdr && !out.retry && out.buf == ""
    modifies out, out.w
    ensures failed <==> outcome == TransportError
    ensures failed ==> out.w.Output() == old(out.w.Output())
    ensures !failed ==> out.Carries(old(out.w.Output()), outcome.header, outcome.status, Concat(outcome.chunks))
  {
    if outcome == TransportError {
      return true;
    }
    ghost var before := out.w.Output();
    out.header := outcome.header;
    out.WriteHeader(outcome.status);
    for i := 0 to |outcome.chunks|
      invariant out.Carries(before, outcome.header, outcome.status, Concat(outcome.chunks[..i]))
    {
      ConcatNext(outcome.chunks, i);
      out.Write(outcome.chunks[i], before, Concat(outcome.chunks[..i]));
    }
    assert outcome.chunks[..|outcome.chunks|] == outcome.chunks;
    failed := false;
  }

  // ----- the failover loop

  function Untried(tried: set<string>): string -> bool {
    (t: string) => t !in tried
  }

  function IsIn(healthy: set<string>): string -> bool {
    (t: string) => t in healthy
  }

  /** An attempt that leaves the next one to be made. */
  predicate Fails(o: Outcome) {
    !o.Response? || HeldBack(o.status, Concat(o.chunks), MAX_RETRY_RESPONSE_BYTES)
  }

  /** An attempt fails if there is no response to pass on: none at all, or an error of the upstream whose body
      is no longer than a mebibyte, and so can be held back whole. */
  lemma FailsMeaning(o: Outcome)
    ensures Fails(o) <==> match o
                          case BadAddress => true
                          case TransportError => true
                          case Response(status, _, chunks) => status >= 500 && |Concat(chunks)| <= 1048576
  {
  }

  lemma {:induction false} AllFailMeaning(world: nat -> Attempt, n: nat)
    ensures AllFail(world, n) <==> forall i :: 0 <= i < n ==> Fails(world(i).outcome)
  {
    hide Fails;
    if n > 0 {
      AllFailMeaning(world, n - 1);
    }
  }

  /** The first n attempts all fail. */
  predicate AllFail(world: nat -> Attempt, n: nat) {
    n == 0 || (AllFail(world, n - 1) && Fails(world(n - 1).outcome))
  }

  predicate IsFailoverSafeMethod(requestMethod: string) {
    requestMethod in ["GET", "HEAD", "OPTIONS", "TRACE"]
  }

  datatype Request = Request(requestMethod: string, hasBody: bool)

  /** Only a request that is safe to repeat fails over. */
  predicate MayRetry(r: Request) {
    IsFailoverSafeMethod(r.requestMethod) && !r.hasBody
  }

  ghost predicate Distinct(s: seq<string>) {
    forall i, j :: 0 <= i < j < |s| ==> s[i] != s[j]
  }

  ghost function Elements(s: seq<string>): set<string> {
    set t | t in s
  }

  lemma {:induction false} ElementsSize(s: seq<string>)
    ensures |Elements(s)| <= |s|
  {
    if s != [] {
      var init, last := s[..|s| - 1], s[|s| - 1];
      ElementsSize(init);
      assert Elements(s) == Elements(init) + {last};
    }
  }

  /** As many distinct targets as there are entries are all of them. */
  lemma NoneLeft(targets: seq<string>, tried: set<string>)
    requires tried <= Elements(targets) && |tried| >= |targets|
    ensures Elements(targets) <= tried
  {
    ElementsSize(targets);
    var rest := Elements(targets) - tried;
    assert Elements(targets) == tried + rest;
    assert rest == {};
  }

  lemma NoneDistinct()
    ensures Distinct([]) && Elements([]) == {}
  {
  }

  lemma AppendDistinct(tries: seq<string>, target: string)
    requires Distinct(tries) && target !in Elements(tries)
    ensures Distinct(tries + [target]) && Elements(tries + [target]) == Elements(tries) + {target}
  {
  }

  function IsLeft(tried: set<string>, healthy: set<string>): string -> bool {
    (t: string) => t !in tried && t in healthy
  }

  /** What round robin picks: among the targets that have not been tried and are healthy, in the order in
      which they are configured, the one at the place of the route's counter. */
  function RoundRobin(targets: seq<string>, tried: set<string>, now: Attempt): Option<string> {
    var left := Filter(targets, IsLeft(tried, now.healthy));
    if left == [] then None else Some(left[now.counter % |left|])
  }

  lemma {:induction false} UntriedAndHealthy(targets: seq<string>, tried: set<string>, healthy: set<string>)
    ensures Filter(targets, IsLeft(tried, healthy)) == Filter(Filter(targets, Untried(tried)), IsIn(healthy))
  {
    if targets != [] {
      UntriedAndHealthy(targets[1..], tried, healthy);
      var rest := Filter(targets[1..], Untried(tried));
      assert ([targets[0]] + rest)[1..] == rest;
    }
  }

  /** Pick among the targets not yet tried. */
  method Choose(targets: seq<string>, tried: set<string>, now: Attempt) returns (candidates: seq<string>, target: Option<string>)
    ensures candidates == Filter(targets, Untried(tried))
    ensures target.None? <==> Filter(candidates, IsIn(now.healthy)) == []
    ensures target.Some? ==> target.value in Elements(targets) - tried && target.value in now.healthy
    ensures target.Some? ==> target == RoundRobin(targets, tried, now)
  {
    candidates := Filter(targets, Untried(tried));
    var healthy := Filter(candidates, IsIn(now.healthy));
    if healthy == [] {
      return candidates, None;
    }
    UntriedAndHealthy(targets, tried, now.healthy);
    var t := healthy[now.counter % |healthy|];
    FilterMembers(targets, Untried(tried));
    FilterMembers(candidates, IsIn(now.healthy));
    assert t in healthy;
    target := Some(t);
  }

  /** One pass of the loop, once a target is chosen. */
  method TryTarget(client: ClientWriter, retryOnFailure: bool, outcome: Outcome) returns (served: bool)
    modifies client
    ensures !served ==> client.Output() == old(client.Output()) && Fails(outcome)
    ensures served ==>
      && outcome.Response? && (retryOnFailure ==> !Fails(outcome))
      && client.Output() == Relayed(old(client.Output()), outcome.header, outcome.status, Concat(outcome.chunks))
    ensures outcome.Response? && (!retryOnFailure || !Fails(outcome)) ==> served
  {
    if outcome == BadAddress {
      return false;
    }
    var out := new StreamWriter(client, MAX_RETRY_RESPONSE_BYTES);
    var failed := ServeHTTP(out, outcome);
    if failed {
      return false;
    }
    if out.retry {
      if !retryOnFailure {
        out.FlushRetryTo(client);
        return true;
      }
      return false;
    }
    served := true;
  }

  /** What a call of the handler made of the attempts it made. */
  ghost predicate Explained(before: Sent, after: Sent, retryOnFailure: bool, targets: seq<string>, world: nat -> Attempt, result: Result, tries: seq<string>)
  {
    match result
    case Done =>
      // Exactly one status line and one body, those of the last attempt; all before it failed.
      && |tries| > 0
      && AllFail(world, |tries| - 1)
      && var o := world(|tries| - 1).outcome;
      && o.Response? && (retryOnFailure ==> !Fails(o))
      && after == Relayed(before, o.header, o.status, Concat(o.chunks))
    case Failed(error) =>
      // Nothing has been sent, and every attempt failed.
      && after == before
      && AllFail(world, |tries|)
      && match error
         case NoHealthyTargets =>
           // There were none at all, or some are left to try and none of them is healthy.
           targets == [] ||
           var left := Filter(targets, Untried(Elements(tries)));
           left != [] && Filter(left, IsIn(world(|tries|).healthy)) == []
         case AttemptFailed(o) =>
           |tries| > 0 && o == world(|tries| - 1).outcome && (retryOnFailure ==> Elements(targets) == Elements(tries))
  }

  /** The handler, with the world at its i-th attempt given by world(i). Each target is tried at most
      once, and only one if the request must not be repeated. */
  method Serve(client: ClientWriter, request: Request, targets: seq<string>, world: nat -> Attempt)
    returns (result: Result, tries: seq<string>)
    modifies client
    ensures Distinct(tries) && Elements(tries) <= Elements(targets)
    ensures var again := !request.hasBody && request.requestMethod in {"GET", "HEAD", "OPTIONS", "TRACE"};
            && (!again ==> |tries| <= 1)
            && Explained(old(client.Output()), client.Output(), again, targets, world, result, tries)
    ensures forall i :: 0 <= i < |tries| ==> Some(tries[i]) == RoundRobin(targets, Elements(tries[..i]), world(i))
  {
    hide Fails, Relayed, Distinct, Concat, Filter, AllFail, Explained, Elements, RoundRobin;
    tries := [];
    var retryOnFailure := MayRetry(request);
    NoneDistinct();
    AllFailNone(world);
    if targets == [] {
      ExplainNobody(client.Output(), retryOnFailure, targets, world, tries);
      return Failed(NoHealthyTargets), tries;
    }
    var tried: set<string> := {};
    var lastErr: Option<Outcome> := None;
    while |tried| < |targets|
      invariant tried == Elements(tries) <= Elements(targets)
      invariant Distinct(tries) && |tries| == |tried|
      invariant !retryOnFailure ==> tries == []
      invariant client.Output() == old(client.Output())
      invariant AllFail(world, |tries|)
      invariant forall i :: 0 <= i < |tries| ==> Some(tries[i]) == RoundRobin(targets, Elements(tries[..i]), world(i))
      invariant lastErr == if tries == [] then None else Some(world(|tries| - 1).outcome)
      decreases |targets| - |tried|
    {
      var now := world(|tries|);
      var candidates, target := Choose(targets, tried, now);
      if candidates == [] {
        break;
      }
      if target.None? {
        ExplainNobody(client.Output(), retryOnFailure, targets, world, tries);
        return Failed(NoHealthyTargets), tries;
      }
      AppendDistinct(tries, target.value);
      TriesNext(targets, tries, target.value, world);
      tried := tried + {target.value};
      tries := tries + [target.value];
      var served := TryTarget(client, retryOnFailure, now.outcome);
      if served {
        ExplainDone(old(client.Output()), client.Output(), retryOnFailure, targets, world, tries);
        return Done, tries;
      }
      AllFailNext(world, |tries| - 1);
      lastErr := Some(now.outcome);
      if !retryOnFailure {
        ExplainFailed(client.Output(), retryOnFailure, targets, world, tries);
        return Failed(AttemptFailed(now.outcome)), tries;
      }
    }
    if |tried| >= |targets| {
      NoneLeft(targets, tried);
    } else {
      NoCandidates(targets, tried);
    }
    HasFirst(targets);
    ExplainFailed(client.Output(), retryOnFailure, targets, world, tries);
    return Failed(AttemptFailed(lastErr.value)), tries;
  }

  lemma TriesNext(targets: seq<string>, tries: seq<string>, target: string, world: nat -> Attempt)
    requires forall i :: 0 <= i < |tries| ==> Some(tries[i]) == RoundRobin(targets, Elements(tries[..i]), world(i))
    requires Some(target) == RoundRobin(targets, Elements(tries), world(|tries|))
    ensures var more := tries + [target];
            forall i :: 0 <= i < |more| ==> Some(more[i]) == RoundRobin(targets, Elements(more[..i]), world(i))
  {
    hide RoundRobin, Elements;
    var more := tries + [target];
    forall i | 0 <= i < |more|
      ensures Some(more[i]) == RoundRobin(targets, Elements(more[..i]), world(i))
    {
      assert more[..i] == tries[..i];
      assert tries[..|tries|] == tries;
    }
  }

  /** Over as many first tries as there are distinct healthy targets, the counter going up by one each time,
      each of them is tried first exactly once, unless the counter wraps unevenly. */
  lemma FirstTriesAreFair(targets: seq<string>, healthy: set<string>, count: nat, firsts: seq<string>, outcomes: nat -> Outcome)
    requires var left := Filter(targets, IsIn(healthy));
             && Health.Distinct(left) && 0 < |left| <= Health.COUNTER_RANGE && count < Health.COUNTER_RANGE
             && Health.WrapsEvenly(count, |left|) && |firsts| == |left|
    requires forall i :: 0 <= i < |firsts| ==>
               Some(firsts[i]) == RoundRobin(targets, {}, Attempt(healthy, (count + i) % Health.COUNTER_RANGE, outcomes(i)))
    ensures Distinct(firsts) && forall t :: t in targets && t in healthy ==> t in firsts
  {
    hide Health.WrapsEvenly, Health.Place, Health.Picks, Filter, RoundRobin, IsIn;
    var left := Filter(targets, IsIn(healthy));
    forall i | 0 <= i < |firsts|
      ensures firsts[i] == Health.Picks(count, left, |left|)[i]
    {
      FirstTry(targets, healthy, count, i, outcomes(i));
      Health.PickPlace(count, left, |left|, i);
    }
    assert firsts == Health.Picks(count, left, |left|);
    Health.EachTargetOnce(count, left);
    HealthyMembers(targets, healthy);
  }

  lemma FirstTry(targets: seq<string>, healthy: set<string>, count: nat, i: nat, outcome: Outcome)
    requires Filter(targets, IsIn(healthy)) != []
    ensures var left := Filter(targets, IsIn(healthy));
            RoundRobin(targets, {}, Attempt(healthy, (count + i) % Health.COUNTER_RANGE, outcome))
            == Some(left[Health.Place(count, i, |left|)])
  {
    SameFilter(targets, healthy);
  }

  lemma HealthyMembers(targets: seq<string>, healthy: set<string>)
    ensures forall t :: t in Filter(targets, IsIn(healthy)) <==> t in targets && t in healthy
  {
    FilterMembers(targets, IsIn(healthy));
  }

  lemma {:induction false} SameFilter(targets: seq<string>, healthy: set<string>)
    ensures Filter(targets, IsLeft({}, healthy)) == Filter(targets, IsIn(healthy))
  {
    if targets != [] {
      SameFilter(targets[1..], healthy);
    }
  }

  lemma AllFailNone(world: nat -> Attempt)
    ensures AllFail(world, 0)
  {
  }

  lemma AllFailNext(world: nat -> Attempt, n: nat)
    requires AllFail(world, n) && Fails(world(n).outcome)
    ensures AllFail(world, n + 1)
  {
  }

  lemma ExplainNobody(before: Sent, retryOnFailure: bool, targets: seq<string>, world: nat -> Attempt, tries: seq<string>)
    requires AllFail(world, |tries|)
    requires targets == [] ||
             var left := Filter(targets, Untried(Elements(tries)));
             left != [] && Filter(left, IsIn(world(|tries|).healthy)) == []
    ensures Explained(before, before, retryOnFailure, targets, world, Failed(NoHealthyTargets), tries)
  {
  }

  lemma ExplainDone(before: Sent, after: Sent, retryOnFailure: bool, targets: seq<string>, world: nat -> Attempt, tries: seq<string>)
    requires |tries| > 0 && AllFail(world, |tries| - 1)
    requires var o := world(|tries| - 1).outcome;
             && o.Response? && (retryOnFailure ==> !Fails(o))
             && after == Relayed(before, o.header, o.status, Concat(o.chunks))
    ensures Explained(before, after, retryOnFailure, targets, world, Done, tries)
  {
  }

  lemma ExplainFailed(before: Sent, retryOnFailure: bool, targets: seq<string>, world: nat -> Attempt, tries: seq<string>)
    requires |tries| > 0 && AllFail(world, |tries|) && (retryOnFailure ==> Elements(targets) == Elements(tries))
    ensures Explained(before, before, retryOnFailure, targets, world, Failed(AttemptFailed(world(|tries| - 1).outcome)), tries)
  {
  }

  lemma HasFirst(targets: seq<string>)
    requires targets != []
    ensures targets[0] in Elements(targets) && Elements([]) == {}
  {
  }

  lemma NoCandidates(targets: seq<string>, tried: set<string>)
    requires Filter(targets, Untried(tried)) == []
    ensures Elements(targets) <= tried
  {
    FilterMembers(targets, Untried(tried));
  }
}
